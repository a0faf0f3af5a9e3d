/**
 * The morphotactic values the transition engine works on (suffix graph
 * states, suffixes and their forms, morpheme containers) and the two
 * collaborators it calls but does not define: the suffix graph's lookups and
 * the suffix applier. Both collaborators are records of total functions; an
 * absent answer (Java's null) is None.
 */
module Morphotactics {
  import opened Results
  import opened Model

  /** A state of the suffix graph, identified by its name. */
  datatype SuffixGraphState = SuffixGraphState(name: string)

  datatype Suffix = Suffix(name: string)

  /** One surface form of a suffix, e.g. "Iyor" of Prog. */
  datatype SuffixForm = SuffixForm(suffix: Suffix, form: string)

  /**
   * A partial parse: a root, the graph state it has reached, and what it has
   * consumed so far. Only `root` and `lastState` are read by the engine.
   */
  datatype MorphemeContainer = MorphemeContainer(
    root: Root,
    lastState: SuffixGraphState,
    surfaceSoFar: string,
    suffixForms: seq<SuffixForm>)

  /** SuffixGraph: state and suffix-form lookups by name. */
  datatype SuffixGraph = SuffixGraph(
    getSuffixGraphState: string -> Option<SuffixGraphState>,
    /** getSuffixForm(suffixName, suffixFormStr). */
    getSuffixForm: (string, string) -> Option<SuffixForm>)

  /** SuffixApplier: whether a suffix may follow a container, and the container that results from one form of it. */
  datatype SuffixApplier = SuffixApplier(
    transitionAllowedForSuffix: (MorphemeContainer, Suffix) -> bool,
    /** trySuffixForm(container, suffixForm, targetState, input): null when the form does not fit. */
    trySuffixForm: (MorphemeContainer, SuffixForm, SuffixGraphState, string) -> Option<MorphemeContainer>)
}
