/** Labels of the Parsing library's chart (Parsing/Labels/ActiveLabel.cs,
    Parsing/Labels/CompleteLabel.cs). An active label marks a position inside a grammar
    sequence; constructing the label for position 0 builds the whole chain of labels up
    to the last term, which carries the complete label of the sequence. */
module Labels {
  import opened Results
  import opened Grammar

  /** A grammar once `GrammarBase.Build` has run (GrammarBase is not part of this
      model): every non-terminal's rule as the term lists of its sequences, each
      sequence owned by that non-terminal, the root and the final non-terminals. */
  datatype Built = Built(rules: map<Term, seq<seq<Term>>>, root: Term, final: set<Term>)

  /** An `ActiveLabel`: position `index` of sequence `alt` of `owner`'s rule. A sequence
      belongs to one non-terminal only (`SetParent`), and the parser makes one chain
      per sequence, so the position stands for the label object. */
  datatype ActiveLabel = ActiveLabel(owner: Term, alt: nat, index: nat)

  /** A `CompleteLabel` closes sequence `alt` of `owner`; a `TerminalLabel` (whose class
      is not part of this model) is made once per active label whose term is a
      terminal. */
  datatype CompleteLabel = SequenceEnd(owner: Term, alt: nat) | TerminalAt(at: ActiveLabel)

  predicate HasSequence(g: Built, owner: Term, alt: nat) {
    owner in g.rules && alt < |g.rules[owner]|
  }

  predicate ValidLabel(g: Built, l: ActiveLabel) {
    HasSequence(g, l.owner, l.alt) && l.index < |g.rules[l.owner][l.alt]|
  }

  function SequenceOf(g: Built, l: ActiveLabel): seq<Term>
    requires HasSequence(g, l.owner, l.alt)
  {
    g.rules[l.owner][l.alt]
  }

  function CurrentTerm(g: Built, l: ActiveLabel): Term
    requires ValidLabel(g, l)
  {
    SequenceOf(g, l)[l.index]
  }

  function WillComplete(g: Built, l: ActiveLabel): bool
    requires ValidLabel(g, l)
  {
    |SequenceOf(g, l)| == l.index + 1
  }

  /** The label after this one, unless this one completes its sequence. */
  function NextInChain(g: Built, l: ActiveLabel): Option<ActiveLabel>
    requires ValidLabel(g, l)
  {
    if WillComplete(g, l) then None else Some(ActiveLabel(l.owner, l.alt, l.index + 1))
  }

  /** The complete label, present only on the last label of the chain. */
  function CompleteLabelOf(g: Built, l: ActiveLabel): Option<CompleteLabel>
    requires ValidLabel(g, l)
  {
    if WillComplete(g, l) then Some(SequenceEnd(l.owner, l.alt)) else None
  }

  /** The terminal label, present only when the label waits for a terminal. */
  function TerminalLabelOf(g: Built, l: ActiveLabel): Option<CompleteLabel>
    requires ValidLabel(g, l)
  {
    if CurrentTerm(g, l).IsTerminal() then Some(TerminalAt(l)) else None
  }

  /** The non-terminal owning the labelled sequence (`CompleteLabel.Parent`). */
  function LabelParent(c: CompleteLabel): Term {
    match c
    case SequenceEnd(owner, _) => owner
    case TerminalAt(l) => l.owner
  }

  /** `CompleteLabel.IsFinal`: the parent non-terminal is final. */
  predicate IsFinal(g: Built, c: CompleteLabel) {
    LabelParent(c) in g.final
  }

  /** Each label has exactly one successor: the next label or its complete label, and
      the next label sits one position further in the same sequence. */
  lemma LabelLinks(g: Built, l: ActiveLabel)
    requires ValidLabel(g, l)
    ensures CompleteLabelOf(g, l).Some? <==> NextInChain(g, l).None?
    ensures WillComplete(g, l) <==> l.index == |SequenceOf(g, l)| - 1
    ensures NextInChain(g, l).Some? ==>
      var n := NextInChain(g, l).value;
      ValidLabel(g, n) && n.owner == l.owner && n.alt == l.alt && n.index == l.index + 1
      && CurrentTerm(g, n) == SequenceOf(g, l)[l.index + 1]
    ensures CompleteLabelOf(g, l).Some? ==> LabelParent(CompleteLabelOf(g, l).value) == l.owner
    ensures TerminalLabelOf(g, l).Some? <==> CurrentTerm(g, l).Kind() == TerminalKind
  {}

  datatype LabelError = NoCurrentTerm

  /** The `ActiveLabel` constructor on a bare term list: `Skip(index).First()` throws
      when the sequence has no term at `index`. */
  function NewLabel(terms: seq<Term>, owner: Term, alt: nat, index: nat): (r: Result<ActiveLabel, LabelError>)
    ensures r.Ok? <==> index < |terms|
    ensures r.Ok? ==> r.value == ActiveLabel(owner, alt, index)
  {
    if index < |terms| then Ok(ActiveLabel(owner, alt, index)) else Throws(NoCurrentTerm)
  }

  /** The chain of labels the constructor builds from `l` on: `l`, then recursively the
      chain of its `NextInChain`. */
  function ChainFrom(g: Built, l: ActiveLabel): seq<ActiveLabel>
    requires ValidLabel(g, l)
    decreases |SequenceOf(g, l)| - l.index
  {
    match NextInChain(g, l)
    case None => [l]
    case Some(n) => [l] + ChainFrom(g, n)
  }

  /** The labels for sequence `alt` of `owner`, as the parser makes them per sequence;
      an empty sequence makes the constructor throw. */
  function Chain(g: Built, owner: Term, alt: nat): Result<seq<ActiveLabel>, LabelError>
    requires HasSequence(g, owner, alt)
  {
    var head := NewLabel(g.rules[owner][alt], owner, alt, 0);
    if head.Throws? then Throws(head.error) else Ok(ChainFrom(g, head.value))
  }

  /** The chain from `l` visits every later position of the sequence in order; its
      k-th label looks at the k-th remaining term, and only its last label
      completes. */
  lemma {:induction false} ChainFromShape(g: Built, l: ActiveLabel)
    requires ValidLabel(g, l)
    ensures var c := ChainFrom(g, l);
      && |c| == |SequenceOf(g, l)| - l.index
      && (forall k :: 0 <= k < |c| ==> c[k] == ActiveLabel(l.owner, l.alt, l.index + k))
      && (forall k :: 0 <= k < |c| ==> ValidLabel(g, c[k]) && CurrentTerm(g, c[k]) == SequenceOf(g, l)[l.index + k])
      && (forall k :: 0 <= k < |c| ==> (WillComplete(g, c[k]) <==> k == |c| - 1))
    decreases |SequenceOf(g, l)| - l.index
  {
    if NextInChain(g, l).Some? {
      var n := NextInChain(g, l).value;
      ChainFromShape(g, n);
      var rest := ChainFrom(g, n);
      assert ChainFrom(g, l) == [l] + rest;
      forall k | 1 <= k < 1 + |rest|
        ensures ([l] + rest)[k] == ActiveLabel(l.owner, l.alt, l.index + k)
      {
        assert ([l] + rest)[k] == rest[k - 1];
      }
    }
  }

  /** The chain of a sequence holds one label per term, the k-th waiting for the k-th
      term, and only the last one completes; an empty sequence has no chain. */
  lemma ChainShape(g: Built, owner: Term, alt: nat)
    requires HasSequence(g, owner, alt)
    ensures Chain(g, owner, alt).Ok? <==> |g.rules[owner][alt]| > 0
    ensures Chain(g, owner, alt).Ok? ==>
      var c := Chain(g, owner, alt).value;
      && |c| == |g.rules[owner][alt]|
      && (forall k :: 0 <= k < |c| ==> c[k] == ActiveLabel(owner, alt, k) && ValidLabel(g, c[k]))
      && (forall k :: 0 <= k < |c| ==> CurrentTerm(g, c[k]) == g.rules[owner][alt][k])
      && (forall k :: 0 <= k < |c| ==> (WillComplete(g, c[k]) <==> k == |c| - 1))
  {
    if |g.rules[owner][alt]| > 0 {
      ChainFromShape(g, ActiveLabel(owner, alt, 0));
    }
  }
}
