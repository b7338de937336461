/** Edges of the Parsing library's chart (the files under Parsing/Edges). An active edge spans the
    input already matched by a prefix of a sequence; a complete edge spans a whole
    constituent. Edges keep back-links to the edges they were built from, but their
    equality ignores them. `IncommingEdges` collects, per input position, the edges
    ending there, without duplicates. */
module Edges {
  import opened Results
  import opened Grammar
  import opened Labels

  /** A source context. `SourceData.GetSourceContext` keeps one context object per
      index (`At`), but `Source.CreateStartContext` makes the start context of a parse
      directly, so it is a different object from the cached context for index 0. */
  datatype Context = Start | At(index: nat) {
    function Index(): nat {
      if Start? then 0 else index
    }
  }

  /** `TerminalMatch`: it succeeds exactly when it has an end context. */
  datatype TerminalMatch = TerminalMatch(matchEnd: Option<Context>, data: string) {
    predicate Success() { matchEnd.Some? }
  }

  datatype ActiveEdge = ActiveEdge(
    activeLabel: ActiveLabel, start: Context, end: Context,
    extended: Option<ActiveEdge>, extending: Option<CompleteEdge>)

  /** A complete edge; `matched` holds the terminal match of a `TerminalEdge` and is
      `None` for an edge completing a sequence. */
  datatype CompleteEdge = CompleteEdge(
    complete: CompleteLabel, parent: Term, start: Context, end: Context,
    extended: Option<ActiveEdge>, extending: Option<CompleteEdge>,
    matched: Option<TerminalMatch>)

  // ---------------------------------------------------------------------------------
  // Constructors

  /** `new ActiveEdge(label, start, end)`: no back-links. */
  function NewActive(lab: ActiveLabel, start: Context, end: Context): ActiveEdge {
    ActiveEdge(lab, start, end, None, None)
  }

  /** The self-edge constructor: a zero-width edge at the end of `extended`. The
      back-link to `extended` is not kept. */
  function SelfEdge(lab: ActiveLabel, extended: ActiveEdge): (e: ActiveEdge)
    ensures e.start == e.end == extended.end
    ensures e.activeLabel == lab && e.extended.None? && e.extending.None?
  {
    NewActive(lab, extended.end, extended.end)
  }

  /** `ExtendBy`: the next label of the chain, from the edge's start to the
      constituent's end. The parser extends only edges whose label does not complete. */
  function ExtendBy(g: Built, edge: ActiveEdge, constituent: CompleteEdge): (e: ActiveEdge)
    requires ValidLabel(g, edge.activeLabel) && !WillComplete(g, edge.activeLabel)
    ensures ValidLabel(g, e.activeLabel)
  {
    ActiveEdge(NextInChain(g, edge.activeLabel).value, edge.start, constituent.end, Some(edge), Some(constituent))
  }

  /** `CompleteBy`: the sequence's complete label, from the edge's start to the
      constituent's end; its parent is the label's parent. */
  function CompleteBy(g: Built, edge: ActiveEdge, constituent: CompleteEdge): CompleteEdge
    requires ValidLabel(g, edge.activeLabel) && WillComplete(g, edge.activeLabel)
  {
    var complete := CompleteLabelOf(g, edge.activeLabel).value;
    CompleteEdge(complete, LabelParent(complete), edge.start, constituent.end, Some(edge), Some(constituent), None)
  }

  /** `new TerminalEdge(label, start, match)`: the terminal is the parent and the edge
      ends where the match ends. */
  function TerminalEdge(g: Built, lab: ActiveLabel, start: Context, m: TerminalMatch): (c: CompleteEdge)
    requires ValidLabel(g, lab) && m.Success()
    ensures c.parent == CurrentTerm(g, lab) && c.complete == TerminalAt(lab)
    ensures c.start == start && c.end == m.matchEnd.value && c.matched == Some(m)
  {
    CompleteEdge(TerminalAt(lab), CurrentTerm(g, lab), start, m.matchEnd.value, None, None, Some(m))
  }

  /** `CompleteEdge.IsFinal`. */
  predicate IsFinalEdge(g: Built, c: CompleteEdge) {
    IsFinal(g, c.complete)
  }

  /** Extending spans the edge's start to the constituent's end with the next label of
      the chain; completing spans the same with the sequence's complete label and its
      owner as parent. Both remember the two edges they join. */
  lemma ExtendAndComplete(g: Built, edge: ActiveEdge, constituent: CompleteEdge)
    requires ValidLabel(g, edge.activeLabel)
    ensures !WillComplete(g, edge.activeLabel) ==>
      var e := ExtendBy(g, edge, constituent);
      && e.start == edge.start && e.end == constituent.end
      && e.activeLabel == ActiveLabel(edge.activeLabel.owner, edge.activeLabel.alt, edge.activeLabel.index + 1)
      && e.extended == Some(edge) && e.extending == Some(constituent)
    ensures WillComplete(g, edge.activeLabel) ==>
      var c := CompleteBy(g, edge, constituent);
      && c.start == edge.start && c.end == constituent.end
      && c.complete == SequenceEnd(edge.activeLabel.owner, edge.activeLabel.alt)
      && c.parent == edge.activeLabel.owner && c.matched.None?
      && c.extended == Some(edge) && c.extending == Some(constituent)
      && (IsFinalEdge(g, c) <==> edge.activeLabel.owner in g.final)
  {}

  // ---------------------------------------------------------------------------------
  // Equality and hashing

  datatype ActiveKey = ActiveKey(activeLabel: ActiveLabel, start: Context, end: Context)
  datatype CompleteKey = CompleteKey(complete: CompleteLabel, parent: Term, start: Context, end: Context)

  /** What `ActiveEdge.Equals` compares: label, start and end, not the back-links. */
  function KeyOf(e: ActiveEdge): ActiveKey {
    ActiveKey(e.activeLabel, e.start, e.end)
  }

  /** What `CompleteEdge.Equals` compares: label, parent, start and end. */
  function CompleteKeyOf(c: CompleteEdge): CompleteKey {
    CompleteKey(c.complete, c.parent, c.start, c.end)
  }

  predicate SameActive(a: ActiveEdge, b: ActiveEdge) {
    KeyOf(a) == KeyOf(b)
  }

  predicate SameComplete(a: CompleteEdge, b: CompleteEdge) {
    CompleteKeyOf(a) == CompleteKeyOf(b)
  }

  /** Equality ignores the back-links: two edges over the same span with the same
      label are equal however they were derived. */
  lemma EqualityIgnoresBackLinks(a: ActiveEdge, x: Option<ActiveEdge>, y: Option<CompleteEdge>,
                                    c: CompleteEdge, u: Option<ActiveEdge>, v: Option<CompleteEdge>, m: Option<TerminalMatch>)
    ensures SameActive(a, a.(extended := x, extending := y))
    ensures SameComplete(c, c.(extended := u, extending := v, matched := m))
    ensures SameActive(a, a.(start := At(a.start.Index() + 1))) == false
  {}

  /** Equality is a congruence for extending and completing: equal edges joined with
      equal constituents give equal edges, so dropping a duplicate loses nothing. */
  lemma JoinRespectsEquality(g: Built, e1: ActiveEdge, e2: ActiveEdge, c1: CompleteEdge, c2: CompleteEdge)
    requires ValidLabel(g, e1.activeLabel) && SameActive(e1, e2) && SameComplete(c1, c2)
    ensures !WillComplete(g, e1.activeLabel) ==> SameActive(ExtendBy(g, e1, c1), ExtendBy(g, e2, c2))
    ensures WillComplete(g, e1.activeLabel) ==> SameComplete(CompleteBy(g, e1, c1), CompleteBy(g, e2, c2))
  {}

  /** `ActiveEdge.GetHashCode`: label hash plus end-context hash, for any object hash
      functions. */
  function ActiveHash(labelHash: ActiveLabel -> int, contextHash: Context -> int, e: ActiveEdge): int {
    labelHash(e.activeLabel) + contextHash(e.end)
  }

  /** `CompleteEdge.GetHashCode`: end hash plus label hash plus parent hash. */
  function CompleteHash(labelHash: CompleteLabel -> int, termHash: Term -> int, contextHash: Context -> int,
                        c: CompleteEdge): int {
    contextHash(c.end) + labelHash(c.complete) + termHash(c.parent)
  }

  /** Hashing agrees with equality: equal edges have equal hashes. */
  lemma HashesAgree(lh: ActiveLabel -> int, ch: CompleteLabel -> int, th: Term -> int, xh: Context -> int,
                    a: ActiveEdge, b: ActiveEdge, c: CompleteEdge, d: CompleteEdge)
    ensures SameActive(a, b) ==> ActiveHash(lh, xh, a) == ActiveHash(lh, xh, b)
    ensures SameComplete(c, d) ==> CompleteHash(ch, th, xh, c) == CompleteHash(ch, th, xh, d)
  {}

  // ---------------------------------------------------------------------------------
  // IncommingEdges

  /** The edges ending at one position: the active and complete edge sets (as the keys
      their equality sees), the terminal labels some active edge waits for, and the
      active edges grouped by the term they wait for. Hash sets are enumerated in
      insertion order here, as .NET does while nothing is removed. */
  datatype Incoming = Incoming(
    active: set<ActiveKey>, complete: set<CompleteKey>,
    waiting: seq<CompleteLabel>, extensible: map<Term, seq<ActiveEdge>>)

  const NoEdges: Incoming := Incoming({}, {}, [], map[])

  /** `ExtensibleWith`: the active edges waiting for the constituent's parent. */
  function ExtensibleWith(inc: Incoming, constituent: CompleteEdge): seq<ActiveEdge> {
    if constituent.parent in inc.extensible then inc.extensible[constituent.parent] else []
  }

  /** `Connect(ActiveEdge)`: a duplicate changes nothing and reports false; a new edge is
      recorded, its terminal label joins the waiting set, and it is filed under the term
      it waits for. */
  function ConnectActive(g: Built, inc: Incoming, e: ActiveEdge): (Incoming, bool)
    requires ValidLabel(g, e.activeLabel)
  {
    if KeyOf(e) in inc.active then (inc, false)
    else
      var terminal := TerminalLabelOf(g, e.activeLabel);
      var waiting := if terminal.Some? && terminal.value !in inc.waiting then inc.waiting + [terminal.value] else inc.waiting;
      var term := CurrentTerm(g, e.activeLabel);
      var filed := if term in inc.extensible then inc.extensible[term] else [];
      (Incoming(inc.active + {KeyOf(e)}, inc.complete, waiting, inc.extensible[term := filed + [e]]), true)
  }

  /** `Connect(CompleteEdge)`: a set insertion reporting whether the edge was new. */
  function ConnectComplete(inc: Incoming, c: CompleteEdge): (r: (Incoming, bool))
    ensures r.1 <==> CompleteKeyOf(c) !in inc.complete
    ensures r.0 == inc.(complete := inc.complete + {CompleteKeyOf(c)})
  {
    if CompleteKeyOf(c) in inc.complete then (inc, false)
    else (inc.(complete := inc.complete + {CompleteKeyOf(c)}), true)
  }

  /** `ClearWaitingTerminals`. */
  function ClearWaiting(inc: Incoming): (r: Incoming)
    ensures r.waiting == [] && r.active == inc.active && r.complete == inc.complete
    ensures r.extensible == inc.extensible
  {
    inc.(waiting := [])
  }

  /** The bookkeeping `IncommingEdges` keeps: every filed edge is recorded and waits for
      the term it is filed under, each recorded edge is filed once, and the waiting set
      holds exactly the terminal labels of the recorded edges, without repetition. */
  ghost predicate Indexed(g: Built, inc: Incoming) {
    && (forall t, k :: t in inc.extensible && 0 <= k < |inc.extensible[t]| ==>
          ValidLabel(g, inc.extensible[t][k].activeLabel)
          && CurrentTerm(g, inc.extensible[t][k].activeLabel) == t
          && KeyOf(inc.extensible[t][k]) in inc.active)
    && (forall t, j, k :: t in inc.extensible && 0 <= j < k < |inc.extensible[t]| ==>
          KeyOf(inc.extensible[t][j]) != KeyOf(inc.extensible[t][k]))
    && (forall key :: key in inc.active ==> Filed(g, inc, key))
    && (forall j, k :: 0 <= j < k < |inc.waiting| ==> inc.waiting[j] != inc.waiting[k])
    && (forall l :: l in inc.waiting ==> Matchable(g, l) && Waits(inc, l.at))
    && (forall key :: key in inc.active && ValidLabel(g, key.activeLabel) && TerminalLabelOf(g, key.activeLabel).Some?
          ==> TerminalLabelOf(g, key.activeLabel).value in inc.waiting)
  }

  /** A waiting label the scanner can match: the terminal label of a valid active
      label. */
  predicate Matchable(g: Built, l: CompleteLabel) {
    l.TerminalAt? && ValidLabel(g, l.at) && CurrentTerm(g, l.at).IsTerminal()
  }

  /** `key` is filed under the term its label waits for. */
  ghost predicate Filed(g: Built, inc: Incoming, key: ActiveKey) {
    ValidLabel(g, key.activeLabel) && CurrentTerm(g, key.activeLabel) in inc.extensible
    && exists k :: 0 <= k < |inc.extensible[CurrentTerm(g, key.activeLabel)]|
         && KeyOf(inc.extensible[CurrentTerm(g, key.activeLabel)][k]) == key
  }

  /** Some recorded edge carries label `l`. */
  ghost predicate Waits(inc: Incoming, l: ActiveLabel) {
    exists key :: key in inc.active && key.activeLabel == l
  }

  lemma EmptyIndexed(g: Built)
    ensures Indexed(g, NoEdges)
  {}

  /** Connecting an active edge: a duplicate leaves everything unchanged and reports
      false; a new edge is recorded, reported true, appended to the edges filed under
      its term (and nowhere else), and its terminal label, if any, is waiting. The
      bookkeeping invariant is kept. */
  lemma ConnectActiveMeaning(g: Built, inc: Incoming, e: ActiveEdge)
    requires ValidLabel(g, e.activeLabel) && Indexed(g, inc)
    ensures var (inc', added) := ConnectActive(g, inc, e);
      && (added <==> KeyOf(e) !in inc.active)
      && (!added ==> inc' == inc)
      && inc'.active == inc.active + {KeyOf(e)}
      && inc'.complete == inc.complete
      && (forall c :: ExtensibleWith(inc', c)
            == ExtensibleWith(inc, c) + (if added && c.parent == CurrentTerm(g, e.activeLabel) then [e] else []))
      && (TerminalLabelOf(g, e.activeLabel).Some? ==> TerminalLabelOf(g, e.activeLabel).value in inc'.waiting)
      && (forall l :: l in inc'.waiting <==> l in inc.waiting || (added && Some(l) == TerminalLabelOf(g, e.activeLabel)))
      && Indexed(g, inc')
  {
    ConnectActiveFiles(g, inc, e);
    ConnectActiveWaiting(g, inc, e);
    if KeyOf(e) !in inc.active {
      ConnectActiveIndexed(g, inc, e);
    }
  }

  /** A new edge is appended to the edges filed under its term, and nowhere else. */
  lemma ConnectActiveFiles(g: Built, inc: Incoming, e: ActiveEdge)
    requires ValidLabel(g, e.activeLabel)
    ensures var (inc', added) := ConnectActive(g, inc, e);
      forall c :: ExtensibleWith(inc', c)
        == ExtensibleWith(inc, c) + (if added && c.parent == CurrentTerm(g, e.activeLabel) then [e] else [])
  {
  }

  /** The waiting set gains the new edge's terminal label, and nothing else. */
  lemma ConnectActiveWaiting(g: Built, inc: Incoming, e: ActiveEdge)
    requires ValidLabel(g, e.activeLabel) && Indexed(g, inc)
    ensures var (inc', added) := ConnectActive(g, inc, e);
      && (TerminalLabelOf(g, e.activeLabel).Some? ==> TerminalLabelOf(g, e.activeLabel).value in inc'.waiting)
      && (forall l :: l in inc'.waiting <==> l in inc.waiting || (added && Some(l) == TerminalLabelOf(g, e.activeLabel)))
  {
  }

  lemma ConnectActiveIndexed(g: Built, inc: Incoming, e: ActiveEdge)
    requires ValidLabel(g, e.activeLabel) && Indexed(g, inc) && KeyOf(e) !in inc.active
    ensures Indexed(g, ConnectActive(g, inc, e).0)
  {
    var inc' := ConnectActive(g, inc, e).0;
    ConnectActiveFiled(g, inc, e);
    ConnectActiveWaits(g, inc, e);
    ConnectActiveDistinct(g, inc, e);
  }

  lemma ConnectActiveFiled(g: Built, inc: Incoming, e: ActiveEdge)
    requires ValidLabel(g, e.activeLabel) && Indexed(g, inc) && KeyOf(e) !in inc.active
    ensures var inc' := ConnectActive(g, inc, e).0;
      forall key :: key in inc'.active ==> Filed(g, inc', key)
  {
    var inc' := ConnectActive(g, inc, e).0;
    var term := CurrentTerm(g, e.activeLabel);
    var filed := if term in inc.extensible then inc.extensible[term] else [];
    assert inc'.extensible[term] == filed + [e];
    forall key | key in inc'.active
      ensures Filed(g, inc', key)
    {
      if key == KeyOf(e) {
        assert KeyOf(inc'.extensible[term][|filed|]) == key;
      } else {
        assert Filed(g, inc, key);
        var t := CurrentTerm(g, key.activeLabel);
        var k :| 0 <= k < |inc.extensible[t]| && KeyOf(inc.extensible[t][k]) == key;
        assert inc'.extensible[t][k] == inc.extensible[t][k];
      }
    }
  }

  lemma ConnectActiveWaits(g: Built, inc: Incoming, e: ActiveEdge)
    requires ValidLabel(g, e.activeLabel) && Indexed(g, inc) && KeyOf(e) !in inc.active
    ensures var inc' := ConnectActive(g, inc, e).0;
      forall l :: l in inc'.waiting ==> Matchable(g, l) && Waits(inc', l.at)
  {
    var inc' := ConnectActive(g, inc, e).0;
    forall l | l in inc'.waiting
      ensures Matchable(g, l) && Waits(inc', l.at)
    {
      if l in inc.waiting {
        assert Waits(inc, l.at);
      } else {
        assert KeyOf(e) in inc'.active;
      }
    }
  }

  lemma ConnectActiveDistinct(g: Built, inc: Incoming, e: ActiveEdge)
    requires ValidLabel(g, e.activeLabel) && Indexed(g, inc) && KeyOf(e) !in inc.active
    ensures var inc' := ConnectActive(g, inc, e).0;
      && (forall t, k :: t in inc'.extensible && 0 <= k < |inc'.extensible[t]| ==>
            ValidLabel(g, inc'.extensible[t][k].activeLabel)
            && CurrentTerm(g, inc'.extensible[t][k].activeLabel) == t
            && KeyOf(inc'.extensible[t][k]) in inc'.active)
      && (forall t, j, k :: t in inc'.extensible && 0 <= j < k < |inc'.extensible[t]| ==>
            KeyOf(inc'.extensible[t][j]) != KeyOf(inc'.extensible[t][k]))
      && (forall j, k :: 0 <= j < k < |inc'.waiting| ==> inc'.waiting[j] != inc'.waiting[k])
      && (forall key :: key in inc'.active && ValidLabel(g, key.activeLabel) && TerminalLabelOf(g, key.activeLabel).Some?
            ==> TerminalLabelOf(g, key.activeLabel).value in inc'.waiting)
  {
  }

  /** What `ExtensibleWith` returns under the invariant: exactly the recorded edges
      waiting for the constituent's parent, each once. */
  lemma ExtensibleWithExactly(g: Built, inc: Incoming, c: CompleteEdge)
    requires Indexed(g, inc)
    ensures forall k :: 0 <= k < |ExtensibleWith(inc, c)| ==>
      ValidLabel(g, ExtensibleWith(inc, c)[k].activeLabel)
      && CurrentTerm(g, ExtensibleWith(inc, c)[k].activeLabel) == c.parent
      && KeyOf(ExtensibleWith(inc, c)[k]) in inc.active
    ensures forall key :: key in inc.active && ValidLabel(g, key.activeLabel) && CurrentTerm(g, key.activeLabel) == c.parent ==>
      exists k :: 0 <= k < |ExtensibleWith(inc, c)| && KeyOf(ExtensibleWith(inc, c)[k]) == key
  {
    forall key | key in inc.active && ValidLabel(g, key.activeLabel) && CurrentTerm(g, key.activeLabel) == c.parent
      ensures exists k :: 0 <= k < |ExtensibleWith(inc, c)| && KeyOf(ExtensibleWith(inc, c)[k]) == key
    {
      assert Filed(g, inc, key);
      assert ExtensibleWith(inc, c) == inc.extensible[c.parent];
    }
  }

  /** Connecting a complete edge twice: the second time reports false and changes
      nothing. */
  lemma ConnectCompleteTwice(inc: Incoming, c: CompleteEdge, d: CompleteEdge)
    requires SameComplete(c, d)
    ensures ConnectComplete(ConnectComplete(inc, c).0, d) == (ConnectComplete(inc, c).0, false)
  {}
}
