/** The input side of the Parsing library (Parsing/Source/SourceContext.cs,
    Parsing/Source/SourceData.cs, Parsing/Terms/KeyTerminal.cs,
    Parsing/Terms/EmptyTerminal.cs): positions in the text, terminal matching, and the
    per-position store of incoming edges that routes every new edge to the position
    where it ends. */
module ParseSource {
  import opened Results
  import opened Text
  import opened Grammar
  import opened Labels
  import opened Edges

  /** `SourceData`: the text, the incoming edges per index, the indices that already
      have a context object, and the memo of terminal matches per index. */
  datatype SourceData = SourceData(
    text: string, incoming: map<nat, Incoming>, contexts: set<nat>,
    matches: map<nat, map<Term, TerminalMatch>>)

  function NewData(text: string): SourceData {
    SourceData(text, map[], {}, map[])
  }

  datatype SourceError = KeyNotFound

  /** `SourceContext.EOF`: nothing is left to read. */
  predicate EOF(text: string, ctx: Context) {
    |text| <= ctx.Index()
  }

  /** `SourceContext.BOF`: the context is at the first character. */
  predicate BOF(ctx: Context) {
    ctx.Index() == 0
  }

  // ---------------------------------------------------------------------------------
  // Contexts

  /** `GetSourceContext`: the cached context object for an index, created on first
      request. */
  function GetSourceContext(d: SourceData, i: nat): (r: (SourceData, Context))
    ensures r.1 == At(i) && r.0.contexts == d.contexts + {i}
    ensures r.0.text == d.text && r.0.incoming == d.incoming && r.0.matches == d.matches
  {
    if i in d.contexts then (d, At(i)) else (d.(contexts := d.contexts + {i}), At(i))
  }

  /** One context object per index: asking again gives the same context and changes
      nothing. */
  lemma ContextsCanonical(d: SourceData, i: nat)
    ensures var (d1, c1) := GetSourceContext(d, i);
      GetSourceContext(d1, i) == (d1, c1)
  {}

  /** `Shift(string)`: the context just after `data` if the text continues with it;
      `None` if too little text is left or the text differs. */
  function Shift(text: string, ctx: Context, data: string): Option<Context> {
    var i := ctx.Index();
    if |text| - i < |data| then None
    else if text[i..i + |data|] == data then Some(At(i + |data|))
    else None
  }

  lemma ShiftMeaning(text: string, ctx: Context, data: string)
    ensures Shift(text, ctx, data).Some? <==>
      ctx.Index() + |data| <= |text| && text[ctx.Index()..ctx.Index() + |data|] == data
    ensures Shift(text, ctx, data).Some? ==> Shift(text, ctx, data).value == At(ctx.Index() + |data|)
  {}

  /** The loop of `SkipWhitespaces` from index `i`: the text length when the loop runs
      out, else the first index whose character is not white space. */
  function FirstNonWhite(text: string, i: nat): nat
    decreases |text| - i
  {
    if i >= |text| then |text|
    else if !IsWhiteSpace(text[i]) then i
    else FirstNonWhite(text, i + 1)
  }

  /** `SkipWhitespaces`. */
  function SkipWhitespaces(text: string, ctx: Context): Context {
    At(FirstNonWhite(text, ctx.Index()))
  }

  lemma {:induction false} FirstNonWhiteMeaning(text: string, i: nat)
    ensures var j := FirstNonWhite(text, i);
      && (i <= |text| ==> i <= j <= |text|)
      && (i > |text| ==> j == |text|)
      && (forall k :: i <= k < j ==> IsWhiteSpace(text[k]))
      && (j < |text| ==> !IsWhiteSpace(text[j]))
    decreases |text| - i
  {
    if i < |text| && IsWhiteSpace(text[i]) {
      FirstNonWhiteMeaning(text, i + 1);
    }
  }

  /** `SkipWhitespaces` lands on the first index at or after the context that does not
      hold white space, or on the end of the text; a context past the end comes back
      to the end. */
  lemma SkipWhitespacesMeaning(text: string, ctx: Context)
    ensures var j := SkipWhitespaces(text, ctx).Index();
      && (ctx.Index() <= |text| ==> ctx.Index() <= j <= |text|)
      && (ctx.Index() > |text| ==> j == |text|)
      && (forall k :: ctx.Index() <= k < j ==> IsWhiteSpace(text[k]))
      && (j < |text| ==> !IsWhiteSpace(text[j]))
  {
    FirstNonWhiteMeaning(text, ctx.Index());
  }

  // ---------------------------------------------------------------------------------
  // Terminal matching

  /** `Terminal.Match`: a key terminal skips white space and then shifts its key; the
      empty terminal matches nothing at the context itself. */
  function MatchTerminal(text: string, ctx: Context, t: Term): (m: TerminalMatch)
    requires t.IsTerminal()
  {
    match t
    case KeyTerminal(_, _, key) => TerminalMatch(Shift(text, SkipWhitespaces(text, ctx), key), key)
    case EmptyTerminal(_) => TerminalMatch(Some(ctx), "")
  }

  /** A key terminal matches exactly when its key follows the white space after the
      context, and then ends right after the key; the empty terminal always matches,
      with zero width. */
  lemma MatchTerminalMeaning(text: string, ctx: Context, t: Term)
    requires t.IsTerminal()
    ensures t.KeyTerminal? ==>
      var j := SkipWhitespaces(text, ctx).Index();
      var m := MatchTerminal(text, ctx, t);
      && m.data == t.key
      && (m.Success() <==> j + |t.key| <= |text| && text[j..j + |t.key|] == t.key)
      && (m.Success() ==> m.matchEnd.value == At(j + |t.key|) && m.matchEnd.value.Index() <= |text|)
    ensures t.EmptyTerminal? ==> MatchTerminal(text, ctx, t) == TerminalMatch(Some(ctx), "")
  {
    if t.KeyTerminal? {
      ShiftMeaning(text, SkipWhitespaces(text, ctx), t.key);
    }
  }

  /** Two matches agree on success, end position and matched text. */
  predicate SameOutcome(a: TerminalMatch, b: TerminalMatch) {
    a.Success() == b.Success() && a.data == b.data
    && (a.Success() ==> a.matchEnd.value.Index() == b.matchEnd.value.Index())
  }

  /** Every memoised match is what matching at that index gives. */
  ghost predicate MemoSound(d: SourceData) {
    forall i, t :: i in d.matches && t in d.matches[i] ==>
      t.IsTerminal() && SameOutcome(d.matches[i][t], MatchTerminal(d.text, At(i), t))
  }

  /** `SourceContext.Match`: the match memoised for the context's index, computed and
      stored on first request. */
  function Match(d: SourceData, ctx: Context, t: Term): (r: (SourceData, TerminalMatch))
    requires t.IsTerminal()
  {
    var i := ctx.Index();
    var known := if i in d.matches then d.matches[i] else map[];
    if t in known then (d, known[t])
    else
      var m := MatchTerminal(d.text, ctx, t);
      (d.(matches := d.matches[i := known[t := m]]), m)
  }

  lemma MatchTerminalByIndex(text: string, ctx: Context, t: Term)
    requires t.IsTerminal()
    ensures SameOutcome(MatchTerminal(text, ctx, t), MatchTerminal(text, At(ctx.Index()), t))
  {}

  /** Memoisation is transparent: the memoised match agrees with matching afresh, the
      memo stays sound, and a second request returns the stored match without change. */
  lemma MatchMemoised(d: SourceData, ctx: Context, t: Term)
    requires t.IsTerminal() && MemoSound(d)
    ensures var (d', m) := Match(d, ctx, t);
      && SameOutcome(m, MatchTerminal(d.text, ctx, t))
      && MemoSound(d') && d'.text == d.text && d'.incoming == d.incoming
      && Match(d', ctx, t) == (d', m)
  {
    MatchTerminalByIndex(d.text, ctx, t);
  }

  // ---------------------------------------------------------------------------------
  // Incoming edges per index

  /** `Incomming(index)`: the edges ending at `i`, created empty on first request. */
  function IncomingAt(d: SourceData, i: nat): (r: (SourceData, Incoming))
    ensures i in r.0.incoming && r.0.incoming[i] == r.1
    ensures i in d.incoming ==> r == (d, d.incoming[i])
    ensures i !in d.incoming ==> r.1 == NoEdges && r.0 == d.(incoming := d.incoming[i := NoEdges])
  {
    if i in d.incoming then (d, d.incoming[i]) else (d.(incoming := d.incoming[i := NoEdges]), NoEdges)
  }

  /** Created once, then reused: the second request returns the same set unchanged. */
  lemma IncomingOnce(d: SourceData, i: nat)
    ensures var (d1, inc1) := IncomingAt(d, i);
      IncomingAt(d1, i) == (d1, inc1)
  {}

  /** `WaitingLabels(index)`: the dictionary lookup throws for an index that never got
      an incoming set. */
  function WaitingLabels(d: SourceData, i: nat): (r: Result<seq<CompleteLabel>, SourceError>)
    ensures r.Ok? <==> i in d.incoming
    ensures r.Ok? ==> r.value == d.incoming[i].waiting
  {
    if i in d.incoming then Ok(d.incoming[i].waiting) else Throws(KeyNotFound)
  }

  /** `Connect(ActiveEdge)`: routed to the incoming set at the edge's end. */
  function ConnectActiveAt(g: Built, d: SourceData, e: ActiveEdge): (SourceData, bool)
    requires ValidLabel(g, e.activeLabel)
  {
    var (d1, inc) := IncomingAt(d, e.end.Index());
    var (inc', added) := ConnectActive(g, inc, e);
    (d1.(incoming := d1.incoming[e.end.Index() := inc']), added)
  }

  /** `Connect(CompleteEdge)`: routed to the incoming set at the edge's end. */
  function ConnectCompleteAt(d: SourceData, c: CompleteEdge): (SourceData, bool) {
    var (d1, inc) := IncomingAt(d, c.end.Index());
    var (inc', added) := ConnectComplete(inc, c);
    (d1.(incoming := d1.incoming[c.end.Index() := inc']), added)
  }

  /** Every incoming set keeps the bookkeeping invariant. */
  ghost predicate WellIndexed(g: Built, d: SourceData) {
    forall i :: i in d.incoming ==> Indexed(g, d.incoming[i])
  }

  /** Connecting touches only the incoming set at the edge's end, reports what that set
      reports, and keeps every set well indexed. */
  lemma ConnectActiveRouted(g: Built, d: SourceData, e: ActiveEdge)
    requires ValidLabel(g, e.activeLabel) && WellIndexed(g, d)
    ensures var (d', added) := ConnectActiveAt(g, d, e);
      var inc := if e.end.Index() in d.incoming then d.incoming[e.end.Index()] else NoEdges;
      && d'.text == d.text && d'.matches == d.matches && d'.contexts == d.contexts
      && d'.incoming.Keys == d.incoming.Keys + {e.end.Index()}
      && (forall i :: i in d.incoming && i != e.end.Index() ==> d'.incoming[i] == d.incoming[i])
      && (d'.incoming[e.end.Index()], added) == ConnectActive(g, inc, e)
      && (added <==> KeyOf(e) !in inc.active)
      && WellIndexed(g, d')
  {
    var i := e.end.Index();
    var inc := if i in d.incoming then d.incoming[i] else NoEdges;
    if i !in d.incoming { EmptyIndexed(g); }
    ConnectActiveMeaning(g, inc, e);
  }

  lemma ConnectCompleteRouted(g: Built, d: SourceData, c: CompleteEdge)
    requires WellIndexed(g, d)
    ensures var (d', added) := ConnectCompleteAt(d, c);
      var inc := if c.end.Index() in d.incoming then d.incoming[c.end.Index()] else NoEdges;
      && d'.text == d.text && d'.matches == d.matches && d'.contexts == d.contexts
      && d'.incoming.Keys == d.incoming.Keys + {c.end.Index()}
      && (forall i :: i in d.incoming && i != c.end.Index() ==> d'.incoming[i] == d.incoming[i])
      && (d'.incoming[c.end.Index()], added) == ConnectComplete(inc, c)
      && (added <==> CompleteKeyOf(c) !in inc.complete)
      && WellIndexed(g, d')
  {
    var i := c.end.Index();
    var inc := if i in d.incoming then d.incoming[i] else NoEdges;
    if i !in d.incoming { EmptyIndexed(g); }
    assert Indexed(g, ConnectComplete(inc, c).0);
  }

  // ---------------------------------------------------------------------------------
  // Interpretations

  /** The terminal of a matchable label matches at the context. */
  predicate LabelMatches(g: Built, text: string, ctx: Context, l: CompleteLabel) {
    Matchable(g, l) && MatchTerminal(text, ctx, CurrentTerm(g, l.at)).Success()
  }

  /** The loop of `GetInterpretations`: one terminal edge per waiting label whose
      terminal matches at the context, in the order of the labels. */
  function Interpret(g: Built, text: string, ctx: Context, waiting: seq<CompleteLabel>): (r: seq<CompleteEdge>)
    requires forall l :: l in waiting ==> Matchable(g, l)
    ensures |r| <= |waiting|
    ensures forall k :: 0 <= k < |r| ==>
      && r[k].complete in waiting && Matchable(g, r[k].complete)
      && MatchTerminal(text, ctx, CurrentTerm(g, r[k].complete.at)).Success()
      && r[k] == TerminalEdge(g, r[k].complete.at, ctx, MatchTerminal(text, ctx, CurrentTerm(g, r[k].complete.at)))
    decreases |waiting|
  {
    if |waiting| == 0 then []
    else
      var l := waiting[0];
      assert Matchable(g, l);
      var m := MatchTerminal(text, ctx, CurrentTerm(g, l.at));
      var rest := Interpret(g, text, ctx, waiting[1..]);
      if m.Success() then [TerminalEdge(g, l.at, ctx, m)] + rest else rest
  }

  /** No successful match is lost: every waiting label whose terminal matches at the
      context has its terminal edge among the interpretations. */
  lemma {:induction false} InterpretKeepsMatches(g: Built, text: string, ctx: Context, waiting: seq<CompleteLabel>, l: CompleteLabel)
    requires forall l :: l in waiting ==> Matchable(g, l)
    requires l in waiting && LabelMatches(g, text, ctx, l)
    ensures exists k :: 0 <= k < |Interpret(g, text, ctx, waiting)| && Interpret(g, text, ctx, waiting)[k].complete == l
    decreases |waiting|
  {
    var r := Interpret(g, text, ctx, waiting);
    var rest := Interpret(g, text, ctx, waiting[1..]);
    if l == waiting[0] {
      assert r[0].complete == l;
    } else {
      assert l in waiting[1..];
      InterpretKeepsMatches(g, text, ctx, waiting[1..], l);
      var k :| 0 <= k < |rest| && rest[k].complete == l;
      if LabelMatches(g, text, ctx, waiting[0]) {
        assert r[k + 1] == rest[k];
      } else {
        assert r == rest;
      }
    }
  }

  /** The waiting labels of a well indexed set are matchable. */
  lemma WaitingMatchable(g: Built, inc: Incoming)
    requires Indexed(g, inc)
    ensures forall l :: l in inc.waiting ==> Matchable(g, l)
  {}

  /** `GetInterpretations`: the successful matches of the terminals waited for at the
      context. Reading the waiting labels throws for an index without incoming set. */
  function GetInterpretations(g: Built, d: SourceData, ctx: Context): (r: Result<seq<CompleteEdge>, SourceError>)
    requires WellIndexed(g, d)
    ensures r.Ok? <==> ctx.Index() in d.incoming
    ensures r.Ok? ==> forall k :: 0 <= k < |r.value| ==>
      && r.value[k].start == ctx
      && r.value[k].matched.Some? && r.value[k].matched.value.Success()
      && r.value[k].complete in d.incoming[ctx.Index()].waiting
  {
    var waiting := WaitingLabels(d, ctx.Index());
    if waiting.Throws? then Throws(waiting.error)
    else
      WaitingMatchable(g, d.incoming[ctx.Index()]);
      Ok(Interpret(g, d.text, ctx, waiting.value))
  }
}
