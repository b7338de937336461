/** The HAML indentation outliner of SharpServer (SharpServer/Languages/HAML/IndentOutliner.cs),
    the older variant of the ServeRick outliner. Instead of a stack it records, for every
    indentation length it has seen, the level it stood for; a line keeps its leading
    whitespace as a prefix token, and the DEDENTs that close the input are placed just
    before the last token.

    The pipeline takes a `Variant`: `SourceOutliner` is the outliner as written, whose two
    defects are exhibited by `StaleLevelAsWritten` and `EndPositionAsWritten`;
    `CorrectedOutliner` repairs both, and the balance lemmas are proved for it. */
module SharpOutliner {
  import opened Results
  import opened Tokens
  import opened HamlOutliner

  datatype SharpError =
    | UnrecordedIndentation  // `computeDedentLevel` finds no level for the indentation
    | ArgumentOutOfRange       // `Substring` or `result[lastIndex]` out of range

  /** The fields that live as long as the outliner: the level recorded for each indentation
      length, the current level and the indentation of the last line. */
  datatype Levels = Levels(recorded: map<int, int>, current: int, last: int)

  const Initial: Levels := Levels(map[], 0, 0)

  /** Tokens emitted so far and the levels they leave. */
  datatype Emitted = Emitted(tokens: seq<Token>, levels: Levels)

  // ---------------------------------------------------------------------------------
  // Indentation tokens

  /** `addTokens`: `count` special tokens named `name` at `start`; none for a count below 1. */
  function AddTokens(start: int, name: string, count: int): (ts: seq<Token>)
    ensures |ts| == if count > 0 then count else 0
  {
    seq(if count > 0 then count else 0, _ => Special(name, start))
  }

  /** INDENT tokens count one level up, DEDENT tokens one level down. */
  lemma {:induction false} AddTokensBalance(start: int, name: string, count: int)
    requires name == Indent || name == Dedent
    ensures var n := if count > 0 then count else 0;
      Balance(AddTokens(start, name, count)) == if name == Indent then n else -n
    decreases if count > 0 then count else 0
  {
    assert Indent[0] != Dedent[0];
    if count > 0 {
      var ts := AddTokens(start, name, count);
      assert ts[..|ts| - 1] == AddTokens(start, name, count - 1);
      AddTokensBalance(start, name, count - 1);
    }
  }

  /** What a line sets down: its indentation becomes the last one, and the level it ends
      at is recorded for it. */
  function Record(recorded: map<int, int>, tokens: seq<Token>, level: int, indentation: int): Emitted {
    Emitted(tokens, Levels(recorded[indentation := level], level, indentation))
  }

  /** `addIndentation` as written. The first line only sets the baseline; a deeper line
      emits one INDENT; any other line emits current-minus-recorded DEDENTs, and an
      indentation never recorded throws. The levels recorded for deeper blocks stay in
      the map after those blocks are closed. */
  function AddIndentationAsWritten(lv: Levels, at: int, indentation: int): Result<Emitted, SharpError> {
    if lv.recorded == map[] then Ok(Record(lv.recorded, [], lv.current, indentation))
    else if lv.last < indentation then
      Ok(Record(lv.recorded, AddTokens(at, Indent, 1), lv.current + 1, indentation))
    else if indentation !in lv.recorded then Throws(UnrecordedIndentation)
    else
      var change := lv.current - lv.recorded[indentation];
      Ok(Record(lv.recorded, AddTokens(at, Dedent, change), lv.current - change, indentation))
  }

  /** The levels recorded no deeper than `level`: what is left open after a dedent. */
  function Forget(recorded: map<int, int>, level: int): (m: map<int, int>)
    ensures forall k :: k in m <==> k in recorded && recorded[k] <= level
    ensures forall k :: k in m ==> m[k] == recorded[k]
  {
    map k | k in recorded && recorded[k] <= level :: recorded[k]
  }

  /** `addIndentation` with the levels of closed blocks forgotten on a dedent, as the
      stack of the ServeRick outliner forgets them; otherwise as written. */
  function AddIndentation(lv: Levels, at: int, indentation: int): Result<Emitted, SharpError> {
    if lv.recorded == map[] then Ok(Record(lv.recorded, [], lv.current, indentation))
    else if lv.last < indentation then
      Ok(Record(lv.recorded, AddTokens(at, Indent, 1), lv.current + 1, indentation))
    else if indentation !in lv.recorded then Throws(UnrecordedIndentation)
    else
      var level := lv.recorded[indentation];
      Ok(Record(Forget(lv.recorded, level), AddTokens(at, Dedent, lv.current - level), level, indentation))
  }

  /** Which outliner runs: the source's, which keeps the levels of closed blocks and ends
      the last line of a token at the token's absolute end position, or the corrected
      one. */
  datatype Variant = SourceOutliner | CorrectedOutliner

  /** `addIndentation` of the chosen outliner. */
  function IndentationOf(v: Variant, lv: Levels, at: int, indentation: int): Result<Emitted, SharpError> {
    match v
    case SourceOutliner => AddIndentationAsWritten(lv, at, indentation)
    case CorrectedOutliner => AddIndentation(lv, at, indentation)
  }

  /** The recorded levels are between 0 and the current level. */
  ghost predicate Sane(lv: Levels) {
    && lv.current >= 0
    && forall k :: k in lv.recorded ==> 0 <= lv.recorded[k] <= lv.current
  }

  /** A line's indentation tokens: it throws exactly for a shallower-or-equal indentation
      never recorded; otherwise the levels stay sane, the net INDENT/DEDENT count is the
      change of level, and the line's indentation is recorded at the level reached. The
      first line emits nothing, a deeper one exactly one INDENT, any other one DEDENTs
      down to its recorded level. */
  lemma AddIndentationMeaning(lv: Levels, at: int, indentation: int)
    requires Sane(lv)
    ensures var r := AddIndentation(lv, at, indentation);
      && (r.Throws? <==> lv.recorded != map[] && indentation <= lv.last && indentation !in lv.recorded)
      && (r.Ok? ==> var e := r.value;
           && Sane(e.levels)
           && Balance(e.tokens) == e.levels.current - lv.current
           && e.levels.last == indentation
           && indentation in e.levels.recorded && e.levels.recorded[indentation] == e.levels.current
           && (lv.recorded == map[] ==> e.tokens == [] && e.levels.current == lv.current)
           && (lv.recorded != map[] && lv.last < indentation ==>
                e.tokens == [Special(Indent, at)] && e.levels.current == lv.current + 1)
           && (lv.recorded != map[] && indentation <= lv.last ==>
                e.levels.current == lv.recorded[indentation]
                && |e.tokens| == lv.current - lv.recorded[indentation]))
  {
    var r := AddIndentation(lv, at, indentation);
    if r.Ok? && lv.recorded != map[] {
      if lv.last < indentation {
        AddTokensBalance(at, Indent, 1);
        assert AddTokens(at, Indent, 1) == [Special(Indent, at)];
      } else {
        AddTokensBalance(at, Dedent, lv.current - lv.recorded[indentation]);
      }
    }
  }

  /** A line's indentation tokens as written: it throws in the same cases, emits the same
      tokens and reaches the same level as the corrected outliner; only the map differs,
      keeping every recorded level. A dedent to an indentation recorded deeper than the
      current level (a stale level) emits nothing, yet the level rises to it. */
  lemma AddIndentationAsWrittenMeaning(lv: Levels, at: int, indentation: int)
    ensures var r := AddIndentationAsWritten(lv, at, indentation);
      && (r.Throws? <==> lv.recorded != map[] && indentation <= lv.last && indentation !in lv.recorded)
      && (r.Ok? <==> AddIndentation(lv, at, indentation).Ok?)
      && (r.Ok? ==> var e := r.value; var c := AddIndentation(lv, at, indentation).value;
           && e.tokens == c.tokens && e.levels.current == c.levels.current
           && e.levels.last == indentation
           && e.levels.recorded == lv.recorded[indentation := e.levels.current]
           && (lv.recorded != map[] && indentation <= lv.last ==>
                && e.levels.current == lv.recorded[indentation]
                && Balance(e.tokens) ==
                     (if lv.recorded[indentation] <= lv.current then e.levels.current - lv.current else 0)))
  {
    var r := AddIndentationAsWritten(lv, at, indentation);
    if r.Ok? && lv.recorded != map[] && indentation <= lv.last {
      AddTokensBalance(at, Dedent, lv.current - lv.recorded[indentation]);
    }
  }

  // ---------------------------------------------------------------------------------
  // Stale levels: the as-written indentation against the corrected one

  /** The indentation tokens of a run of lines with the given indentations. */
  function IndentLinesAsWritten(lv: Levels, indentations: seq<int>): Result<Emitted, SharpError>
    decreases |indentations|
  {
    if |indentations| == 0 then Ok(Emitted([], lv))
    else
      match AddIndentationAsWritten(lv, 0, indentations[0])
      case Throws(e) => Throws(e)
      case Ok(first) => Prepend(first.tokens, IndentLinesAsWritten(first.levels, indentations[1..]))
  }

  function IndentLines(lv: Levels, indentations: seq<int>): Result<Emitted, SharpError>
    decreases |indentations|
  {
    if |indentations| == 0 then Ok(Emitted([], lv))
    else
      match AddIndentation(lv, 0, indentations[0])
      case Throws(e) => Throws(e)
      case Ok(first) => Prepend(first.tokens, IndentLines(first.levels, indentations[1..]))
  }

  /** Tokens ahead of what follows them. */
  function Prepend(tokens: seq<Token>, rest: Result<Emitted, SharpError>): Result<Emitted, SharpError> {
    match rest
    case Throws(e) => Throws(e)
    case Ok(o) => Ok(Emitted(tokens + o.tokens, o.levels))
  }

  lemma PrependBalance(tokens: seq<Token>, rest: Result<Emitted, SharpError>, from: int, via: int)
    requires Balance(tokens) == via - from
    requires rest.Ok? ==> Sane(rest.value.levels) && Balance(rest.value.tokens) == rest.value.levels.current - via
    ensures var r := Prepend(tokens, rest);
      r.Ok? ==> Sane(r.value.levels) && Balance(r.value.tokens) == r.value.levels.current - from
  {
    if rest.Ok? {
      BalanceConcat(tokens, rest.value.tokens);
    }
  }

  /** With the levels of closed blocks forgotten, every run of lines keeps the levels sane
      and its INDENT/DEDENT count equal to the change of level. */
  lemma {:induction false} IndentLinesBalance(lv: Levels, indentations: seq<int>)
    requires Sane(lv)
    ensures var r := IndentLines(lv, indentations);
      r.Ok? ==> Sane(r.value.levels) && Balance(r.value.tokens) == r.value.levels.current - lv.current
    decreases |indentations|
  {
    if |indentations| > 0 {
      AddIndentationMeaning(lv, 0, indentations[0]);
      var first := AddIndentation(lv, 0, indentations[0]);
      if first.Ok? {
        IndentLinesBalance(first.value.levels, indentations[1..]);
        PrependBalance(first.value.tokens, IndentLines(first.value.levels, indentations[1..]),
                       lv.current, first.value.levels.current);
      }
    }
  }

  /** Lines indented 0, 4, 8, 12, 0, 12, 8: the return to 0 closes three levels, 12 opens
      one, and 8, still recorded at level 2 from the closed block, gives a change of -1.
      As written no token is emitted for it but the level rises to 2, so the INDENTs and
      DEDENTs no longer follow the level (the final DEDENTs then outnumber the INDENTs). */
  lemma StaleLevelAsWritten()
    ensures var r := IndentLinesAsWritten(Initial, [0, 4, 8, 12, 0, 12, 8]);
      r.Ok? && Balance(r.value.tokens) == 1 && r.value.levels.current == 2
  {
    var m1 := map[0 := 0];
    var l1 := Levels(m1, 0, 0);
    var l2 := Levels(m1[4 := 1], 1, 4);
    var l3 := Levels(m1[4 := 1][8 := 2], 2, 8);
    var l4 := Levels(m1[4 := 1][8 := 2][12 := 3], 3, 12);
    var l5 := Levels(m1[4 := 1][8 := 2][12 := 3][0 := 0], 0, 0);
    var l6 := Levels(m1[4 := 1][8 := 2][12 := 3][0 := 0][12 := 1], 1, 12);
    var l7 := Levels(m1[4 := 1][8 := 2][12 := 3][0 := 0][12 := 1][8 := 2], 2, 8);
    var up := AddTokens(0, Indent, 1);
    var down := AddTokens(0, Dedent, 3);
    assert AddIndentationAsWritten(Initial, 0, 0) == Ok(Emitted([], l1));
    assert AddIndentationAsWritten(l1, 0, 4) == Ok(Emitted(up, l2));
    assert AddIndentationAsWritten(l2, 0, 8) == Ok(Emitted(up, l3));
    assert AddIndentationAsWritten(l3, 0, 12) == Ok(Emitted(up, l4));
    assert AddIndentationAsWritten(l4, 0, 0) == Ok(Emitted(down, l5));
    assert AddIndentationAsWritten(l5, 0, 12) == Ok(Emitted(up, l6));
    assert AddIndentationAsWritten(l6, 0, 8) == Ok(Emitted([], l7));
    StaleSteps(l1, l2, l3, l4, l5, l6, l7, up, down);
    AddTokensBalance(0, Indent, 1);
    AddTokensBalance(0, Dedent, 3);
    var t6 := up + ([] + []);
    var t5 := down + t6;
    var t4 := up + t5;
    var t3 := up + t4;
    var t2 := up + t3;
    assert t6 == up + [];
    assert t6 == up;
    BalanceConcat(down, t6);
    BalanceConcat(up, t5);
    BalanceConcat(up, t4);
    BalanceConcat(up, t3);
    assert [] + t2 == t2;
  }

  /** The fold of the seven steps of `StaleLevelAsWritten`. */
  lemma StaleSteps(l1: Levels, l2: Levels, l3: Levels, l4: Levels, l5: Levels, l6: Levels, l7: Levels,
                   up: seq<Token>, down: seq<Token>)
    requires AddIndentationAsWritten(Initial, 0, 0) == Ok(Emitted([], l1))
    requires AddIndentationAsWritten(l1, 0, 4) == Ok(Emitted(up, l2))
    requires AddIndentationAsWritten(l2, 0, 8) == Ok(Emitted(up, l3))
    requires AddIndentationAsWritten(l3, 0, 12) == Ok(Emitted(up, l4))
    requires AddIndentationAsWritten(l4, 0, 0) == Ok(Emitted(down, l5))
    requires AddIndentationAsWritten(l5, 0, 12) == Ok(Emitted(up, l6))
    requires AddIndentationAsWritten(l6, 0, 8) == Ok(Emitted([], l7))
    ensures IndentLinesAsWritten(Initial, [0, 4, 8, 12, 0, 12, 8])
      == Ok(Emitted([] + (up + (up + (up + (down + (up + ([] + [])))))), l7))
  {
    var s := [0, 4, 8, 12, 0, 12, 8];
    assert s[1..] == [4, 8, 12, 0, 12, 8];
    assert s[1..][1..] == [8, 12, 0, 12, 8];
    assert s[1..][1..][1..] == [12, 0, 12, 8];
    assert s[1..][1..][1..][1..] == [0, 12, 8];
    assert s[1..][1..][1..][1..][1..] == [12, 8];
    assert s[1..][1..][1..][1..][1..][1..] == [8];
    assert s[1..][1..][1..][1..][1..][1..][1..] == [];
  }

  /** Corrected, the same lines throw: indentation 8 matches no open level. */
  lemma StaleLevelCorrected()
    ensures IndentLines(Initial, [0, 4, 8, 12, 0, 12, 8]) == Throws(UnrecordedIndentation)
  {
    var m1 := map[0 := 0];
    var l1 := Levels(m1, 0, 0);
    var l2 := Levels(m1[4 := 1], 1, 4);
    var l3 := Levels(m1[4 := 1][8 := 2], 2, 8);
    var l4 := Levels(m1[4 := 1][8 := 2][12 := 3], 3, 12);
    var l5 := Levels(map[0 := 0], 0, 0);
    var l6 := Levels(map[0 := 0][12 := 1], 1, 12);
    assert AddIndentation(Initial, 0, 0).value.levels == l1;
    assert AddIndentation(l1, 0, 4).value.levels == l2;
    assert AddIndentation(l2, 0, 8).value.levels == l3;
    assert AddIndentation(l3, 0, 12).value.levels == l4;
    assert Forget(l4.recorded, 0) == map[0 := 0];
    assert AddIndentation(l4, 0, 0).value.levels == l5;
    assert AddIndentation(l5, 0, 12).value.levels == l6;
    assert AddIndentation(l6, 0, 8) == Throws(UnrecordedIndentation);
    CorrectedSteps(l1, l2, l3, l4, l5, l6);
  }

  lemma CorrectedSteps(l1: Levels, l2: Levels, l3: Levels, l4: Levels, l5: Levels, l6: Levels)
    requires AddIndentation(Initial, 0, 0).Ok? && AddIndentation(Initial, 0, 0).value.levels == l1
    requires AddIndentation(l1, 0, 4).Ok? && AddIndentation(l1, 0, 4).value.levels == l2
    requires AddIndentation(l2, 0, 8).Ok? && AddIndentation(l2, 0, 8).value.levels == l3
    requires AddIndentation(l3, 0, 12).Ok? && AddIndentation(l3, 0, 12).value.levels == l4
    requires AddIndentation(l4, 0, 0).Ok? && AddIndentation(l4, 0, 0).value.levels == l5
    requires AddIndentation(l5, 0, 12).Ok? && AddIndentation(l5, 0, 12).value.levels == l6
    requires AddIndentation(l6, 0, 8) == Throws(UnrecordedIndentation)
    ensures IndentLines(Initial, [0, 4, 8, 12, 0, 12, 8]) == Throws(UnrecordedIndentation)
  {
    var s := [0, 4, 8, 12, 0, 12, 8];
    assert s[1..] == [4, 8, 12, 0, 12, 8];
    assert s[1..][1..] == [8, 12, 0, 12, 8];
    assert s[1..][1..][1..] == [12, 0, 12, 8];
    assert s[1..][1..][1..][1..] == [0, 12, 8];
    assert s[1..][1..][1..][1..][1..] == [12, 8];
    assert s[1..][1..][1..][1..][1..][1..] == [8];
  }

  // ---------------------------------------------------------------------------------
  // The tokens of one line

  /** `String.Substring(start, length)`. */
  function Substring(s: string, start: int, length: int): (r: Result<string, SharpError>)
    ensures r.Ok? <==> 0 <= start && 0 <= length && start + length <= |s|
    ensures r.Ok? ==> |r.value| == length
  {
    if 0 <= start && 0 <= length && start + length <= |s| then Ok(s[start..start + length])
    else Throws(ArgumentOutOfRange)
  }

  /** The data of the text tokens, in order. */
  function Texts(ts: seq<Token>): string
    decreases |ts|
  {
    if |ts| == 0 then [] else (if ts[0].IsSpecial() then [] else ts[0].data.value) + Texts(ts[1..])
  }

  /** A text token holds the data found at its own position, counted from `offset`. */
  ghost predicate SliceAt(t: Token, data: string, offset: int) {
    !t.IsSpecial() ==>
      && 0 <= t.start - offset
      && t.start - offset + |t.data.value| <= |data|
      && data[t.start - offset..t.start - offset + |t.data.value|] == t.data.value
  }

  ghost predicate Faithful(ts: seq<Token>, data: string, offset: int) {
    forall k :: 0 <= k < |ts| ==> SliceAt(ts[k], data, offset)
  }

  lemma FaithfulConcat(a: seq<Token>, b: seq<Token>, data: string, offset: int)
    requires Faithful(a, data, offset) && Faithful(b, data, offset)
    ensures Faithful(a + b, data, offset)
  {
    forall k | 0 <= k < |a + b| ensures SliceAt((a + b)[k], data, offset) {
      if k >= |a| {
        assert (a + b)[k] == b[k - |a|];
      }
    }
  }

  /** The rest of `outlineText`: the whitespace before the text as a prefix token when
      there is any, the text up to `lineEnd`, and EOL at `lineEnd`; all positions are
      moved by the token's start `offset`. */
  function LineTail(data: string, offset: int, lineEnd: int, lineStart: int, textStart: int): Result<seq<Token>, SharpError> {
    var prefix :=
      if lineStart == textStart then Ok([])
      else match Substring(data, lineStart, textStart - lineStart)
           case Throws(e) => Throws(e)
           case Ok(p) => Ok([TextToken(p, lineStart + offset)]);
    match prefix
    case Throws(e) => Throws(e)
    case Ok(pre) =>
      match Substring(data, textStart, lineEnd - textStart)
      case Throws(e) => Throws(e)
      case Ok(text) => Ok(pre + ([TextToken(text, textStart + offset)] + [Special(EOL, lineEnd + offset)]))
  }

  /** Within the data, a line gives its prefix (if any), its text and EOL; together the
      prefix and the text are the data from the line start to the line end, each at its
      own position, and they carry no INDENT or DEDENT. */
  lemma LineTailMeaning(data: string, offset: int, lineEnd: int, lineStart: int, textStart: int)
    requires 0 <= lineStart <= textStart <= lineEnd <= |data|
    ensures var r := LineTail(data, offset, lineEnd, lineStart, textStart);
      && r.Ok?
      && |r.value| == (if lineStart == textStart then 2 else 3)
      && r.value[|r.value| - 1] == Special(EOL, lineEnd + offset)
      && r.value[|r.value| - 2] == TextToken(data[textStart..lineEnd], textStart + offset)
      && Texts(r.value) == data[lineStart..lineEnd]
      && Faithful(r.value, data, offset)
      && Balance(r.value) == 0
  {
    var text := TextToken(data[textStart..lineEnd], textStart + offset);
    var eol := Special(EOL, lineEnd + offset);
    var tail := [text] + [eol];
    TailBalance(text, eol);
    assert Texts([eol]) == [] by { assert [eol][1..] == []; }
    assert Texts(tail) == data[textStart..lineEnd] by { assert tail[1..] == [eol]; }
    if lineStart != textStart {
      var pre := TextToken(data[lineStart..textStart], lineStart + offset);
      assert Balance([pre]) == 0 by { assert |pre.name| == 4 && [pre][..0] == []; }
      BalanceConcat([pre], tail);
      assert ([pre] + tail)[1..] == tail;
      assert data[lineStart..textStart] + data[textStart..lineEnd] == data[lineStart..lineEnd];
    } else {
      assert [] + tail == tail;
    }
  }

  lemma TailBalance(text: Token, eol: Token)
    requires text.name == "Text" && eol.name == EOL
    ensures Balance([text] + [eol]) == 0
  {
    assert |Indent| == 6 && |Dedent| == 6 && |EOL| == 3 && |text.name| == 4;
    var ts := [text] + [eol];
    assert ts[..1] == [text] && ts[..1][..0] == [];
    assert Balance(ts[..1]) == 0;
    assert ts[|ts| - 1] == eol;
  }

  /** `outlineText`: the indentation tokens, then the line's prefix, text and EOL. */
  function OutlineLine(v: Variant, data: string, offset: int, lineEnd: int, indentation: int, lineStart: int, textStart: int, lv: Levels): Result<Emitted, SharpError> {
    EmitLine(IndentationOf(v, lv, lineStart + offset, indentation), LineTail(data, offset, lineEnd, lineStart, textStart))
  }

  function EmitLine(indented: Result<Emitted, SharpError>, tail: Result<seq<Token>, SharpError>): Result<Emitted, SharpError> {
    match indented
    case Throws(e) => Throws(e)
    case Ok(ind) =>
      match tail
      case Throws(e) => Throws(e)
      case Ok(t) => Ok(Emitted(ind.tokens + t, ind.levels))
  }

  lemma EmitLineMeaning(indented: Result<Emitted, SharpError>, tail: Result<seq<Token>, SharpError>, lv: Levels, data: string, offset: int)
    requires indented.Ok? ==> Sane(indented.value.levels) && Balance(indented.value.tokens) == indented.value.levels.current - lv.current
    requires indented.Ok? ==> Faithful(indented.value.tokens, data, offset)
    requires tail.Ok? && Balance(tail.value) == 0 && Faithful(tail.value, data, offset) && |tail.value| >= 2
    ensures var r := EmitLine(indented, tail);
      && (r.Throws? ==> indented.Throws? && r.error == indented.error)
      && (r.Ok? ==> && Sane(r.value.levels) && Balance(r.value.tokens) == r.value.levels.current - lv.current
                    && Faithful(r.value.tokens, data, offset) && |r.value.tokens| >= 2
                    && r.value.tokens[|r.value.tokens| - 1] == tail.value[|tail.value| - 1])
  {
    if indented.Ok? {
      BalanceConcat(indented.value.tokens, tail.value);
      FaithfulConcat(indented.value.tokens, tail.value, data, offset);
    }
  }

  /** Indentation tokens are special tokens. */
  lemma AddIndentationFaithful(lv: Levels, at: int, indentation: int, data: string, offset: int)
    ensures var r := AddIndentation(lv, at, indentation);
      r.Ok? ==> Faithful(r.value.tokens, data, offset)
  {
  }

  /** In the corrected outliner, a line inside the data throws only for an unrecorded
      indentation; otherwise it keeps
      the levels sane, its INDENT/DEDENT count is the change of level, its text tokens hold
      the data at their positions, and it ends with EOL at the line end. */
  lemma OutlineLineMeaning(data: string, offset: int, lineEnd: int, indentation: int, lineStart: int, textStart: int, lv: Levels)
    requires 0 <= lineStart <= textStart <= lineEnd <= |data| && Sane(lv)
    ensures var r := OutlineLine(CorrectedOutliner, data, offset, lineEnd, indentation, lineStart, textStart, lv);
      && (r.Throws? ==> r.error == UnrecordedIndentation)
      && (r.Ok? ==> && Sane(r.value.levels) && Balance(r.value.tokens) == r.value.levels.current - lv.current
                    && Faithful(r.value.tokens, data, offset) && |r.value.tokens| >= 2
                    && r.value.tokens[|r.value.tokens| - 1] == Special(EOL, lineEnd + offset))
  {
    AddIndentationMeaning(lv, lineStart + offset, indentation);
    AddIndentationFaithful(lv, lineStart + offset, indentation, data, offset);
    LineTailMeaning(data, offset, lineEnd, lineStart, textStart);
    EmitLineMeaning(AddIndentation(lv, lineStart + offset, indentation), LineTail(data, offset, lineEnd, lineStart, textStart), lv, data, offset);
  }

  // ---------------------------------------------------------------------------------
  // The character loop of `outline`

  /** The per-token fields of `outline`: whether the text of the current line has
      started, where the line and its text start, and the indentation counted so far. */
  datatype Cursor = Cursor(started: bool, lineStart: int, textStart: int, indentation: int)

  const Start: Cursor := Cursor(false, 0, 0, 0)

  /** One character of the loop. A newline ends the line: after a line with text the
      next line starts past it, after a blank line the line start stays, so the blank
      lines become part of the next prefix; either way the indentation restarts. Before
      the text, a space counts 1 and a tabulator `tab`; the first other character starts
      the text. */
  function Step(c: Cursor, ch: char, i: int, tab: int): Cursor {
    if ch == '\n' then Cursor(false, if c.started then i + 1 else c.lineStart, c.textStart, 0)
    else if c.started then c
    else if ch == ' ' then c.(indentation := c.indentation + 1)
    else if ch == '\t' then c.(indentation := c.indentation + tab)
    else c.(started := true, textStart := i)
  }

  /** The loop's positions: the line starts at or before `i`, and a started text at or
      after the line start and before `i`. */
  ghost predicate CursorWithin(c: Cursor, i: int) {
    0 <= c.lineStart <= i && (c.started ==> c.lineStart <= c.textStart < i)
  }

  lemma StepWithin(c: Cursor, ch: char, i: int, tab: int)
    requires CursorWithin(c, i)
    ensures CursorWithin(Step(c, ch, i, tab), i + 1)
    ensures !Step(c, ch, i, tab).started ==> Step(c, ch, i, tab).lineStart == (if ch == '\n' && c.started then i + 1 else c.lineStart)
  {
  }

  /** What the loop has emitted and where it stands. */
  datatype Scanned = Scanned(tokens: seq<Token>, cursor: Cursor, levels: Levels)

  /** The loop from index `i`: a newline after text outlines that line with the line end
      at the newline. */
  function Scan(v: Variant, data: string, offset: int, tab: int, i: nat, c: Cursor, lv: Levels): Result<Scanned, SharpError>
    requires i <= |data|
    decreases |data| - i
  {
    if i == |data| then Ok(Scanned([], c, lv))
    else if data[i] == '\n' && c.started then
      match OutlineLine(v, data, offset, i, c.indentation, c.lineStart, c.textStart, lv)
      case Throws(e) => Throws(e)
      case Ok(line) => PrependScanned(line.tokens, Scan(v, data, offset, tab, i + 1, Step(c, data[i], i, tab), line.levels))
    else Scan(v, data, offset, tab, i + 1, Step(c, data[i], i, tab), lv)
  }

  function PrependScanned(tokens: seq<Token>, rest: Result<Scanned, SharpError>): Result<Scanned, SharpError> {
    match rest
    case Throws(e) => Throws(e)
    case Ok(o) => Ok(Scanned(tokens + o.tokens, o.cursor, o.levels))
  }

  /** What the loop keeps: sane levels, the INDENT/DEDENT count following the level, text
      tokens holding the data at their positions, and the cursor within the data. */
  ghost predicate ScanGood(r: Result<Scanned, SharpError>, from: int, data: string, offset: int) {
    && (r.Throws? ==> r.error == UnrecordedIndentation)
    && (r.Ok? ==> && Sane(r.value.levels) && Balance(r.value.tokens) == r.value.levels.current - from
                  && Faithful(r.value.tokens, data, offset) && CursorWithin(r.value.cursor, |data|))
  }

  lemma PrependScannedGood(line: Emitted, rest: Result<Scanned, SharpError>, from: int, data: string, offset: int)
    requires Balance(line.tokens) == line.levels.current - from && Faithful(line.tokens, data, offset)
    requires ScanGood(rest, line.levels.current, data, offset)
    ensures ScanGood(PrependScanned(line.tokens, rest), from, data, offset)
  {
    if rest.Ok? {
      BalanceConcat(line.tokens, rest.value.tokens);
      FaithfulConcat(line.tokens, rest.value.tokens, data, offset);
    }
  }

  /** The corrected character loop keeps what `ScanGood` asks, from any sane levels. */
  lemma {:induction false} ScanMeaning(data: string, offset: int, tab: int, i: nat, c: Cursor, lv: Levels)
    requires i <= |data| && CursorWithin(c, i) && Sane(lv)
    ensures ScanGood(Scan(CorrectedOutliner, data, offset, tab, i, c, lv), lv.current, data, offset)
    decreases |data| - i
  {
    if i < |data| {
      StepWithin(c, data[i], i, tab);
      var next := Step(c, data[i], i, tab);
      if data[i] == '\n' && c.started {
        OutlineLineMeaning(data, offset, i, c.indentation, c.lineStart, c.textStart, lv);
        var line := OutlineLine(CorrectedOutliner, data, offset, i, c.indentation, c.lineStart, c.textStart, lv);
        if line.Ok? {
          ScanMeaning(data, offset, tab, i + 1, next, line.value.levels);
          PrependScannedGood(line.value, Scan(CorrectedOutliner, data, offset, tab, i + 1, next, line.value.levels), lv.current, data, offset);
        }
      } else {
        ScanMeaning(data, offset, tab, i + 1, next, lv);
      }
    }
  }

  // ---------------------------------------------------------------------------------
  // One text token

  /** `outline` after the loop: the last line, ending at `lineEnd`, with its text starting
      at `lineEnd` when none started. */
  function OutlineEndingAt(v: Variant, data: string, offset: int, tab: int, lineEnd: int, lv: Levels): Result<Emitted, SharpError> {
    match Scan(v, data, offset, tab, 0, Start, lv)
    case Throws(e) => Throws(e)
    case Ok(s) => LastLine(v, data, offset, lineEnd, s)
  }

  function LastLine(v: Variant, data: string, offset: int, lineEnd: int, s: Scanned): Result<Emitted, SharpError> {
    var c := s.cursor;
    Prepend(s.tokens, OutlineLine(v, data, offset, lineEnd, c.indentation, c.lineStart, if c.started then c.textStart else lineEnd, s.levels))
  }

  /** `outline` of one text token. As written, the last line ends at the token's
      `EndPosition`, an absolute position, where every other line end is relative to the
      token's data; corrected, it ends at the end of the data. */
  function OutlineToken(v: Variant, token: Token, tab: int, lv: Levels): Result<Emitted, SharpError>
    requires !token.IsSpecial()
  {
    var lineEnd := if v == SourceOutliner then token.end else |token.data.value|;
    OutlineEndingAt(v, token.data.value, token.start, tab, lineEnd, lv)
  }

  /** In the corrected outliner, a text throws only for an unrecorded indentation;
      otherwise it keeps the levels sane, its INDENT/DEDENT count is the change of level, its text tokens hold
      its data at their positions, and it ends with EOL at its end. */
  lemma OutlineDataMeaning(data: string, offset: int, tab: int, lv: Levels)
    requires Sane(lv)
    ensures var r := OutlineEndingAt(CorrectedOutliner, data, offset, tab, |data|, lv);
      && (r.Throws? ==> r.error == UnrecordedIndentation)
      && (r.Ok? ==> && Sane(r.value.levels) && Balance(r.value.tokens) == r.value.levels.current - lv.current
                    && Faithful(r.value.tokens, data, offset) && |r.value.tokens| >= 2
                    && r.value.tokens[|r.value.tokens| - 1] == Special(EOL, |data| + offset))
  {
    ScanMeaning(data, offset, tab, 0, Start, lv);
    var s := Scan(CorrectedOutliner, data, offset, tab, 0, Start, lv);
    if s.Ok? {
      LastLineMeaning(data, offset, s.value, lv.current);
    }
  }

  lemma LastLineMeaning(data: string, offset: int, s: Scanned, from: int)
    requires ScanGood(Ok(s), from, data, offset)
    ensures var r := LastLine(CorrectedOutliner, data, offset, |data|, s);
      && (r.Throws? ==> r.error == UnrecordedIndentation)
      && (r.Ok? ==> && Sane(r.value.levels) && Balance(r.value.tokens) == r.value.levels.current - from
                    && Faithful(r.value.tokens, data, offset) && |r.value.tokens| >= 2
                    && r.value.tokens[|r.value.tokens| - 1] == Special(EOL, |data| + offset))
  {
    var c := s.cursor;
    var textStart := if c.started then c.textStart else |data|;
    OutlineLineMeaning(data, offset, |data|, c.indentation, c.lineStart, textStart, s.levels);
    LastLineGood(s, OutlineLine(CorrectedOutliner, data, offset, |data|, c.indentation, c.lineStart, textStart, s.levels), from, data, offset);
  }

  lemma LastLineGood(s: Scanned, last: Result<Emitted, SharpError>, from: int, data: string, offset: int)
    requires Sane(s.levels) && Balance(s.tokens) == s.levels.current - from && Faithful(s.tokens, data, offset)
    requires last.Throws? ==> last.error == UnrecordedIndentation
    requires last.Ok? ==> && Sane(last.value.levels) && Balance(last.value.tokens) == last.value.levels.current - s.levels.current
                          && Faithful(last.value.tokens, data, offset) && |last.value.tokens| >= 2
    ensures var r := Prepend(s.tokens, last);
      && (r.Throws? ==> r.error == UnrecordedIndentation)
      && (r.Ok? ==> && Sane(r.value.levels) && Balance(r.value.tokens) == r.value.levels.current - from
                    && Faithful(r.value.tokens, data, offset) && |r.value.tokens| >= 2
                    && r.value.tokens[|r.value.tokens| - 1] == last.value.tokens[|last.value.tokens| - 1])
  {
    if last.Ok? {
      BalanceConcat(s.tokens, last.value.tokens);
      FaithfulConcat(s.tokens, last.value.tokens, data, offset);
    }
  }

  lemma OutlineTokenMeaning(token: Token, tab: int, lv: Levels)
    requires !token.IsSpecial() && Sane(lv)
    ensures var r := OutlineToken(CorrectedOutliner, token, tab, lv);
      && (r.Throws? ==> r.error == UnrecordedIndentation)
      && (r.Ok? ==> && Sane(r.value.levels) && Balance(r.value.tokens) == r.value.levels.current - lv.current
                    && Faithful(r.value.tokens, token.data.value, token.start) && |r.value.tokens| >= 2
                    && r.value.tokens[|r.value.tokens| - 1] == Special(EOL, token.start + token.Length()))
  {
    OutlineDataMeaning(token.data.value, token.start, tab, lv);
  }

  /** A one-letter text token at a position past 0: as written its last line reads past
      the data and `Substring` throws, and so does the whole outline; ending the line at
      the data's end, it outlines. */
  lemma EndPositionAsWritten(c: char, start: int, tab: int)
    requires c != ' ' && c != '\t' && c != '\n' && start > 0
    ensures OutlineToken(SourceOutliner, TextToken([c], start), tab, Initial) == Throws(ArgumentOutOfRange)
    ensures Outline(SourceOutliner, [TextToken([c], start)], tab) == Throws(ArgumentOutOfRange)
    ensures OutlineToken(CorrectedOutliner, TextToken([c], start), tab, Initial).Ok?
  {
    var data := [c];
    var s1 := Cursor(true, 0, 0, 0);
    assert Step(Start, c, 0, tab) == s1;
    assert Scan(SourceOutliner, data, start, tab, 1, s1, Initial) == Ok(Scanned([], s1, Initial));
    assert Scan(SourceOutliner, data, start, tab, 0, Start, Initial) == Ok(Scanned([], s1, Initial));
    assert Substring(data, 0, start + 1) == Throws(ArgumentOutOfRange);
    assert LineTail(data, start, start + 1, 0, 0) == Throws(ArgumentOutOfRange);
    assert OutlineToken(SourceOutliner, TextToken([c], start), tab, Initial) == Throws(ArgumentOutOfRange);
    assert [TextToken([c], start)][1..] == [];
    assert Scan(CorrectedOutliner, data, start, tab, 1, s1, Initial) == Ok(Scanned([], s1, Initial));
    assert Scan(CorrectedOutliner, data, start, tab, 0, Start, Initial) == Ok(Scanned([], s1, Initial));
    LineTailMeaning(data, start, 1, 0, 0);
  }

  /** For a token at position 0 whose end is its length, as in every token `Token.Text`
      makes, the source's last line ends at the end of the data, as in the corrected
      outliner. */
  lemma AsWrittenAtZero(token: Token, tab: int, lv: Levels)
    requires !token.IsSpecial() && token.start == 0 && token.end == token.start + token.Length()
    ensures OutlineToken(SourceOutliner, token, tab, lv)
         == OutlineEndingAt(SourceOutliner, token.data.value, 0, tab, |token.data.value|, lv)
  {
  }

  // ---------------------------------------------------------------------------------
  // The whole input

  /** The loop of `Outline`: special tokens are kept, text tokens outlined; the levels
      carry over from one text token to the next. */
  function OutlineFrom(v: Variant, tokens: seq<Token>, tab: int, lv: Levels): Result<Emitted, SharpError>
    decreases |tokens|
  {
    if |tokens| == 0 then Ok(Emitted([], lv))
    else
      var head := if tokens[0].IsSpecial() then Ok(Emitted([tokens[0]], lv)) else OutlineToken(v, tokens[0], tab, lv);
      match head
      case Throws(e) => Throws(e)
      case Ok(first) => Prepend(first.tokens, OutlineFrom(v, tokens[1..], tab, first.levels))
  }

  /** `Outline`: the open levels are closed by DEDENTs placed just before the last token,
      at its position; an empty result has no last token and throws. `SourceOutliner`
      gives the outliner as written. */
  function Outline(v: Variant, tokens: seq<Token>, tab: int): Result<seq<Token>, SharpError> {
    match OutlineFrom(v, tokens, tab, Initial)
    case Throws(e) => Throws(e)
    case Ok(o) => CloseBeforeLast(o)
  }

  function CloseBeforeLast(o: Emitted): Result<seq<Token>, SharpError> {
    if |o.tokens| == 0 then Throws(ArgumentOutOfRange)
    else
      var last := o.tokens[|o.tokens| - 1];
      Ok(o.tokens[..|o.tokens| - 1] + AddTokens(last.start, Dedent, o.levels.current) + [last])
  }

  /** No input token is an INDENT or a DEDENT. */
  ghost predicate NoLevelTokens(tokens: seq<Token>) {
    forall k :: 0 <= k < |tokens| ==> tokens[k].name != Indent && tokens[k].name != Dedent
  }

  /** In the corrected outliner, the input throws only for an unrecorded indentation;
      otherwise the levels stay sane,
      the INDENT/DEDENT count follows the level, and a non-empty input gives a non-empty
      output. */
  lemma {:induction false} OutlineFromMeaning(tokens: seq<Token>, tab: int, lv: Levels)
    requires Sane(lv) && NoLevelTokens(tokens)
    ensures var r := OutlineFrom(CorrectedOutliner, tokens, tab, lv);
      && (r.Throws? ==> r.error == UnrecordedIndentation)
      && (r.Ok? ==> && Sane(r.value.levels) && Balance(r.value.tokens) == r.value.levels.current - lv.current
                    && (|tokens| > 0 ==> |r.value.tokens| > 0))
    decreases |tokens|
  {
    if |tokens| > 0 {
      var t := tokens[0];
      var head := if t.IsSpecial() then Ok(Emitted([t], lv)) else OutlineToken(CorrectedOutliner, t, tab, lv);
      if t.IsSpecial() {
        assert Balance([t]) == 0 by { assert [t][..0] == []; }
      } else {
        OutlineTokenMeaning(t, tab, lv);
      }
      if head.Ok? {
        assert NoLevelTokens(tokens[1..]);
        OutlineFromMeaning(tokens[1..], tab, head.value.levels);
        var rest := OutlineFrom(CorrectedOutliner, tokens[1..], tab, head.value.levels);
        PrependBalance(head.value.tokens, rest, lv.current, head.value.levels.current);
      }
    }
  }

  /** The closing DEDENTs: the output is the outlined tokens with as many DEDENTs as
      levels are open inserted before the last one, at its position. */
  lemma CloseBeforeLastMeaning(o: Emitted)
    requires |o.tokens| > 0 && Sane(o.levels)
    ensures var r := CloseBeforeLast(o);
      var n := |o.tokens|;
      && r.Ok? && |r.value| == n + o.levels.current
      && r.value[..n - 1] == o.tokens[..n - 1]
      && r.value[|r.value| - 1] == o.tokens[n - 1]
      && (forall k :: n - 1 <= k < |r.value| - 1 ==> r.value[k] == Special(Dedent, o.tokens[n - 1].start))
      && Balance(r.value) == Balance(o.tokens) - o.levels.current
  {
    var n := |o.tokens|;
    var last := o.tokens[n - 1];
    var init := o.tokens[..n - 1];
    var closing := AddTokens(last.start, Dedent, o.levels.current);
    AddTokensBalance(last.start, Dedent, o.levels.current);
    BalanceConcat(init, closing);
    BalanceConcat(init + closing, [last]);
    BalanceConcat(init, [last]);
    assert init + [last] == o.tokens;
  }

  /** With no INDENT or DEDENT in the input, the corrected outliner throws only for an unrecorded
      indentation or for an empty input, and its INDENTs and DEDENTs balance. */
  lemma OutlineBalanced(tokens: seq<Token>, tab: int)
    requires NoLevelTokens(tokens)
    ensures var r := Outline(CorrectedOutliner, tokens, tab);
      && (|tokens| == 0 <==> r == Throws(ArgumentOutOfRange))
      && (r.Throws? && |tokens| > 0 ==> r.error == UnrecordedIndentation)
      && (r.Ok? ==> Balance(r.value) == 0)
  {
    OutlineFromMeaning(tokens, tab, Initial);
    var o := OutlineFrom(CorrectedOutliner, tokens, tab, Initial);
    if o.Ok? && |tokens| > 0 {
      CloseBeforeLastMeaning(o.value);
    }
  }

  /** Special tokens come through unchanged. */
  lemma SpecialPassesThrough(v: Variant, x: Token, rest: seq<Token>, tab: int, lv: Levels)
    requires x.IsSpecial()
    ensures OutlineFrom(v, [x] + rest, tab, lv) == Prepend([x], OutlineFrom(v, rest, tab, lv))
  {
    assert ([x] + rest)[1..] == rest;
  }
}
