/** The HAML indentation outliner of ServeRick (ServeRick/Languages/HAML/IndentOutliner.cs).
    It turns the leading whitespace of each line of a text token into INDENT and DEDENT
    tokens, keeping the indentation lengths of the open blocks on a stack, and frames
    every non-blank line with BOL and EOL. */
module HamlOutliner {
  import opened Results
  import opened Text
  import opened Tokens

  const Indent: string := "INDENT"
  const Dedent: string := "DEDENT"
  const EOL: string := "EOL"
  const BOL: string := "BOL"

  /** The characters `TrimStart` removes from a line. */
  const Blanks: set<char> := {' ', '\t'}

  datatype OutlineError = InconsistentIndentation

  // ---------------------------------------------------------------------------------
  // Indentation lengths and the level stack

  /** The level stack, bottom first: each length is deeper than the one below it, the
      bottom one deeper than 0 (`ValidLevelsOrdered` spells this out). */
  ghost predicate ValidLevels(levels: seq<int>)
    decreases |levels|
  {
    |levels| == 0 ||
    (ValidLevels(levels[..|levels| - 1]) && levels[|levels| - 1] > ActualLength(levels[..|levels| - 1]))
  }

  /** A valid stack holds positive, strictly increasing lengths, and only such stacks
      are valid. */
  lemma {:induction false} ValidLevelsOrdered(levels: seq<int>)
    ensures ValidLevels(levels) <==>
      && (forall i :: 0 <= i < |levels| ==> levels[i] > 0)
      && (forall i, j :: 0 <= i < j < |levels| ==> levels[i] < levels[j])
    decreases |levels|
  {
    if |levels| > 0 {
      var init := levels[..|levels| - 1];
      var last := levels[|levels| - 1];
      ValidLevelsOrdered(init);
      assert forall i :: 0 <= i < |init| ==> init[i] == levels[i];
      if ValidLevels(levels) {
        assert forall i :: 0 <= i < |init| ==> init[i] <= ActualLength(init) < last;
      }
    }
  }

  lemma ValidPush(levels: seq<int>, n: int)
    requires ValidLevels(levels) && n > ActualLength(levels)
    ensures ValidLevels(levels + [n])
  {
    assert (levels + [n])[..|levels|] == levels;
  }

  lemma {:induction false} ValidPrefix(levels: seq<int>, k: nat)
    requires ValidLevels(levels) && k <= |levels|
    ensures ValidLevels(levels[..k])
    decreases |levels|
  {
    if k < |levels| {
      ValidPrefix(levels[..|levels| - 1], k);
      assert levels[..|levels| - 1][..k] == levels[..k];
    } else {
      assert levels[..k] == levels;
    }
  }

  /** `getActualIndentationLength`: the innermost open length, 0 with no open block. */
  function ActualLength(levels: seq<int>): int {
    if |levels| > 0 then levels[|levels| - 1] else 0
  }

  /** The loop of `getIndentationLength` over the rest of the line, with `acc` counted
      so far: it stops at the first character that is neither a space nor a tabulator,
      and a line of blanks keeps the current length. */
  function Measure(rest: string, tab: int, levels: seq<int>, acc: int): int
    decreases |rest|
  {
    if |rest| == 0 then ActualLength(levels)
    else if rest[0] == ' ' then Measure(rest[1..], tab, levels, acc + 1)
    else if rest[0] == '\t' then Measure(rest[1..], tab, levels, acc + tab)
    else acc
  }

  /** `getIndentationLength`. */
  function IndentationLength(line: string, tab: int, levels: seq<int>): int {
    Measure(line, tab, levels, 0)
  }

  /** What leading whitespace weighs: one per space, `tab` per tabulator. */
  function Weight(ws: string, tab: int): int
    decreases |ws|
  {
    if |ws| == 0 then 0 else (if ws[0] == '\t' then tab else 1) + Weight(ws[1..], tab)
  }

  lemma TrimStartBlank(s: string)
    requires |s| > 0 && s[0] in Blanks
    ensures TrimStart(s, Blanks) == TrimStart(s[1..], Blanks)
  {
  }

  lemma TrimStartText(s: string)
    requires |s| > 0 && s[0] !in Blanks
    ensures TrimStart(s, Blanks) == s
  {
  }

  lemma MeasureBlank(s: string, tab: int, levels: seq<int>, acc: int)
    requires |s| > 0 && s[0] in Blanks
    ensures Measure(s, tab, levels, acc) == Measure(s[1..], tab, levels, acc + if s[0] == ' ' then 1 else tab)
  {
  }

  lemma WeightCons(s: string, k: nat, tab: int)
    requires 0 < k <= |s|
    ensures Weight(s[..k], tab) == (if s[0] == '\t' then tab else 1) + Weight(s[1..][..k - 1], tab)
  {
    assert s[..k][1..] == s[1..][..k - 1];
  }

  /** What `Measure` gives: the current length for a line of blanks, otherwise `acc`
      plus the weight of the leading blanks. */
  ghost function Measured(s: string, tab: int, levels: seq<int>, acc: int): int {
    var rest := TrimStart(s, Blanks);
    if |rest| == 0 then ActualLength(levels) else acc + Weight(s[..|s| - |rest|], tab)
  }

  lemma {:induction false} MeasureWeighs(s: string, tab: int, levels: seq<int>, acc: int)
    ensures Measure(s, tab, levels, acc) == Measured(s, tab, levels, acc)
    decreases |s|
  {
    if |s| == 0 {
    } else if s[0] !in Blanks {
      TrimStartText(s);
      assert s[..0] == [];
    } else {
      var w := if s[0] == ' ' then 1 else tab;
      MeasureWeighs(s[1..], tab, levels, acc + w);
      MeasureBlank(s, tab, levels, acc);
      MeasuredBlank(s, tab, levels, acc);
    }
  }

  lemma MeasuredBlank(s: string, tab: int, levels: seq<int>, acc: int)
    requires |s| > 0 && s[0] in Blanks
    ensures Measured(s, tab, levels, acc) == Measured(s[1..], tab, levels, acc + if s[0] == ' ' then 1 else tab)
  {
    TrimStartBlank(s);
    var rest := TrimStart(s, Blanks);
    if |rest| > 0 {
      WeightCons(s, |s| - |rest|, tab);
    }
  }

  /** A line's indentation is the weight of its leading blanks; a line of blanks only
      keeps the current length. */
  lemma IndentationLengthWeighs(line: string, tab: int, levels: seq<int>)
    ensures var text := TrimStart(line, Blanks);
      IndentationLength(line, tab, levels)
        == if |text| == 0 then ActualLength(levels) else Weight(line[..|line| - |text|], tab)
  {
    MeasureWeighs(line, tab, levels, 0);
    assert Measure(line, tab, levels, 0) == Measured(line, tab, levels, 0);
  }

  /** What the pop loop of `getIndentationLevelDelta` leaves. */
  datatype Popped = Popped(levels: seq<int>, current: int, decreaseLevel: int)

  /** The loop of `getIndentationLevelDelta` that pops the lengths deeper than the new
      one; an emptied stack stands for length 0. */
  function PopDeeper(levels: seq<int>, current: int, newLength: int, decreaseLevel: int): Popped
    decreases |levels|
  {
    if current <= newLength then Popped(levels, current, decreaseLevel)
    else if |levels| == 0 then Popped(levels, 0, decreaseLevel + 1)
    else PopDeeper(levels[..|levels| - 1], levels[|levels| - 1], newLength, decreaseLevel + 1)
  }

  /** The result of a level change: the new stack and the signed number of levels. */
  datatype Change = Change(levels: seq<int>, delta: int)

  /** `getIndentationLevelDelta`: a deeper line pushes one level, an equal one changes
      nothing, a shallower one pops back to the level it matches and throws when it
      matches none. */
  function LevelDelta(levels: seq<int>, newLength: int): Result<Change, OutlineError> {
    var current := ActualLength(levels);
    if current == newLength then Ok(Change(levels, 0))
    else if newLength > current then Ok(Change(levels + [newLength], 1))
    else
      var p := PopDeeper(levels, current, newLength, -1);
      if p.current != newLength then Throws(InconsistentIndentation)
      else Ok(Change(if newLength > 0 then p.levels + [p.current] else p.levels, -p.decreaseLevel))
  }

  /** How many levels of a valid stack are not deeper than `n`: they form a prefix. */
  function Kept(levels: seq<int>, n: int): (k: nat)
    ensures k <= |levels|
  {
    if |levels| == 0 then 0
    else if levels[|levels| - 1] <= n then |levels|
    else Kept(levels[..|levels| - 1], n)
  }

  lemma {:induction false} KeptSplits(levels: seq<int>, n: int)
    requires ValidLevels(levels)
    ensures forall i :: 0 <= i < Kept(levels, n) ==> levels[i] <= n
    ensures forall i :: Kept(levels, n) <= i < |levels| ==> levels[i] > n
  {
    ValidLevelsOrdered(levels);
    if |levels| > 0 && levels[|levels| - 1] > n {
      KeptSplits(levels[..|levels| - 1], n);
    }
  }

  lemma {:induction false} PopDeeperPops(levels: seq<int>, current: int, n: int, d: int)
    requires ValidLevels(levels) && current > n
    requires |levels| > 0 ==> levels[|levels| - 1] <= current
    ensures var k := Kept(levels, n);
      var p := PopDeeper(levels, current, n, d);
      && p.levels == levels[..if k > 0 then k - 1 else 0]
      && p.current == (if k > 0 then levels[k - 1] else 0)
      && p.decreaseLevel == d + |levels| - k + 1
    decreases |levels|
  {
    if |levels| > 0 {
      var init := levels[..|levels| - 1];
      var top := levels[|levels| - 1];
      if top > n {
        PopDeeperPops(init, top, n, d + 1);
        var k := Kept(levels, n);
        assert levels[..if k > 0 then k - 1 else 0] == init[..if k > 0 then k - 1 else 0];
      }
    }
  }

  /** A shallower line keeps the levels not deeper than it, provided the last of them
      is its length (or it is 0 and none is kept). */
  lemma {:induction false} ShallowerKeeps(levels: seq<int>, newLength: int)
    requires ValidLevels(levels) && newLength < ActualLength(levels)
    ensures var k := Kept(levels, newLength);
      LevelDelta(levels, newLength)
        == if (k == 0 && newLength == 0) || (k > 0 && levels[k - 1] == newLength)
           then Ok(Change(levels[..k], k - |levels|))
           else Throws(InconsistentIndentation)
  {
    PopDeeperPops(levels, ActualLength(levels), newLength, -1);
    var k := Kept(levels, newLength);
    if k > 0 {
      ValidLevelsOrdered(levels);
      assert levels[..k - 1] + [levels[k - 1]] == levels[..k];
    }
  }

  /** The kept levels end at the new length exactly when it is 0 or an open length. */
  lemma KeptMatches(levels: seq<int>, newLength: int)
    requires ValidLevels(levels)
    ensures var k := Kept(levels, newLength);
      ((k == 0 && newLength == 0) || (k > 0 && levels[k - 1] == newLength))
        <==> (newLength == 0 || newLength in levels)
  {
    KeptSplits(levels, newLength);
    ValidLevelsOrdered(levels);
  }

  lemma ActualOfPrefix(levels: seq<int>, k: nat)
    requires ValidLevels(levels) && k <= |levels|
    ensures ValidLevels(levels[..k])
    ensures ActualLength(levels[..k]) == if k > 0 then levels[k - 1] else 0
  {
    ValidPrefix(levels, k);
  }

  /** The level change on a valid stack: it throws exactly when a shallower line matches
      no open length (nor 0); otherwise the stack stays valid, ends at the new length and
      changes by `delta` levels, pushing one or keeping a prefix. */
  lemma LevelDeltaMeaning(levels: seq<int>, newLength: int)
    requires ValidLevels(levels)
    ensures var r := LevelDelta(levels, newLength);
      && (r.Throws? <==> newLength < ActualLength(levels) && newLength != 0 && newLength !in levels)
      && (r.Ok? ==> ValidLevels(r.value.levels) && ActualLength(r.value.levels) == newLength)
      && (r.Ok? ==> r.value.delta == |r.value.levels| - |levels|)
      && (r.Ok? && r.value.delta > 0 ==> r.value.delta == 1 && r.value.levels == levels + [newLength])
      && (r.Ok? && r.value.delta <= 0 ==> r.value.levels == levels[..|r.value.levels|])
  {
    if newLength < ActualLength(levels) {
      ShallowerKeeps(levels, newLength);
      KeptMatches(levels, newLength);
      var k := Kept(levels, newLength);
      ActualOfPrefix(levels, k);
      if newLength == 0 {
        ValidLevelsOrdered(levels);
      }
    } else if newLength > ActualLength(levels) {
      ValidPush(levels, newLength);
    }
  }

  // ---------------------------------------------------------------------------------
  // Emitting tokens

  /** `appendIndentation`: |delta| INDENT tokens for a positive delta, DEDENT tokens for a
      negative one, all at the same offset. */
  function Indentation(offset: int, delta: int): (ts: seq<Token>)
    ensures |ts| == if delta < 0 then -delta else delta
    ensures forall k :: 0 <= k < |ts| ==> ts[k] == Special(if delta > 0 then Indent else Dedent, offset)
  {
    seq(if delta < 0 then -delta else delta, _ => Special(if delta > 0 then Indent else Dedent, offset))
  }

  /** The net number of levels a token sequence opens: INDENTs minus DEDENTs. */
  function Balance(ts: seq<Token>): int {
    if |ts| == 0 then 0
    else
      var last := ts[|ts| - 1];
      Balance(ts[..|ts| - 1]) + (if last.name == Indent then 1 else if last.name == Dedent then -1 else 0)
  }

  lemma {:induction false} BalanceConcat(a: seq<Token>, b: seq<Token>)
    ensures Balance(a + b) == Balance(a) + Balance(b)
    decreases |b|
  {
    if |b| == 0 {
      assert a + b == a;
    } else {
      assert (a + b)[..|a + b| - 1] == a + b[..|b| - 1];
      BalanceConcat(a, b[..|b| - 1]);
    }
  }

  lemma {:induction false} IndentationBalance(offset: int, delta: int)
    ensures Balance(Indentation(offset, delta)) == delta
    decreases if delta < 0 then -delta else delta
  {
    if delta != 0 {
      var smaller := if delta > 0 then delta - 1 else delta + 1;
      assert Indentation(offset, delta)[..|Indentation(offset, delta)| - 1] == Indentation(offset, smaller);
      IndentationBalance(offset, smaller);
    }
  }

  /** What outlining has produced, and the level stack it leaves. */
  datatype Outlined = Outlined(tokens: seq<Token>, levels: seq<int>)

  /** The tokens framing a line's text: BOL, the left-trimmed text at the end of the
      indentation, and EOL; nothing for a line of blanks. */
  function LineBody(line: string, lineStart: int, length: int): seq<Token> {
    var text := TrimStart(line, Blanks);
    if |text| > 0 then
      [Special(BOL, lineStart), TextToken(text, lineStart + length), Special(EOL, lineStart + |line|)]
    else []
  }

  /** The tokens of one line starting at `lineStart`: the level change, then BOL, the
      left-trimmed text at the end of the indentation, and EOL; a line of blanks only
      gives its level change. */
  function OutlineLine(line: string, lineStart: int, tab: int, levels: seq<int>): (r: Result<Outlined, OutlineError>)
    ensures r.Ok? && |TrimStart(line, Blanks)| > 0 ==>
              var ts := r.value.tokens;
              && |ts| >= 3
              && ts[|ts| - 3..] == [Special(BOL, lineStart),
                                    TextToken(TrimStart(line, Blanks), lineStart + IndentationLength(line, tab, levels)),
                                    Special(EOL, lineStart + |line|)]
              && forall k :: 0 <= k < |ts| - 3 ==>
                   ts[k].IsSpecial() && ts[k].start == lineStart && (ts[k].name == Indent || ts[k].name == Dedent)
  {
    var length := IndentationLength(line, tab, levels);
    EmitLine(LevelDelta(levels, length), lineStart, LineBody(line, lineStart, length))
  }

  /** The level change of a line ahead of its body. */
  function EmitLine(change: Result<Change, OutlineError>, lineStart: int, body: seq<Token>): Result<Outlined, OutlineError> {
    match change
    case Throws(e) => Throws(e)
    case Ok(c) => Ok(Outlined(Indentation(lineStart, c.delta) + body, c.levels))
  }

  /** A line of blanks emits nothing and leaves the stack as it is. */
  lemma BlankLineEmitsNothing(line: string, lineStart: int, tab: int, levels: seq<int>)
    requires ValidLevels(levels)
    requires |TrimStart(line, Blanks)| == 0
    ensures OutlineLine(line, lineStart, tab, levels) == Ok(Outlined([], levels))
  {
    IndentationLengthWeighs(line, tab, levels);
  }

  lemma FramedLineBalance(bol: int, text: Token, eol: int)
    requires text.name == "Text"
    ensures Balance([Special(BOL, bol), text, Special(EOL, eol)]) == 0
  {
    var ts := [Special(BOL, bol), text, Special(EOL, eol)];
    assert |BOL| == 3 && |EOL| == 3 && |Indent| == 6 && |Dedent| == 6 && |text.name| == 4;
    assert ts[..2] == [Special(BOL, bol), text];
    assert ts[..2][..1] == [Special(BOL, bol)];
    assert ts[..2][..1][..0] == [];
    assert Balance(ts[..2][..1]) == 0;
    assert Balance(ts[..2]) == 0;
  }

  lemma LineBodyBalance(line: string, lineStart: int, length: int)
    ensures Balance(LineBody(line, lineStart, length)) == 0
  {
    var text := TrimStart(line, Blanks);
    if |text| > 0 {
      FramedLineBalance(lineStart, TextToken(text, lineStart + length), lineStart + |line|);
    }
  }

  lemma EmitLineBalance(change: Result<Change, OutlineError>, lineStart: int, body: seq<Token>, levels: seq<int>)
    requires Balance(body) == 0
    requires change.Ok? ==> ValidLevels(change.value.levels) && change.value.delta == |change.value.levels| - |levels|
    ensures var r := EmitLine(change, lineStart, body);
      r.Ok? ==> ValidLevels(r.value.levels) && Balance(r.value.tokens) == |r.value.levels| - |levels|
  {
    if change.Ok? {
      BalanceConcat(Indentation(lineStart, change.value.delta), body);
      IndentationBalance(lineStart, change.value.delta);
    }
  }

  /** One line keeps the stack valid and emits as many net levels as the stack grows. */
  lemma OutlineLineBalance(line: string, lineStart: int, tab: int, levels: seq<int>)
    requires ValidLevels(levels)
    ensures var r := OutlineLine(line, lineStart, tab, levels);
      r.Ok? ==> ValidLevels(r.value.levels) && Balance(r.value.tokens) == |r.value.levels| - |levels|
  {
    var length := IndentationLength(line, tab, levels);
    LevelDeltaMeaning(levels, length);
    LineBodyBalance(line, lineStart, length);
    EmitLineBalance(LevelDelta(levels, length), lineStart, LineBody(line, lineStart, length), levels);
  }

  /** The loop of `outline`: the lines in order, each starting one past the previous
      line's newline. */
  function OutlineLines(lines: seq<string>, lineStart: int, tab: int, levels: seq<int>): Result<Outlined, OutlineError>
    decreases |lines|
  {
    if |lines| == 0 then Ok(Outlined([], levels))
    else
      match OutlineLine(lines[0], lineStart, tab, levels)
      case Throws(e) => Throws(e)
      case Ok(first) => Prepend(first.tokens, OutlineLines(lines[1..], lineStart + |lines[0]| + 1, tab, first.levels))
  }

  /** The tokens of a line ahead of what the following lines give. */
  function Prepend(tokens: seq<Token>, rest: Result<Outlined, OutlineError>): Result<Outlined, OutlineError> {
    match rest
    case Throws(e) => Throws(e)
    case Ok(o) => Ok(Outlined(tokens + o.tokens, o.levels))
  }

  lemma PrependBalance(first: Outlined, rest: Result<Outlined, OutlineError>, levels: seq<int>)
    requires Balance(first.tokens) == |first.levels| - |levels|
    requires rest.Ok? ==> ValidLevels(rest.value.levels) && Balance(rest.value.tokens) == |rest.value.levels| - |first.levels|
    ensures var r := Prepend(first.tokens, rest);
      r.Ok? ==> ValidLevels(r.value.levels) && Balance(r.value.tokens) == |r.value.levels| - |levels|
  {
    if rest.Ok? {
      BalanceConcat(first.tokens, rest.value.tokens);
    }
  }

  /** The lines keep the stack valid, and the INDENT/DEDENT count follows its size. */
  lemma {:induction false} OutlineLinesBalance(lines: seq<string>, lineStart: int, tab: int, levels: seq<int>)
    requires ValidLevels(levels)
    ensures var r := OutlineLines(lines, lineStart, tab, levels);
      r.Ok? ==> ValidLevels(r.value.levels) && Balance(r.value.tokens) == |r.value.levels| - |levels|
    decreases |lines|
  {
    if |lines| > 0 {
      OutlineLineBalance(lines[0], lineStart, tab, levels);
      var first := OutlineLine(lines[0], lineStart, tab, levels);
      if first.Ok? {
        var next := lineStart + |lines[0]| + 1;
        OutlineLinesBalance(lines[1..], next, tab, first.value.levels);
        PrependBalance(first.value, OutlineLines(lines[1..], next, tab, first.value.levels), levels);
      }
    }
  }

  /** The offset `outline` reaches after its lines: each line and its newline. */
  function LinesLength(lines: seq<string>): nat {
    if |lines| == 0 then 0 else |lines[0]| + 1 + LinesLength(lines[1..])
  }

  lemma {:induction false} LinesLengthJoin(lines: seq<string>, sep: char)
    requires |lines| >= 1
    ensures LinesLength(lines) == |Join(sep, lines)| + 1
    decreases |lines|
  {
    if |lines| > 1 {
      LinesLengthJoin(lines[1..], sep);
    }
  }

  /** The end of `outline` for one text token: one DEDENT per open level, all at the
      token's end. The level stack itself is left as it is. */
  function CloseText(lines: Result<Outlined, OutlineError>, endOffset: int): Result<Outlined, OutlineError> {
    match lines
    case Throws(e) => Throws(e)
    case Ok(o) => Ok(Outlined(o.tokens + Indentation(endOffset, -|o.levels|), o.levels))
  }

  /** The lines of a text's data starting at `start`, then the closing DEDENTs. */
  function OutlineData(data: string, start: int, tab: int, levels: seq<int>): Result<Outlined, OutlineError> {
    var lines := Split(data, '\n');
    CloseText(OutlineLines(lines, start, tab, levels), LinesLength(lines) + start - 1)
  }

  /** `outline` for one text token. */
  function OutlineText(token: Token, tab: int, levels: seq<int>): Result<Outlined, OutlineError>
    requires !token.IsSpecial()
  {
    OutlineData(token.data.value, token.start, tab, levels)
  }

  /** The closing DEDENTs of a text token sit at its end. */
  lemma TextEndOffset(data: string, start: int)
    ensures LinesLength(Split(data, '\n')) + start - 1 == start + |data|
  {
    LinesLengthJoin(Split(data, '\n'), '\n');
    JoinSplit(data, '\n');
  }

  /** Closing takes the balance of the lines down by the levels they leave open. */
  lemma CloseTextBalance(lines: Result<Outlined, OutlineError>, endOffset: int, before: int)
    requires lines.Ok? ==> Balance(lines.value.tokens) == |lines.value.levels| - before
    ensures var r := CloseText(lines, endOffset);
      r.Ok? ==> Balance(r.value.tokens) == -before
  {
    if lines.Ok? {
      var o := lines.value;
      BalanceConcat(o.tokens, Indentation(endOffset, -|o.levels|));
      IndentationBalance(endOffset, -|o.levels|);
    }
  }

  /** A text closes every level it leaves open: from an empty stack its INDENTs and
      DEDENTs balance. */
  lemma OutlineDataBalance(data: string, start: int, tab: int, levels: seq<int>)
    requires ValidLevels(levels)
    ensures var r := OutlineData(data, start, tab, levels);
      r.Ok? ==> Balance(r.value.tokens) == -|levels|
  {
    var lines := Split(data, '\n');
    LinesCloseBalance(lines, start, tab, levels, LinesLength(lines) + start - 1);
  }

  lemma LinesCloseBalance(lines: seq<string>, lineStart: int, tab: int, levels: seq<int>, endOffset: int)
    requires ValidLevels(levels)
    ensures var r := CloseText(OutlineLines(lines, lineStart, tab, levels), endOffset);
      r.Ok? ==> Balance(r.value.tokens) == -|levels|
  {
    OutlineLinesBalance(lines, lineStart, tab, levels);
    CloseTextBalance(OutlineLines(lines, lineStart, tab, levels), endOffset, |levels|);
  }

  lemma OutlineTextBalance(token: Token, tab: int, levels: seq<int>)
    requires !token.IsSpecial() && ValidLevels(levels)
    ensures var r := OutlineText(token, tab, levels);
      r.Ok? ==> Balance(r.value.tokens) == -|levels|
  {
    OutlineDataBalance(token.data.value, token.start, tab, levels);
  }

  /** The closing DEDENTs, one per level left open, come last, at the end of the text. */
  lemma OutlineDataCloses(data: string, start: int, tab: int, levels: seq<int>)
    ensures var r := OutlineData(data, start, tab, levels);
      r.Ok? ==> var ts := r.value.tokens;
        |ts| >= |r.value.levels| && ts[|ts| - |r.value.levels|..] == Indentation(start + |data|, -|r.value.levels|)
  {
    TextEndOffset(data, start);
  }

  lemma OutlineTextCloses(token: Token, tab: int, levels: seq<int>)
    requires !token.IsSpecial()
    ensures var r := OutlineText(token, tab, levels);
      r.Ok? ==> var ts := r.value.tokens;
        |ts| >= |r.value.levels| && ts[|ts| - |r.value.levels|..] == Indentation(token.start + token.Length(), -|r.value.levels|)
  {
    OutlineDataCloses(token.data.value, token.start, tab, levels);
  }

  /** `Outline` from a given stack: special tokens pass through, text tokens are outlined
      one after the other, each starting from the stack the previous one left. */
  function OutlineFrom(tokens: seq<Token>, tab: int, levels: seq<int>): Result<Outlined, OutlineError>
    decreases |tokens|
  {
    if |tokens| == 0 then Ok(Outlined([], levels))
    else
      var head := if tokens[0].IsSpecial() then Ok(Outlined([tokens[0]], levels))
                  else OutlineText(tokens[0], tab, levels);
      match head
      case Throws(e) => Throws(e)
      case Ok(first) =>
        match OutlineFrom(tokens[1..], tab, first.levels)
        case Throws(e) => Throws(e)
        case Ok(rest) => Ok(Outlined(first.tokens + rest.tokens, rest.levels))
  }

  /** `Outline` as written: the outliner starts with an empty stack. */
  function Outline(tokens: seq<Token>, tab: int): Result<seq<Token>, OutlineError> {
    match OutlineFrom(tokens, tab, [])
    case Throws(e) => Throws(e)
    case Ok(o) => Ok(o.tokens)
  }

  /** Special tokens come through unchanged. */
  lemma {:induction false} SpecialsPassThrough(tokens: seq<Token>, tab: int, levels: seq<int>)
    requires forall k :: 0 <= k < |tokens| ==> tokens[k].IsSpecial()
    ensures OutlineFrom(tokens, tab, levels) == Ok(Outlined(tokens, levels))
    decreases |tokens|
  {
    if |tokens| > 0 {
      SpecialsPassThrough(tokens[1..], tab, levels);
      assert [tokens[0]] + tokens[1..] == tokens;
    }
  }

  lemma IndentedLetterLine(c: char, start: int, levels: seq<int>)
    requires c != ' ' && c != '\t'
    requires levels == [] || levels == [2]
    ensures var r := OutlineLine([' ', ' ', c], start, 4, levels);
      r.Ok? && r.value.levels == [2]
  {
    var line := [' ', ' ', c];
    assert line[1..] == [' ', c] && line[1..][1..] == [c];
    assert IndentationLength(line, 4, levels) == 2 by {
      MeasureBlank(line, 4, levels, 0);
      MeasureBlank(line[1..], 4, levels, 1);
      assert Measure([c], 4, levels, 2) == 2;
    }
    assert LevelDelta(levels, 2).Ok? && LevelDelta(levels, 2).value.levels == [2];
  }

  lemma OutlineIndentedLetter(c: char, start: int, levels: seq<int>)
    requires c != ' ' && c != '\t' && c != '\n'
    requires levels == [] || levels == [2]
    ensures var r := OutlineText(TextToken([' ', ' ', c], start), 4, levels);
      r.Ok? && r.value.levels == [2] && Balance(r.value.tokens) == -|levels|
  {
    OutlineTextBalance(TextToken([' ', ' ', c], start), 4, levels);
    var line := [' ', ' ', c];
    assert Split(line, '\n') == [line] by { assert IndexOf(line, '\n') == -1; }
    IndentedLetterLine(c, start, levels);
    var l := OutlineLine(line, start, 4, levels).value;
    var lines := [line];
    assert lines[1..] == [];
    assert OutlineLines(lines[1..], start + 4, 4, [2]) == Ok(Outlined([], [2]));
    assert OutlineLines(lines, start, 4, levels) == Ok(Outlined(l.tokens + [], [2]));
  }

  lemma OutlineFromText(t: Token, rest: seq<Token>, tab: int, levels: seq<int>)
    requires !t.IsSpecial() && OutlineText(t, tab, levels).Ok?
    requires OutlineFrom(rest, tab, OutlineText(t, tab, levels).value.levels).Ok?
    ensures var o := OutlineText(t, tab, levels).value;
      var r := OutlineFrom(rest, tab, o.levels).value;
      OutlineFrom([t] + rest, tab, levels) == Ok(Outlined(o.tokens + r.tokens, r.levels))
  {
    assert ([t] + rest)[1..] == rest;
  }

  lemma OutlineFromSpecial(x: Token, rest: seq<Token>, tab: int, levels: seq<int>)
    requires x.IsSpecial() && OutlineFrom(rest, tab, levels).Ok?
    ensures var r := OutlineFrom(rest, tab, levels).value;
      OutlineFrom([x] + rest, tab, levels) == Ok(Outlined([x] + r.tokens, r.levels))
  {
    assert ([x] + rest)[1..] == rest;
  }

  /** Because the stack survives the closing DEDENTs of a text token, the next text
      token starts from the levels the first one left open and closes them again: the
      DEDENTs of the whole output outnumber the INDENTs by the number of those levels. */
  lemma StaleLevelsAcrossTokens(t1: Token, x: Token, t2: Token, tab: int)
    requires !t1.IsSpecial() && !t2.IsSpecial() && x.IsSpecial()
    requires x.name != Indent && x.name != Dedent
    requires OutlineText(t1, tab, []).Ok?
    requires OutlineText(t2, tab, OutlineText(t1, tab, []).value.levels).Ok?
    requires ValidLevels(OutlineText(t1, tab, []).value.levels)
    ensures var r := Outline([t1] + ([x] + [t2]), tab);
      r.Ok? && Balance(r.value) == -|OutlineText(t1, tab, []).value.levels|
  {
    var o1 := OutlineText(t1, tab, []).value;
    var o2 := OutlineText(t2, tab, o1.levels).value;
    OutlineTextBalance(t1, tab, []);
    OutlineTextBalance(t2, tab, o1.levels);
    assert OutlineFrom([], tab, o2.levels) == Ok(Outlined([], o2.levels));
    OutlineFromText(t2, [], tab, o1.levels);
    OutlineFromSpecial(x, [t2], tab, o1.levels);
    OutlineFromText(t1, [x] + [t2], tab, []);
    BalanceAround(x, o1.tokens, o2.tokens);
  }

  /** An instance: two text tokens indented by two spaces, with a special token between
      them, give one INDENT and two DEDENTs. */
  lemma StaleLevelsExample(a: char, b: char, x: Token, s1: int, s2: int)
    requires a !in Blanks && a != '\n' && b !in Blanks && b != '\n' && x.IsSpecial()
    requires x.name != Indent && x.name != Dedent
    ensures var r := Outline([TextToken([' ', ' ', a], s1)] + ([x] + [TextToken([' ', ' ', b], s2)]), 4);
      r.Ok? && Balance(r.value) == -1
  {
    var t1, t2 := TextToken([' ', ' ', a], s1), TextToken([' ', ' ', b], s2);
    OutlineIndentedLetter(a, s1, []);
    OutlineIndentedLetter(b, s2, [2]);
    StaleLevelsAcrossTokens(t1, x, t2, 4);
  }

  lemma BalanceAround(x: Token, before: seq<Token>, after: seq<Token>)
    requires x.name != Indent && x.name != Dedent
    ensures Balance(before + ([x] + (after + []))) == Balance(before) + Balance(after)
  {
    BalanceConcat(after, []);
    BalanceConcat([x], after + []);
    assert Balance([x]) == 0 by { assert [x][..0] == []; }
    BalanceConcat(before, [x] + (after + []));
  }

  /** The outliner with the stack emptied after each text token, matching the DEDENTs
      that close it: every text token then starts at indentation 0. */
  function OutlineFromReset(tokens: seq<Token>, tab: int): Result<seq<Token>, OutlineError>
    decreases |tokens|
  {
    if |tokens| == 0 then Ok([])
    else
      var head := if tokens[0].IsSpecial() then Ok([tokens[0]])
                  else match OutlineText(tokens[0], tab, [])
                       case Throws(e) => Throws(e)
                       case Ok(o) => Ok(o.tokens);
      match head
      case Throws(e) => Throws(e)
      case Ok(first) =>
        match OutlineFromReset(tokens[1..], tab)
        case Throws(e) => Throws(e)
        case Ok(rest) => Ok(first + rest)
  }

  /** With the reset, the INDENTs and DEDENTs of the whole output balance, whatever the
      mix of text and special tokens (as long as no input token is itself an INDENT or a
      DEDENT). */
  lemma {:induction false} OutlineFromResetBalanced(tokens: seq<Token>, tab: int)
    requires forall k :: 0 <= k < |tokens| ==> tokens[k].name != Indent && tokens[k].name != Dedent
    ensures var r := OutlineFromReset(tokens, tab);
      r.Ok? ==> Balance(r.value) == 0
    decreases |tokens|
  {
    if |tokens| > 0 {
      OutlineFromResetBalanced(tokens[1..], tab);
      var r := OutlineFromReset(tokens, tab);
      if r.Ok? {
        var rest := OutlineFromReset(tokens[1..], tab).value;
        if tokens[0].IsSpecial() {
          BalanceConcat([tokens[0]], rest);
          assert [tokens[0]][..0] == [];
        } else {
          OutlineTextBalance(tokens[0], tab, []);
          BalanceConcat(OutlineText(tokens[0], tab, []).value.tokens, rest);
        }
      }
    }
  }
}
