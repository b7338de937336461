/** The multipart boundary matcher (ServeRick/Modules/Input/Boundary.cs). The delimiter is
    CR LF "--" followed by the boundary text; the matcher reads a window of bytes and
    advances a cursor through the delimiter, remembering where the delimiter ended.

    The source drops the cursor to 0 on a mismatching byte without testing that byte
    again, so a delimiter that begins inside a partial match is missed (see
    `MissedDelimiter`). `AcceptNext` is the corrected matcher: on a mismatch it falls back
    to the longest tail of the bytes read that still begins the delimiter, and
    `AcceptNextFindsFirst` proves it stops exactly at the first occurrence. */
module Boundary {
  import opened Results
  import opened Text

  /** Longest boundary text kept (section 5.1.1 of RFC 2046). */
  const BoundaryMaxLength := 70

  /** CR LF "--": what precedes every boundary but the first. */
  const BoundaryPrefix: seq<Byte> := [13, 10, 45, 45]

  /** `Encoding.ASCII`: characters outside ASCII become '?'. */
  function AsciiByte(c: char): (b: Byte)
    ensures c as int < 128 ==> b == c as int
    ensures c as int >= 128 ==> b == '?' as int
  {
    if c as int < 128 then c as int else '?' as int
  }

  function AsciiBytes(s: string): (bs: seq<Byte>)
    ensures |bs| == |s|
    ensures forall k :: 0 <= k < |s| ==> bs[k] == AsciiByte(s[k])
  {
    seq(|s|, k requires 0 <= k < |s| => AsciiByte(s[k]))
  }

  /** The matcher: the delimiter bytes, how many of them have been matched, and the index
      of the byte that completed the delimiter (`int.MaxValue` when the last window held
      no end). */
  datatype Boundary = Boundary(delimiter: seq<Byte>, cursor: int, localEnd: int)
  {
    predicate Valid() { |delimiter| >= |BoundaryPrefix| && 0 <= cursor <= |delimiter| }

    predicate IsComplete() { cursor >= |delimiter| }

    /** Index of the delimiter's first byte, relative to the window that completed it;
        negative when the delimiter began in an earlier window. */
    function LocalStart(): int { localEnd - |delimiter| + 1 }
  }

  /** The constructor: the text is cut to 70 characters, put behind the prefix, and the
      cursor starts at 2, because the first boundary of a body has no CR LF before it. */
  function New(boundary: string): (b: Boundary)
    ensures b.Valid() && !b.IsComplete() && b.cursor == 2 && b.localEnd == 0
    ensures |b.delimiter| == 4 + if |boundary| > BoundaryMaxLength then BoundaryMaxLength else |boundary|
    ensures b.delimiter[..4] == BoundaryPrefix
    ensures forall k :: 4 <= k < |b.delimiter| ==> b.delimiter[k] == AsciiByte(boundary[k - 4])
  {
    var text := if |boundary| > BoundaryMaxLength then boundary[..BoundaryMaxLength] else boundary;
    Boundary(BoundaryPrefix + AsciiBytes(text), 2, 0)
  }

  /** How a scan over a window ends: the cursor, and the window index of the byte that
      completed the delimiter, or -1. */
  datatype ScanEnd = ScanEnd(cursor: int, at: int)

  function Later(e: ScanEnd): ScanEnd {
    if e.at >= 0 then e.(at := e.at + 1) else e
  }

  /** `d` occurs at the very end of `s`. */
  predicate EndsWith(s: seq<Byte>, d: seq<Byte>) {
    |d| <= |s| && s[|s| - |d|..] == d
  }

  // ---------------------------------------------------------------------------------
  // The loop of `AcceptNext` as written

  /** The source's loop: a matching byte advances the cursor, a mismatching one sets it
      to 0 and is not looked at again. */
  function ScanAsWritten(d: seq<Byte>, c: int, data: seq<Byte>): (e: ScanEnd)
    requires 0 <= c < |d|
    ensures e.at >= 0 <==> e.cursor == |d|
    ensures -1 <= e.at < |data|
    ensures e.at < 0 ==> 0 <= e.cursor < |d|
    decreases |data|
  {
    if |data| == 0 then ScanEnd(c, -1)
    else
      var c' := if data[0] == d[c] then c + 1 else 0;
      if c' == |d| then ScanEnd(c', 0) else Later(ScanAsWritten(d, c', data[1..]))
  }

  /** `AcceptNext` as written: a complete matcher starts over from cursor 0. */
  function AcceptNextAsWritten(b: Boundary, data: seq<Byte>, offset: int, length: int): (b': Boundary)
    requires b.Valid() && 0 <= offset && offset + (if length > 0 then length else 0) <= |data|
    ensures b'.Valid() && b'.delimiter == b.delimiter
    ensures b'.IsComplete() ==> offset <= b'.localEnd < offset + length
    ensures !b'.IsComplete() ==> b'.localEnd == IntMax
  {
    var start := if b.IsComplete() then 0 else b.cursor;
    var window := data[offset..offset + if length > 0 then length else 0];
    var e := ScanAsWritten(b.delimiter, start, window);
    if e.at >= 0 then Boundary(b.delimiter, e.cursor, offset + e.at)
    else Boundary(b.delimiter, e.cursor, IntMax)
  }

  /** The source's matcher misses a delimiter right after a carriage return: with the
      four-byte delimiter of an empty boundary text, the bytes CR CR LF "--" hold the
      delimiter at 1..4, yet the matcher ends incomplete, because the second CR is only
      compared with the LF it was expected to be. */
  lemma MissedDelimiter()
    ensures var b := Boundary(BoundaryPrefix, 0, 0);
      var data: seq<Byte> := [13, 13, 10, 45, 45];
      && EndsWith(data, b.delimiter)
      && !AcceptNextAsWritten(b, data, 0, |data|).IsComplete()
  {
    var d := BoundaryPrefix;
    var data: seq<Byte> := [13, 13, 10, 45, 45];
    assert data[1..] == d;
    assert ScanAsWritten(d, 0, data[4..]) == ScanEnd(0, -1);
    assert ScanAsWritten(d, 0, data[3..]) == ScanEnd(0, -1);
    assert ScanAsWritten(d, 0, data[2..]) == ScanEnd(0, -1);
    assert ScanAsWritten(d, 1, data[1..]) == ScanEnd(0, -1);
    assert data[0..5] == data;
  }

  // ---------------------------------------------------------------------------------
  // Borders: how much of the delimiter the bytes read so far may begin

  /** The last `k` bytes of `s` are the first `k` bytes of `d`. */
  predicate Overlap(d: seq<Byte>, s: seq<Byte>, k: int) {
    0 <= k <= |s| && k <= |d| && s[|s| - k..] == d[..k]
  }

  function BorderFrom(d: seq<Byte>, s: seq<Byte>, k: int): (r: int)
    requires 0 <= k <= |s| && k <= |d|
    ensures Overlap(d, s, r) && r <= k
    ensures forall j :: r < j <= k ==> !Overlap(d, s, j)
    decreases k
  {
    if Overlap(d, s, k) then k
    else
      assert k > 0 by { assert s[|s|..] == [] == d[..0]; }
      BorderFrom(d, s, k - 1)
  }

  /** The longest tail of `s` that begins `d`. */
  function Border(d: seq<Byte>, s: seq<Byte>): (r: int)
    ensures Overlap(d, s, r)
  {
    BorderFrom(d, s, if |s| < |d| then |s| else |d|)
  }

  /** No longer tail begins the delimiter. */
  lemma BorderMax(d: seq<Byte>, s: seq<Byte>, j: int)
    requires Overlap(d, s, j)
    ensures j <= Border(d, s)
  {
  }

  /** The whole delimiter is a tail of `s` exactly when the border reaches its length. */
  lemma BorderFull(d: seq<Byte>, s: seq<Byte>)
    ensures Border(d, s) == |d| <==> EndsWith(s, d)
  {
    if EndsWith(s, d) {
      assert d[..|d|] == d;
      BorderMax(d, s, |d|);
    }
  }

  /** A proper prefix of the delimiter is its own border. */
  lemma BorderOfPrefix(d: seq<Byte>, c: int)
    requires 0 <= c <= |d|
    ensures Border(d, d[..c]) == c
  {
    assert d[..c][c - c..] == d[..c];
    BorderMax(d, d[..c], c);
  }

  /** The corrected step: the border of the matched prefix followed by the new byte. A
      matching byte advances the cursor by one, as in the source. */
  function Next(d: seq<Byte>, c: int, x: Byte): (c': int)
    requires 0 <= c < |d|
    ensures 0 <= c' <= c + 1
    ensures x == d[c] ==> c' == c + 1
  {
    var s := d[..c] + [x];
    if x == d[c] then
      assert s == d[..c + 1];
      BorderOfPrefix(d, c + 1);
      Border(d, s)
    else Border(d, s)
  }

  /** A tail that begins the delimiter, minus its last byte, is a shorter such tail. */
  lemma OverlapDrop(d: seq<Byte>, s: seq<Byte>, x: Byte, k: int)
    requires Overlap(d, s + [x], k) && k >= 1
    ensures Overlap(d, s, k - 1)
  {
    var t := s + [x];
    assert t[|t| - k..] == d[..k];
    assert s[|s| - (k - 1)..] == t[|t| - k..][..k - 1];
    assert d[..k][..k - 1] == d[..k - 1];
  }

  /** When the last `c` bytes of `s` begin the delimiter, `s + [x]` and the delimiter's
      first `c` bytes followed by `x` have the same tails up to length `c + 1`. */
  lemma OverlapTail(d: seq<Byte>, s: seq<Byte>, c: int, x: Byte, k: int)
    requires Overlap(d, s, c) && 0 <= k <= c + 1 && c < |d|
    ensures Overlap(d, s + [x], k) <==> Overlap(d, d[..c] + [x], k)
  {
    var t, u := s + [x], d[..c] + [x];
    if k > 0 {
      assert t[|t| - k..] == s[|s| - (k - 1)..] + [x];
      assert u[|u| - k..] == d[..c][c - (k - 1)..] + [x];
      assert s[|s| - (k - 1)..] == s[|s| - c..][c - (k - 1)..];
    } else {
      assert t[|t| - k..] == [] == u[|u| - k..];
    }
  }

  /** The key fact of the corrected matcher: the new border depends only on the old one
      and the new byte. */
  lemma BorderStep(d: seq<Byte>, s: seq<Byte>, x: Byte)
    requires Border(d, s) < |d|
    ensures Border(d, s + [x]) == Next(d, Border(d, s), x)
  {
    var c := Border(d, s);
    var u := d[..c] + [x];
    var r1, r2 := Border(d, s + [x]), Border(d, u);
    if r1 >= 1 {
      OverlapDrop(d, s, x, r1);
      BorderMax(d, s, r1 - 1);
    }
    OverlapTail(d, s, c, x, r1);
    BorderMax(d, u, r1);
    OverlapTail(d, s, c, x, r2);
    BorderMax(d, s + [x], r2);
  }

  // ---------------------------------------------------------------------------------
  // The corrected matcher

  function Scan(d: seq<Byte>, c: int, data: seq<Byte>): (e: ScanEnd)
    requires 0 <= c < |d|
    ensures e.at >= 0 <==> e.cursor == |d|
    ensures -1 <= e.at < |data|
    ensures e.at < 0 ==> 0 <= e.cursor < |d|
    decreases |data|
  {
    if |data| == 0 then ScanEnd(c, -1)
    else
      var c' := Next(d, c, data[0]);
      if c' == |d| then ScanEnd(c', 0) else Later(Scan(d, c', data[1..]))
  }

  /** The delimiter ends at the `j`-th byte of `data`, read after `seen`. */
  predicate EndsAt(d: seq<Byte>, seen: seq<Byte>, data: seq<Byte>, j: int)
    requires 0 <= j < |data|
  {
    EndsWith(seen + data[..j + 1], d)
  }

  lemma EndsAtCons(d: seq<Byte>, seen: seq<Byte>, data: seq<Byte>, j: int)
    requires 0 <= j < |data|
    ensures j == 0 ==> (EndsAt(d, seen, data, j) <==> EndsWith(seen + [data[0]], d))
    ensures j > 0 ==> (EndsAt(d, seen, data, j) <==> EndsAt(d, seen + [data[0]], data[1..], j - 1))
  {
    assert data[..j + 1] == [data[0]] + data[1..][..j];
    assert seen + data[..j + 1] == (seen + [data[0]]) + data[1..][..j];
  }

  /** What a scan of `data` after `seen` promises: it stops at the first byte that ends
      an occurrence of the delimiter, and otherwise keeps the border of all bytes read. */
  predicate FindsFirst(d: seq<Byte>, seen: seq<Byte>, data: seq<Byte>, e: ScanEnd) {
    && (e.at >= 0 ==> e.at < |data| && EndsAt(d, seen, data, e.at))
    && (forall j :: 0 <= j < |data| && (e.at < 0 || j < e.at) ==> !EndsAt(d, seen, data, j))
    && (e.at < 0 ==> e.cursor == Border(d, seen + data))
  }

  /** The corrected scan stops at the first byte that ends an occurrence of the
      delimiter in the bytes read so far, and otherwise keeps the border. */
  lemma {:induction false} ScanFindsFirst(d: seq<Byte>, seen: seq<Byte>, data: seq<Byte>)
    requires Border(d, seen) < |d|
    ensures FindsFirst(d, seen, data, Scan(d, Border(d, seen), data))
    decreases |data|, 1
  {
    if |data| == 0 {
      assert seen + data == seen;
    } else {
      var seen' := seen + [data[0]];
      BorderStep(d, seen, data[0]);
      BorderFull(d, seen');
      EndsAtCons(d, seen, data, 0);
      if Border(d, seen') < |d| {
        ScanFindsFirst(d, seen', data[1..]);
        FindsFirstLater(d, seen, data, Scan(d, Border(d, seen'), data[1..]));
      }
    }
  }

  /** A scan that found nothing at the first byte promises, one byte later, what the scan
      of the rest promises. */
  lemma FindsFirstLater(d: seq<Byte>, seen: seq<Byte>, data: seq<Byte>, e: ScanEnd)
    requires |data| > 0 && !EndsWith(seen + [data[0]], d)
    requires FindsFirst(d, seen + [data[0]], data[1..], e)
    ensures FindsFirst(d, seen, data, Later(e))
  {
    var seen' := seen + [data[0]];
    var e' := Later(e);
    EndsAtCons(d, seen, data, 0);
    if e.at >= 0 {
      EndsAtCons(d, seen, data, e.at + 1);
    }
    forall j | 0 <= j < |data| && (e'.at < 0 || j < e'.at)
      ensures !EndsAt(d, seen, data, j)
    {
      EndsAtCons(d, seen, data, j);
    }
    assert seen' + data[1..] == seen + data;
  }

  /** The bytes `AcceptNext` reads: `length` bytes from `offset`, none when `length` is
      not positive. */
  function Window(data: seq<Byte>, offset: int, length: int): (w: seq<Byte>)
    requires 0 <= offset && offset + (if length > 0 then length else 0) <= |data|
    ensures |w| == if length > 0 then length else 0
    ensures forall k :: 0 <= k < |w| ==> w[k] == data[offset + k]
  {
    data[offset..offset + if length > 0 then length else 0]
  }

  /** The corrected `AcceptNext`: a complete matcher starts over with nothing matched. */
  function AcceptNext(b: Boundary, data: seq<Byte>, offset: int, length: int): (b': Boundary)
    requires b.Valid() && 0 <= offset && offset + (if length > 0 then length else 0) <= |data|
    ensures b'.Valid() && b'.delimiter == b.delimiter
    ensures b'.IsComplete() ==> offset <= b'.localEnd < offset + length
    ensures !b'.IsComplete() ==> b'.localEnd == IntMax
  {
    var start := if b.IsComplete() then 0 else b.cursor;
    var e := Scan(b.delimiter, start, Window(data, offset, length));
    if e.at >= 0 then Boundary(b.delimiter, e.cursor, offset + e.at)
    else Boundary(b.delimiter, e.cursor, IntMax)
  }

  /** Which matcher a reader runs: the source's `AcceptNext`, or the corrected one. */
  datatype Matcher = SourceMatcher | CorrectedMatcher

  /** `AcceptNext` of the chosen matcher; both keep the same interface. */
  function Accept(m: Matcher, b: Boundary, data: seq<Byte>, offset: int, length: int): (b': Boundary)
    requires b.Valid() && 0 <= offset && offset + (if length > 0 then length else 0) <= |data|
    ensures b'.Valid() && b'.delimiter == b.delimiter
    ensures b'.IsComplete() ==> offset <= b'.localEnd < offset + length
    ensures !b'.IsComplete() ==> b'.localEnd == IntMax
  {
    match m
    case SourceMatcher => AcceptNextAsWritten(b, data, offset, length)
    case CorrectedMatcher => AcceptNext(b, data, offset, length)
  }

  /** The bytes a matcher stands on: the delimiter's first `cursor` bytes, or nothing
      once it has completed. */
  function Context(b: Boundary): seq<Byte>
    requires b.Valid()
  {
    if b.IsComplete() then [] else b.delimiter[..b.cursor]
  }

  /** `AcceptNext` completes at the first byte of the window that ends the delimiter,
      counting the matched bytes it started from; otherwise its cursor is the longest
      tail of what it read that still begins the delimiter. */
  lemma AcceptNextFindsFirst(b: Boundary, data: seq<Byte>, offset: int, length: int)
    requires b.Valid() && 0 <= offset && offset + (if length > 0 then length else 0) <= |data|
    ensures var b' := AcceptNext(b, data, offset, length);
      FindsFirst(b.delimiter, Context(b), Window(data, offset, length),
                 ScanEnd(b'.cursor, if b'.IsComplete() then b'.localEnd - offset else -1))
  {
    var d := b.delimiter;
    var start := if b.IsComplete() then 0 else b.cursor;
    var ctx, w := Context(b), Window(data, offset, length);
    BorderOfPrefix(d, start);
    assert ctx == d[..start];
    ScanFindsFirst(d, ctx, w);
    var e := Scan(d, start, w);
    var b' := AcceptNext(b, data, offset, length);
    assert ScanEnd(b'.cursor, if b'.IsComplete() then b'.localEnd - offset else -1) == e;
  }
}
