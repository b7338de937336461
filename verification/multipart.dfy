/** The multipart/form-data reader (ServeRick/Modules/Input/MultiPart.cs). Bytes of the
    request body arrive in chunks; the boundary matcher cuts them into parts, the header
    lines of each part are collected into a dispositions table, and the content of a part
    is written to the part stream the controller hands out for it.

    The regular expression that splits the Content-Disposition header, the controller's
    `reportPart` and the concrete stream's `write` are parameters (`Handlers`). */
module MultiPart {
  import opened Results
  import opened Text
  import Boundary
  import opened PartStream

  type Dispositions = map<string, string>

  /** The collaborators of the reader. */
  datatype Handlers = Handlers(
    /** The Content-Disposition regular expression: `None` when it does not match, else
        its Name/Value captures in order. */
    parseDisposition: string -> Option<seq<(string, string)>>,
    /** The controller's `reportPart`: the stream for a new part, or `None` (null). */
    reportPart: Dispositions -> Option<PartStream>,
    /** The concrete stream's `write`. */
    write: seq<Byte> -> bool)

  /** The reader's fields. `completed` lists the part streams whose `Completed` was called,
      in order. */
  datatype Reader = Reader(
    boundary: Boundary.Boundary,
    hasStartingBoundary: bool,
    current: Option<PartStream>,
    buffer: string,
    dispositions: Option<Dispositions>,
    dispositionKey: Option<string>,
    totalReceived: int,
    continueDownloading: bool,
    completed: seq<PartStream>)
  {
    predicate Valid() {
      boundary.Valid() && |boundary.delimiter| < IntMax
    }
  }

  /** The constructor, with the boundary text of the request's content type. */
  function New(boundary: string): (r: Reader)
    ensures r.Valid() && r.continueDownloading && !r.hasStartingBoundary
    ensures r.current.None? && r.dispositions.None? && r.totalReceived == 0
  {
    Reader(Boundary.New(boundary), false, None, "", None, None, 0, true, [])
  }

  /** The exception the reader can raise: a header section without a Content-Disposition
      line makes the dictionary lookup throw. */
  datatype Error = KeyNotFound

  const ContentDisposition := "Content-Disposition"

  /** Stores the captured pairs one after the other, a later name overwriting. */
  function ApplyPairs(d: Dispositions, pairs: seq<(string, string)>): Dispositions
    decreases |pairs|
  {
    if |pairs| == 0 then d else ApplyPairs(d[pairs[0].0 := pairs[0].1], pairs[1..])
  }

  /** Every captured pair is stored, the last capture of a name winning; other entries
      are kept. */
  lemma {:induction false} ApplyPairsLookup(d: Dispositions, pairs: seq<(string, string)>, name: string)
    ensures var d' := ApplyPairs(d, pairs);
      && (forall k :: 0 <= k < |pairs| ==> pairs[k].0 in d')
      && ((forall k :: 0 <= k < |pairs| ==> pairs[k].0 != name) ==>
            (name in d' <==> name in d) && (name in d ==> d'[name] == d[name]))
      && (|pairs| > 0 && pairs[|pairs| - 1].0 == name ==> d'[name] == pairs[|pairs| - 1].1)
    decreases |pairs|
  {
    if |pairs| > 0 {
      var d1 := d[pairs[0].0 := pairs[0].1];
      ApplyPairsLookup(d1, pairs[1..], name);
      forall k | 0 <= k < |pairs| ensures pairs[k].0 in ApplyPairs(d, pairs) {
        if k > 0 {
          assert pairs[k] == pairs[1..][k - 1];
        } else {
          ApplyPairsLookup(d1, pairs[1..], pairs[0].0);
        }
      }
      if |pairs| > 1 {
        assert pairs[|pairs| - 1] == pairs[1..][|pairs[1..]| - 1];
      }
    }
  }

  /** `onSectionComplete`: the Content-Disposition value is split by the regular
      expression; when it matches, its pairs join the dispositions and the controller is
      asked for the part's stream. */
  function OnSectionComplete(r: Reader, h: Handlers): (res: Result<Reader, Error>)
    requires r.dispositions.Some? && r.current.None?
    ensures res.Throws? <==> ContentDisposition !in r.dispositions.value
    ensures res.Ok? ==> res.value.dispositions.Some?
    ensures res.Ok? ==> res.value.boundary == r.boundary && res.value.totalReceived == r.totalReceived
    ensures res.Ok? ==> res.value.continueDownloading == r.continueDownloading
    ensures res.Ok? ==> res.value.completed == r.completed
    ensures res.Ok? && h.parseDisposition(r.dispositions.value[ContentDisposition]).None? ==>
              res.value == r
    ensures res.Ok? && res.value.current.Some? ==>
              res.value.current == h.reportPart(res.value.dispositions.value)
  {
    var d := r.dispositions.value;
    if ContentDisposition !in d then Throws(KeyNotFound)
    else
      match h.parseDisposition(d[ContentDisposition])
      case None => Ok(r)
      case Some(pairs) =>
        var d' := ApplyPairs(d, pairs);
        Ok(r.(dispositions := Some(d'), current := h.reportPart(d')))
  }

  /** How one byte of a part header ends. */
  datatype Step =
    | Next(reader: Reader)     // keep reading
    | Stop(reader: Reader)     // the loop returns `int.MaxValue`
    | Close(reader: Reader)    // header section closed; the loop returns the next index
    | Fail(error: Error)

  /** The '\n' case of `reportHeaderContent`: the buffered text confirms a value, opens
      a section, closes it, or ends the input. */
  function LineEnd(r: Reader, h: Handlers): (s: Step)
    requires r.current.None?
    ensures !s.Fail? ==> s.reader.boundary == r.boundary
    ensures !s.Fail? ==> s.reader.totalReceived == r.totalReceived && s.reader.completed == r.completed
    ensures !s.Fail? ==> s.reader.buffer == ""
    ensures s.Next? ==> s.reader.current.None?
    ensures !s.Fail? && !r.continueDownloading ==> !s.reader.continueDownloading
    ensures s.Next? ==> s.reader.continueDownloading == r.continueDownloading
    ensures s.Stop? ==> !s.reader.continueDownloading
    ensures s.Close? ==> s.reader.dispositions.None?
    ensures s.Close? && s.reader.continueDownloading ==> s.reader.current.Some?
  {
    var value := r.buffer;
    var r1 := r.(buffer := "");
    if r1.dispositions.None? then
      if value == "--" then Stop(r1.(continueDownloading := false))
      else if value == "" then Next(r1.(dispositions := Some(map[])))
      else Stop(r1.(continueDownloading := false))
    else if r1.dispositionKey.None? then
      match OnSectionComplete(r1, h)
      case Throws(e) => Fail(e)
      case Ok(r2) =>
        var keepOn := r2.continueDownloading && r2.current.Some?;
        Close(r2.(continueDownloading := keepOn, dispositions := None))
    else
      var d := r1.dispositions.value[r1.dispositionKey.value := value];
      Next(r1.(dispositions := Some(d), dispositionKey := None))
  }

  /** One byte of the loop in `reportHeaderContent`. */
  function HeaderByte(r: Reader, b: Byte, h: Handlers): (s: Step)
    requires r.current.None?
    ensures !s.Fail? ==> s.reader.boundary == r.boundary
    ensures !s.Fail? ==> s.reader.totalReceived == r.totalReceived && s.reader.completed == r.completed
    ensures s.Next? ==> s.reader.current.None?
    ensures !s.Fail? && !r.continueDownloading ==> !s.reader.continueDownloading
    ensures s.Next? ==> s.reader.continueDownloading == r.continueDownloading
    ensures s.Stop? ==> !s.reader.continueDownloading
    ensures s.Close? ==> s.reader.dispositions.None? && s.reader.buffer == ""
    ensures s.Close? && s.reader.continueDownloading ==> s.reader.current.Some?
    ensures !s.Next? ==> b == 10
  {
    var ch := ByteChar(b);
    if ch == '\r' then Next(r)
    else if ch == ':' then Next(r.(dispositionKey := Some(r.buffer), buffer := ""))
    else if ch == '\n' then LineEnd(r, h)
    else if |r.buffer| == 0 && IsWhiteSpace(ch) then Next(r)
    else Next(r.(buffer := r.buffer + [ch]))
  }

  /** How a stretch of header bytes ends. */
  datatype HeaderEnd =
    | Exhausted(reader: Reader)
    | Stopped(reader: Reader)
    | Closed(reader: Reader, count: int)   // `count` bytes read, the last one the '\n'
    | Failed(error: Error)

  function LaterEnd(e: HeaderEnd): HeaderEnd {
    if e.Closed? then e.(count := e.count + 1) else e
  }

  /** The loop of `reportHeaderContent` over a stretch of bytes. */
  function ReadHeader(r: Reader, bytes: seq<Byte>, h: Handlers): (e: HeaderEnd)
    requires r.current.None?
    ensures !e.Failed? ==> e.reader.boundary == r.boundary
    ensures !e.Failed? ==> e.reader.totalReceived == r.totalReceived && e.reader.completed == r.completed
    ensures e.Exhausted? ==> e.reader.current.None?
    ensures !e.Failed? && !r.continueDownloading ==> !e.reader.continueDownloading
    ensures e.Exhausted? ==> e.reader.continueDownloading == r.continueDownloading
    ensures e.Stopped? ==> !e.reader.continueDownloading
    ensures e.Closed? ==> 1 <= e.count <= |bytes| && bytes[e.count - 1] == 10
    ensures e.Closed? ==> e.reader.dispositions.None?
    ensures e.Closed? && e.reader.continueDownloading ==> e.reader.current.Some?
    decreases |bytes|
  {
    if |bytes| == 0 then Exhausted(r)
    else
      match HeaderByte(r, bytes[0], h)
      case Fail(err) => Failed(err)
      case Stop(r') => Stopped(r')
      case Close(r') => Closed(r', 1)
      case Next(r') => LaterEnd(ReadHeader(r', bytes[1..], h))
  }

  /** The bytes `[offset, offset + length)` of a buffer, none when `length` is not
      positive. */
  function Slice(data: seq<Byte>, offset: int, length: int): (s: seq<Byte>)
    requires 0 <= offset && offset + (if length > 0 then length else 0) <= |data|
    ensures |s| == if length > 0 then length else 0
  {
    data[offset..offset + if length > 0 then length else 0]
  }

  /** A stretch of a buffer; a .NET array holds fewer than `int.MaxValue` bytes. */
  predicate InRange(data: seq<Byte>, offset: int, length: int) {
    0 <= offset && offset + (if length > 0 then length else 0) <= |data| < IntMax
  }

  /** `reportHeaderContent`: reads header bytes and returns where the part content
      starts: after the '\n' that closed the section, the end of the stretch when it ran
      out, or `int.MaxValue` when reading stopped. A stretch that leaves "--" in the
      buffer before any section opened ends the input. */
  function ReportHeaderContent(r: Reader, data: seq<Byte>, offset: int, length: int,
                               h: Handlers): (res: Result<(Reader, int), Error>)
    requires r.current.None? && InRange(data, offset, length)
    ensures res.Ok? ==> var (r', next) := res.value;
      && r'.boundary == r.boundary
      && r'.totalReceived == r.totalReceived && r'.completed == r.completed
      && (next == IntMax || offset <= next <= offset + (if length > 0 then length else 0))
      && (next == IntMax ==> !r'.continueDownloading)
      && (!r.continueDownloading ==> !r'.continueDownloading)
      && (offset < next < offset + length ==> data[next - 1] == 10 && r'.dispositions.None?)
      && (next < offset + length && r'.continueDownloading ==> r'.current.Some?)
  {
    var bytes := Slice(data, offset, length);
    match ReadHeader(r, bytes, h)
    case Failed(e) => Throws(e)
    case Stopped(r') => Ok((r', IntMax))
    case Closed(r', k) => Ok((r', offset + k))
    case Exhausted(r') =>
      var r'' := if r'.dispositions.None? && r'.buffer == "--" then r'.(continueDownloading := false) else r';
      Ok((r'', offset + |bytes|))
  }

  /** `reportPartContent`: header bytes first while no part is open, then whatever
      remains goes to the open part's stream; a refused write stops the download. */
  function ReportPartContent(r: Reader, data: seq<Byte>, offset: int, length: int,
                             h: Handlers): (res: Result<Reader, Error>)
    requires r.Valid() && InRange(data, offset, length)
    ensures res.Ok? ==> res.value.Valid() && res.value.boundary == r.boundary
    ensures res.Ok? ==> res.value.totalReceived == r.totalReceived && res.value.completed == r.completed
    ensures res.Ok? && !r.continueDownloading ==> !res.value.continueDownloading
  {
    var step := if r.current.None? then ReportHeaderContent(r, data, offset, length, h) else Ok((r, offset));
    match step
    case Throws(e) => Throws(e)
    case Ok((r1, next)) =>
      var remaining := offset + length - next;
      if remaining > 0 && r1.continueDownloading then
        var w := Write(r1.current.value, data[next..next + remaining], h.write);
        if w.accepted then Ok(r1.(current := Some(w.stream)))
        else Ok(r1.(current := Some(w.stream), continueDownloading := false))
      else Ok(r1)
  }

  /** `reportPartEnd`: the open part is completed and closed; without one the download
      stops. */
  function ReportPartEnd(r: Reader): (r': Reader)
    requires r.Valid()
    ensures r'.Valid() && r'.current.None? && r'.boundary == r.boundary
    ensures r'.totalReceived == r.totalReceived
    ensures r.current.None? ==> r' == r.(continueDownloading := false)
    ensures r.current.Some? ==>
              r'.completed == r.completed + [r.current.value]
              && r'.continueDownloading == r.continueDownloading
  {
    match r.current
    case None => r.(continueDownloading := false)
    case Some(p) => r.(completed := r.completed + [p], current := None)
  }

  /** `getStartingBoundary`: looks for the first boundary; with none found, more bytes in
      total than the delimiter holds stop the download. Returns where reading continues. */
  function GetStartingBoundary(m: Boundary.Matcher, r: Reader, data: seq<Byte>, offset: int, length: int): (res: (Reader, int))
    requires r.Valid() && InRange(data, offset, length)
    ensures res.0.Valid() && res.0.totalReceived == r.totalReceived && res.0.current == r.current
    ensures res.0.completed == r.completed
    ensures res.0.boundary == Boundary.Accept(m, r.boundary, data, offset, length)
    ensures res.0.hasStartingBoundary <==> r.hasStartingBoundary || res.0.boundary.IsComplete()
    ensures res.0.boundary.IsComplete() ==>
              res.1 == res.0.boundary.localEnd + 1 && res.0.continueDownloading == r.continueDownloading
    ensures !res.0.boundary.IsComplete() ==> res.1 == offset
    ensures !res.0.boundary.IsComplete() ==>
              (res.0.continueDownloading <==>
                 r.continueDownloading && r.totalReceived <= |r.boundary.delimiter|)
  {
    var b := Boundary.Accept(m, r.boundary, data, offset, length);
    if b.IsComplete() then (r.(boundary := b, hasStartingBoundary := true), b.localEnd + 1)
    else if r.totalReceived > |b.delimiter| then (r.(boundary := b, continueDownloading := false), offset)
    else (r.(boundary := b), offset)
  }

  /** The `while` loop of `acceptData`: while downloading and bytes remain, a complete
      boundary closes the part before it and the matcher looks for the next one;
      otherwise everything but the bytes under the matcher's cursor is part content. */
  function Loop(m: Boundary.Matcher, r: Reader, data: seq<Byte>, offset: int, length: int, context: int,
                h: Handlers): (res: Result<Reader, Error>)
    requires r.Valid() && 0 <= length && InRange(data, offset, length)
    requires offset <= context <= offset + length
    requires r.boundary.IsComplete() ==> offset <= r.boundary.localEnd < offset + length
    ensures res.Ok? ==> res.value.Valid() && res.value.totalReceived == r.totalReceived
    decreases if r.boundary.IsComplete() && r.boundary.localEnd < context then 1 else 0,
              offset + length - context
  {
    if !r.continueDownloading || context >= offset + length then Ok(r)
    else if r.boundary.IsComplete() then
      match ReportPartContent(r, data, context, r.boundary.LocalStart() - context, h)
      case Throws(e) => Throws(e)
      case Ok(r1) =>
        if !r1.continueDownloading then Ok(r1)
        else
          var r2 := ReportPartEnd(r1);
          var next := r2.boundary.localEnd + 1;
          var r3 := r2.(boundary := Boundary.Accept(m, r2.boundary, data, next, length + offset - next));
          Loop(m, r3, data, offset, length, next, h)
    else
      var rest := offset + length - context - r.boundary.cursor;
      ReportPartContent(r, data, context, rest, h)
  }

  /** `acceptData`: counts the bytes, finds the first boundary if it has not appeared
      yet, releases the bytes held back under the cursor when they turn out not to start
      a boundary, and runs the loop. `m` picks the boundary matcher: `SourceMatcher` gives
      the reader as written, `CorrectedMatcher` the reader over the corrected matcher. */
  function AcceptData(m: Boundary.Matcher, r: Reader, data: seq<Byte>, offset: int, length: int,
                      h: Handlers): (res: Result<Reader, Error>)
    requires r.Valid() && 0 <= length && InRange(data, offset, length)
    ensures res.Ok? ==> res.value.Valid()
    ensures res.Ok? ==> res.value.totalReceived == r.totalReceived + length
    ensures res.Ok? && !r.continueDownloading ==> !res.value.continueDownloading
  {
    var r0 := r.(totalReceived := r.totalReceived + length);
    if !r0.hasStartingBoundary then
      var (r1, context) := GetStartingBoundary(m, r0, data, offset, length);
      if !r1.continueDownloading || !r1.hasStartingBoundary then Ok(r1)
      else
        var r2 := r1.(boundary := Boundary.Accept(m, r1.boundary, data, offset, length));
        Loop(m, r2, data, offset, length, context, h)
    else
      var lastCursor := r0.boundary.cursor;
      var b := Boundary.Accept(m, r0.boundary, data, offset, length);
      var r1 := r0.(boundary := b);
      var released :=
        if lastCursor > 0 && b.LocalStart() >= 0 then ReportPartContent(r1, b.delimiter, 0, lastCursor, h)
        else Ok(r1);
      match released
      case Throws(e) => Throws(e)
      case Ok(r2) => Loop(m, r2, data, offset, length, offset, h)
  }

  // ---------------------------------------------------------------------------------
  // Header lines

  function ShiftEnd(e: HeaderEnd, k: int): (e': HeaderEnd)
    ensures !e.Closed? ==> e' == e
  {
    if e.Closed? then e.(count := e.count + k) else e
  }

  /** Reading `a + b` is reading `a` and then, while the stretch ran out, reading `b`:
      the header reader does not depend on how the bytes are chunked. */
  lemma {:induction false} ReadHeaderConcat(r: Reader, a: seq<Byte>, b: seq<Byte>, h: Handlers)
    requires r.current.None?
    ensures ReadHeader(r, a, h).Exhausted? ==>
              ReadHeader(r, a + b, h) == ShiftEnd(ReadHeader(ReadHeader(r, a, h).reader, b, h), |a|)
    ensures !ReadHeader(r, a, h).Exhausted? ==> ReadHeader(r, a + b, h) == ReadHeader(r, a, h)
    decreases |a|
  {
    if |a| == 0 {
      assert a + b == b;
    } else {
      assert (a + b)[0] == a[0];
      assert (a + b)[1..] == a[1..] + b;
      var step := HeaderByte(r, a[0], h);
      if step.Next? {
        ReadHeaderConcat(step.reader, a[1..], b, h);
      }
    }
  }

  /** Bytes that the header reader neither treats specially nor drops. */
  predicate Plain(x: Byte) { x != 13 && x != 10 && x != 58 }

  predicate AllPlain(s: seq<Byte>) { forall k :: 0 <= k < |s| ==> Plain(s[k]) }

  /** Plain bytes are buffered as characters, except whitespace at the front of an empty
      buffer. */
  lemma {:induction false} ReadPlain(r: Reader, s: seq<Byte>, h: Handlers)
    requires r.current.None?
    requires AllPlain(s)
    requires |r.buffer| == 0 && |s| > 0 ==> !IsWhiteSpace(ByteChar(s[0]))
    ensures ReadHeader(r, s, h) == Exhausted(r.(buffer := r.buffer + ByteChars(s)))
    decreases |s|
  {
    if |s| == 0 {
      assert r.buffer + ByteChars(s) == r.buffer;
    } else {
      var r' := r.(buffer := r.buffer + [ByteChar(s[0])]);
      PlainByte(r, s[0], h);
      assert AllPlain(s[1..]) by {
        forall k | 0 <= k < |s[1..]| ensures Plain(s[1..][k]) { assert s[1..][k] == s[k + 1]; }
      }
      ReadPlain(r', s[1..], h);
      BufferCons(r.buffer, s);
    }
  }

  lemma BufferCons(b: string, s: seq<Byte>)
    requires |s| > 0
    ensures b + [ByteChar(s[0])] + ByteChars(s[1..]) == b + ByteChars(s)
  {
    assert [s[0]] + s[1..] == s;
    ByteCharsConcat([s[0]], s[1..]);
  }

  /** A plain byte is buffered, unless it is whitespace and the buffer is empty. */
  lemma PlainByte(r: Reader, x: Byte, h: Handlers)
    requires r.current.None? && Plain(x)
    requires |r.buffer| == 0 ==> !IsWhiteSpace(ByteChar(x))
    ensures HeaderByte(r, x, h) == Next(r.(buffer := r.buffer + [ByteChar(x)]))
  {
  }

  /** Whitespace read into an empty buffer is dropped. */
  lemma {:induction false} SkipBlanks(r: Reader, s: seq<Byte>, h: Handlers)
    requires r.current.None? && r.buffer == ""
    requires forall k :: 0 <= k < |s| ==> Plain(s[k]) && IsWhiteSpace(ByteChar(s[k]))
    ensures ReadHeader(r, s, h) == Exhausted(r)
    decreases |s|
  {
    if |s| > 0 {
      assert HeaderByte(r, s[0], h) == Next(r);
      SkipBlanks(r, s[1..], h);
    }
  }

  /** A line of plain bytes and its '\n' read before any header section opened: the line
      "--" ends the input, an empty line opens a section, and any other line is an error
      that stops the download. */
  lemma LineBeforeSection(r: Reader, line: seq<Byte>, h: Handlers)
    requires r.current.None? && r.dispositions.None? && r.buffer == ""
    requires AllPlain(line) && (|line| > 0 ==> !IsWhiteSpace(ByteChar(line[0])))
    ensures var e := ReadHeader(r, line + [10], h);
      && (|line| == 0 ==> e == Exhausted(r.(dispositions := Some(map[]))))
      && (|line| > 0 ==> e.Stopped? && !e.reader.continueDownloading && e.reader.dispositions.None?)
      && (ByteChars(line) == "--" ==> e == Stopped(r.(continueDownloading := false)))
  {
    ReadHeaderConcat(r, line, [10], h);
    ReadPlain(r, line, h);
    var r1 := r.(buffer := ByteChars(line));
    assert r.buffer + ByteChars(line) == ByteChars(line);
  }

  /** Inside an open section, "key:" followed by blanks, a value and '\n' stores the value
      under the key. */
  lemma KeyValueLine(r: Reader, key: seq<Byte>, blanks: seq<Byte>, value: seq<Byte>, h: Handlers)
    requires r.current.None? && r.dispositions.Some? && r.buffer == ""
    requires r.dispositionKey.None?
    requires AllPlain(key) && (|key| > 0 ==> !IsWhiteSpace(ByteChar(key[0])))
    requires forall k :: 0 <= k < |blanks| ==> Plain(blanks[k]) && IsWhiteSpace(ByteChar(blanks[k]))
    requires AllPlain(value) && (|value| > 0 ==> !IsWhiteSpace(ByteChar(value[0])))
    ensures ReadHeader(r, key + [58] + blanks + value + [10], h) ==
              Exhausted(r.(dispositions := Some(r.dispositions.value[ByteChars(key) := ByteChars(value)])))
  {
    var r2 := r.(dispositionKey := Some(ByteChars(key)));
    var r4 := r.(dispositions := Some(r.dispositions.value[ByteChars(key) := ByteChars(value)]));
    ReadKeyPart(r, key, h);
    ReadValuePart(r2, blanks, value, h);
    ReadSeq(r, key + [58], blanks + value + [10], r2, r4, h);
    assert key + [58] + blanks + value + [10] == (key + [58]) + (blanks + value + [10]);
  }

  /** A key and its ':' leave the key pending. */
  lemma ReadKeyPart(r: Reader, key: seq<Byte>, h: Handlers)
    requires r.current.None? && r.buffer == ""
    requires AllPlain(key) && (|key| > 0 ==> !IsWhiteSpace(ByteChar(key[0])))
    ensures ReadHeader(r, key + [58], h) == Exhausted(r.(dispositionKey := Some(ByteChars(key))))
  {
    var r1 := r.(buffer := r.buffer + ByteChars(key));
    var r2 := r1.(dispositionKey := Some(r1.buffer), buffer := "");
    ReadPlain(r, key, h);
    ReadKey(r1, h);
    ReadSeq(r, key, [58], r1, r2, h);
    assert r.buffer + ByteChars(key) == ByteChars(key);
  }

  /** Blanks, a value and '\n' store the value under the pending key. */
  lemma ReadValuePart(r: Reader, blanks: seq<Byte>, value: seq<Byte>, h: Handlers)
    requires r.current.None? && r.dispositions.Some? && r.buffer == ""
    requires r.dispositionKey.Some?
    requires forall k :: 0 <= k < |blanks| ==> Plain(blanks[k]) && IsWhiteSpace(ByteChar(blanks[k]))
    requires AllPlain(value) && (|value| > 0 ==> !IsWhiteSpace(ByteChar(value[0])))
    ensures ReadHeader(r, blanks + value + [10], h) ==
              Exhausted(r.(dispositions := Some(r.dispositions.value[r.dispositionKey.value := ByteChars(value)]),
                           dispositionKey := None))
  {
    var r3 := r.(buffer := r.buffer + ByteChars(value));
    var r4 := r3.(buffer := "", dispositions := Some(r3.dispositions.value[r3.dispositionKey.value := r3.buffer]),
                  dispositionKey := None);
    SkipBlanks(r, blanks, h);
    ReadPlain(r, value, h);
    ReadSeq(r, blanks, value, r, r3, h);
    ReadValueEnd(r3, h);
    ReadSeq(r, blanks + value, [10], r3, r4, h);
    assert r.buffer + ByteChars(value) == ByteChars(value);
  }

  /** ':' confirms the buffered key. */
  lemma ReadKey(r: Reader, h: Handlers)
    requires r.current.None?
    ensures ReadHeader(r, [58], h) == Exhausted(r.(dispositionKey := Some(r.buffer), buffer := ""))
  {
    ReadOne(r, 58, h);
  }

  /** '\n' in an open section with a key pending stores the buffered value. */
  lemma ReadValueEnd(r: Reader, h: Handlers)
    requires r.current.None? && r.dispositions.Some? && r.dispositionKey.Some?
    ensures ReadHeader(r, [10], h) ==
              Exhausted(r.(buffer := "", dispositions := Some(r.dispositions.value[r.dispositionKey.value := r.buffer]),
                           dispositionKey := None))
  {
    ReadOne(r, 10, h);
  }

  /** A byte that keeps the reader going leaves a one-byte stretch exhausted. */
  lemma ReadOne(r: Reader, x: Byte, h: Handlers)
    requires r.current.None?
    requires HeaderByte(r, x, h).Next?
    ensures ReadHeader(r, [x], h) == Exhausted(HeaderByte(r, x, h).reader)
  {
    assert [x][0] == x && [x][1..] == [];
  }

  /** Two stretches that each run out read as one. */
  lemma ReadSeq(r: Reader, a: seq<Byte>, b: seq<Byte>, r1: Reader, r2: Reader, h: Handlers)
    requires r.current.None?
    requires ReadHeader(r, a, h) == Exhausted(r1)
    requires ReadHeader(r1, b, h) == Exhausted(r2)
    ensures ReadHeader(r, a + b, h) == Exhausted(r2)
  {
    ReadHeaderConcat(r, a, b, h);
  }

  /** An empty line inside an open section with no key pending closes the section: the
      content starts right after its '\n', the dispositions are handed to the controller,
      and a controller that gives no stream stops the download. */
  lemma EmptyLineClosesSection(r: Reader, data: seq<Byte>, offset: int, length: int, h: Handlers)
    requires r.current.None? && r.dispositions.Some? && r.buffer == ""
    requires r.dispositionKey.None?
    requires InRange(data, offset, length) && length > 0 && data[offset] == 10
    ensures var res := ReportHeaderContent(r, data, offset, length, h);
      && (res.Throws? <==> ContentDisposition !in r.dispositions.value)
      && (res.Ok? ==> res.value.1 == offset + 1 && res.value.0.dispositions.None?)
      && (res.Ok? ==> (res.value.0.continueDownloading <==>
                         r.continueDownloading && res.value.0.current.Some?))
  {
    var bytes := Slice(data, offset, length);
    assert bytes[0] == 10;
    ReadHeaderConcat(r, [10], bytes[1..], h);
    assert [10] + bytes[1..] == bytes;
  }

  /** Without a first boundary in the bytes received so far, more bytes than the
      delimiter holds stop the download with an error. */
  lemma NoStartingBoundaryStops(m: Boundary.Matcher, r: Reader, data: seq<Byte>, offset: int, length: int, h: Handlers)
    requires r.Valid() && 0 <= length && InRange(data, offset, length)
    requires !r.hasStartingBoundary
    requires !Boundary.Accept(m, r.boundary, data, offset, length).IsComplete()
    requires r.totalReceived + length > |r.boundary.delimiter|
    ensures var res := AcceptData(m, r, data, offset, length, h);
      res.Ok? && !res.value.continueDownloading && !res.value.hasStartingBoundary
  {
  }

  /** With the source's matcher the reader misses a first boundary that follows stray
      carriage returns: for an empty boundary text, the body CR CR CR LF "--" ends with
      the delimiter, yet the source's reader stops the download without a first boundary,
      where the corrected matcher finds it. */
  lemma StartingBoundaryMissedAsWritten(h: Handlers)
    ensures var data: seq<Byte> := [13, 13, 13, 10, 45, 45];
      var res := AcceptData(Boundary.SourceMatcher, New(""), data, 0, |data|, h);
      && res.Ok? && !res.value.continueDownloading && !res.value.hasStartingBoundary
      && GetStartingBoundary(Boundary.CorrectedMatcher, New(""), data, 0, |data|).0.hasStartingBoundary
  {
    SourceMissesStart(h);
    CorrectedFindsStart();
  }

  /** The source's matcher on CR CR CR LF "--": the cursor keeps falling back to 0. */
  lemma SourceMissesStart(h: Handlers)
    ensures var data: seq<Byte> := [13, 13, 13, 10, 45, 45];
      var res := AcceptData(Boundary.SourceMatcher, New(""), data, 0, |data|, h);
      res.Ok? && !res.value.continueDownloading && !res.value.hasStartingBoundary
  {
    var data: seq<Byte> := [13, 13, 13, 10, 45, 45];
    var r := New("");
    var d := r.boundary.delimiter;
    assert d == Boundary.BoundaryPrefix by {
      assert Boundary.AsciiBytes("") == [];
    }
    assert data[0..6] == data;
    assert Boundary.ScanAsWritten(d, 0, data[5..]) == Boundary.ScanEnd(0, -1);
    assert Boundary.ScanAsWritten(d, 0, data[4..]) == Boundary.ScanEnd(0, -1);
    assert Boundary.ScanAsWritten(d, 0, data[3..]) == Boundary.ScanEnd(0, -1);
    assert Boundary.ScanAsWritten(d, 1, data[2..]) == Boundary.ScanEnd(0, -1);
    assert Boundary.ScanAsWritten(d, 0, data[1..]) == Boundary.ScanEnd(0, -1);
    assert Boundary.ScanAsWritten(d, 2, data) == Boundary.ScanEnd(0, -1);
    NoStartingBoundaryStops(Boundary.SourceMatcher, r, data, 0, |data|, h);
  }

  /** The corrected matcher on CR CR CR LF "--": the delimiter ends at the last byte. */
  lemma CorrectedFindsStart()
    ensures var data: seq<Byte> := [13, 13, 13, 10, 45, 45];
      GetStartingBoundary(Boundary.CorrectedMatcher, New(""), data, 0, |data|).0.hasStartingBoundary
  {
    var data: seq<Byte> := [13, 13, 13, 10, 45, 45];
    var b := New("").boundary;
    var b' := Boundary.AcceptNext(b, data, 0, |data|);
    assert Boundary.Accept(Boundary.CorrectedMatcher, b, data, 0, |data|) == b';
    Boundary.AcceptNextFindsFirst(b, data, 0, |data|);
    DelimiterEndsAtLast(b, data);
    assert b'.IsComplete();
  }

  /** With an empty boundary text the fresh matcher has seen CR LF, so the delimiter
      CR LF "--" ends at the last byte of CR CR CR LF "--". */
  lemma DelimiterEndsAtLast(b: Boundary.Boundary, data: seq<Byte>)
    requires b == New("").boundary && data == [13, 13, 13, 10, 45, 45]
    ensures b.Valid() && Boundary.EndsAt(b.delimiter, Boundary.Context(b), Boundary.Window(data, 0, |data|), 5)
  {
    assert b.delimiter == Boundary.BoundaryPrefix by {
      assert Boundary.AsciiBytes("") == [];
    }
    var w := Boundary.Window(data, 0, |data|);
    assert w == data;
    assert Boundary.Context(b) == [13, 10];
    assert ([13, 10] + w[..6])[4..] == b.delimiter;
  }


}
