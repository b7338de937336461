/** The incremental reader of an HTTP request head
    (ServeRick/Networking/HttpRequestParser.cs). Bytes arrive in chunks; each byte is
    read as a character and drives a small state machine that collects the request line
    and the `Name: value` header lines until a blank line closes the head. */
module HttpRequestParser {
  import opened Results
  import opened Text
  import opened HttpRequest

  /** The regular-expression reader of a query string (`fillGetVars`) is outside the
      model; the parser receives it as a function from query text to variables. */
  type QueryReader = string -> map<string, string>

  /** What the head reader keeps between characters. */
  datatype Head = Head(
    name: string,          // header name being read
    value: string,         // header value (or request line) being read
    readingName: bool,
    isError: bool,
    request: Option<Request>)
  {
    predicate IsHeadComplete() { request.Some? && request.value.headComplete }

    predicate IsComplete() { isError || (request.Some? && request.value.IsComplete()) }

    /** Reachable states: header names are only read once the request line exists. */
    predicate Valid() { (readingName || |name| > 0) ==> request.Some? }
  }

  /** The parser object: the head reader and the count of bytes handed to it. */
  datatype Parser = Parser(head: Head, receivedBytes: int) {
    predicate IsHeadComplete() { head.IsHeadComplete() }
    predicate IsComplete() { head.IsComplete() }
    predicate Valid() { head.Valid() }
  }

  /** A fresh parser: the first line has no header name, so it starts reading a value. */
  function Init(): (p: Parser)
    ensures p.Valid() && !p.IsHeadComplete() && !p.IsComplete()
    ensures !p.head.readingName && p.head.request.None? && p.receivedBytes == 0
  {
    Parser(Head("", "", false, false, None), 0)
  }

  /** Exceptions the head reader can raise. */
  datatype HeadError =
    | ContentLengthFormat   // `int.Parse` of the Content-length header failed
    | IndexOutOfRange       // the announced length runs past the buffer

  /** `createRequest`: the URI is cut at its first '?' when that is not the first
      character, and the rest is handed to the query reader. */
  function CreateRequest(verb: string, requestUri: string, version: string,
                         readQuery: QueryReader): (r: Request)
    ensures r.verb == Upper(verb) && r.httpVersion == Upper(version)
    ensures !r.headComplete && r.headers == map[]
    ensures IndexOf(requestUri, '?') <= 0 ==> r.uri == requestUri && r.getVariables == map[]
    ensures IndexOf(requestUri, '?') > 0 ==>
              var query := requestUri[IndexOf(requestUri, '?') + 1..];
              && r.uri + "?" + query == requestUri
              && '?' !in r.uri && |r.uri| > 0
              && r.getVariables == readQuery(query)
  {
    var dataStart := IndexOf(requestUri, '?');
    if dataStart <= 0 then NewRequest(verb, requestUri, version, map[])
    else
      assert requestUri == requestUri[..dataStart] + "?" + requestUri[dataStart + 1..];
      NewRequest(verb, requestUri[..dataStart], version, readQuery(requestUri[dataStart + 1..]))
  }

  /** `onHeaderComplete`: the first line must split on ' ' into exactly three tokens and
      creates the request; later lines store a header. See `HeaderLineOutcome`. */
  function OnHeaderComplete(h: Head, readQuery: QueryReader): (h': Head)
    requires h.Valid() && !h.IsHeadComplete()
    ensures h'.Valid() && !h'.IsHeadComplete()
    ensures h.isError ==> h'.isError
  {
    if |h.name| == 0 then
      var toks := Split(h.value, ' ');
      if |toks| != 3 then h.(isError := true)
      else
        var r := CreateRequest(toks[0], toks[1], toks[2], readQuery);
        Head("", "", true, h.isError, Some(r))
    else
      var r := SetHeader(h.request.value, h.name, h.value);
      Head("", "", true, h.isError, Some(r))
  }

  /** The three ways a completed line is handled: a request line that is not exactly
      three space-separated tokens marks the parser as failed (and complete) and keeps
      the buffered text; a well-formed one creates the request; a named line stores a
      header. In the last two cases the buffers are cleared and a name is read next. */
  lemma HeaderLineOutcome(h: Head, readQuery: QueryReader)
    requires h.Valid() && !h.IsHeadComplete()
    ensures var h' := OnHeaderComplete(h, readQuery);
      && (|h.name| == 0 && |Split(h.value, ' ')| != 3 ==>
            h' == h.(isError := true) && h'.IsComplete())
      && (|h.name| == 0 && |Split(h.value, ' ')| == 3 ==>
            var toks := Split(h.value, ' ');
            h' == Head("", "", true, h.isError,
                       Some(CreateRequest(toks[0], toks[1], toks[2], readQuery))))
      && (|h.name| > 0 ==>
            h' == Head("", "", true, h.isError,
                       Some(SetHeader(h.request.value, h.name, h.value))))
  {
  }

  /** `onHeadComplete`: closes the head with the encoding and length taken from the
      headers. See `HeadCompletionDefaults`. */
  function OnHeadComplete(h: Head): (res: Result<Head, HeadError>)
    requires h.request.Some? && !h.IsHeadComplete()
    ensures res.Ok? ==> res.value.IsHeadComplete()
    ensures res.Ok? ==> res.value == h.(request := res.value.request)
    ensures res.Throws? ==> res.error == ContentLengthFormat
  {
    var r := h.request.value;
    var encoding := TryGetHeader(r, "Content-Encoding", Some("ascii")).value;
    var length := TryGetHeader(r, "Content-length", None);
    if length.found then
      match ParseInt(length.value.value)
      case None => Throws(ContentLengthFormat)
      case Some(n) => Ok(h.(request := Some(CompleteHead(r, encoding, n))))
    else Ok(h.(request := Some(CompleteHead(r, encoding, 0))))
  }

  /** Encoding defaults to "ascii" and length to 0 when those headers are absent; a
      Content-length that `int.Parse` rejects raises its exception. */
  lemma HeadCompletionDefaults(h: Head)
    requires h.request.Some? && !h.IsHeadComplete()
    ensures var res := OnHeadComplete(h);
      var r := h.request.value;
      var encoding := TryGetHeader(r, "Content-Encoding", None);
      var length := TryGetHeader(r, "Content-length", None);
      && (res.Ok? ==> res.value.request.value.headers == r.headers)
      && (!encoding.found ==> res.Ok? ==> res.value.request.value.contentEncoding == Some("ascii"))
      && (encoding.found ==> res.Ok? ==> res.value.request.value.contentEncoding == encoding.value)
      && (!length.found ==> res.Ok? && res.value.request.value.contentLength == 0)
      && (length.found && ParseInt(length.value.value).None? ==> res == Throws(ContentLengthFormat))
      && (length.found && ParseInt(length.value.value).Some? ==>
            res.Ok? && res.value.request.value.contentLength == ParseInt(length.value.value).value)
  {
  }

  /** `colonHeadChar`: a colon ends the name, or is kept inside a value. */
  function Colon(h: Head): (h': Head)
    requires h.Valid()
    ensures h'.Valid() && h'.request == h.request && h'.isError == h.isError
    ensures h'.name == h.name && !h'.readingName
    ensures h.readingName ==> h'.value == h.value
    ensures !h.readingName ==> h'.value == h.value + [':']
  {
    if h.readingName then h.(readingName := false) else h.(value := h.value + ":")
  }

  /** `whitespaceHeadChar`: spaces never enter a name, nor the front of a value. */
  function Whitespace(h: Head): (h': Head)
    requires h.Valid()
    ensures h'.Valid() && h'.request == h.request && h'.isError == h.isError
    ensures h'.name == h.name && h'.readingName == h.readingName
    ensures h.readingName || |h.value| == 0 ==> h' == h
    ensures !h.readingName && |h.value| > 0 ==> h'.value == h.value + [' ']
  {
    if !h.readingName && |h.value| > 0 then h.(value := h.value + " ") else h
  }

  /** `contentHeadChar`: any other character extends the name or the value. */
  function Content(h: Head, c: char): (h': Head)
    requires h.Valid()
    ensures h'.Valid() && h'.request == h.request && h'.isError == h.isError
    ensures h'.readingName == h.readingName
    ensures h.readingName ==> h'.name == h.name + [c] && h'.value == h.value
    ensures !h.readingName ==> h'.value == h.value + [c] && h'.name == h.name
  {
    if h.readingName then h.(name := h.name + [c]) else h.(value := h.value + [c])
  }

  /** `newLineHeadChar`: a line ends the head exactly when it carries no name and the
      request line already exists; any other line completes the request line or a
      header. */
  function NewLine(h: Head, readQuery: QueryReader): (res: Result<Head, HeadError>)
    requires h.Valid() && !h.IsHeadComplete()
    ensures res.Ok? ==> res.value.Valid()
    ensures res.Throws? ==> res.error == ContentLengthFormat
    ensures res.Ok? ==> (res.value.IsHeadComplete() <==> |h.name| == 0 && h.request.Some?)
    ensures res.Ok? && h.isError ==> res.value.isError
  {
    if |h.name| == 0 && h.request.Some? then OnHeadComplete(h)
    else Ok(OnHeaderComplete(h, readQuery))
  }

  /** One character of the head: the switch of `appendDataToHead`; a carriage return is
      skipped. */
  function StepChar(h: Head, c: char, readQuery: QueryReader): (res: Result<Head, HeadError>)
    requires h.Valid() && !h.IsHeadComplete()
    ensures res.Ok? ==> res.value.Valid()
    ensures res.Ok? && res.value.IsHeadComplete() ==> c == '\n'
    ensures res.Throws? ==> c == '\n' && res.error == ContentLengthFormat
    ensures c == '\r' ==> res == Ok(h)
    ensures res.Ok? && h.isError ==> res.value.isError
  {
    match c
    case '\r' => Ok(h)
    case '\n' => NewLine(h, readQuery)
    case ' ' => Ok(Whitespace(h))
    case ':' => Ok(Colon(h))
    case _ => Ok(Content(h, c))
  }

  /** How a run over a stretch of head characters ends. */
  datatype RunOutcome =
    | Consumed(head: Head)                 // every character read, head still open
    | HeadDone(head: Head, count: int)     // head closed by the count-th character
    | Threw(head: Head, error: HeadError)  // exception, with the state at the throw

  function Shifted(o: RunOutcome, k: int): (o': RunOutcome)
    ensures o'.head == o.head
    ensures o'.HeadDone? <==> o.HeadDone?
    ensures o'.HeadDone? ==> o'.count == o.count + k
    ensures !o.HeadDone? ==> o' == o
  {
    if o.HeadDone? then o.(count := o.count + k) else o
  }

  /** Reads characters one by one until the head closes or an exception escapes. */
  function Run(h: Head, cs: string, readQuery: QueryReader): (o: RunOutcome)
    requires h.Valid() && !h.IsHeadComplete()
    ensures o.head.Valid()
    ensures o.Consumed? ==> !o.head.IsHeadComplete()
    ensures o.HeadDone? ==> 1 <= o.count <= |cs| && cs[o.count - 1] == '\n'
    ensures o.HeadDone? ==> o.head.IsHeadComplete()
    ensures o.Threw? ==> !o.head.IsHeadComplete() && o.error == ContentLengthFormat
    ensures h.isError ==> o.head.isError
    decreases |cs|
  {
    if |cs| == 0 then Consumed(h)
    else
      match StepChar(h, cs[0], readQuery)
      case Throws(e) => Threw(h, e)
      case Ok(h') =>
        if cs[0] == '\n' && h'.IsHeadComplete() then HeadDone(h', 1)
        else Shifted(Run(h', cs[1..], readQuery), 1)
  }

  /** Reading `a + b` is reading `a` and then, if the head is still open, reading `b`:
      the head reader does not depend on how the input is chunked. */
  lemma {:induction false} RunConcat(h: Head, a: string, b: string, readQuery: QueryReader)
    requires h.Valid() && !h.IsHeadComplete()
    ensures Run(h, a, readQuery).Consumed? ==>
              Run(h, a + b, readQuery) == Shifted(Run(Run(h, a, readQuery).head, b, readQuery), |a|)
    ensures !Run(h, a, readQuery).Consumed? ==> Run(h, a + b, readQuery) == Run(h, a, readQuery)
    decreases |a|
  {
    if |a| > 0 {
      assert (a + b)[0] == a[0];
      assert (a + b)[1..] == a[1..] + b;
      match StepChar(h, a[0], readQuery)
      case Throws(e) =>
      case Ok(h') =>
        if !(a[0] == '\n' && h'.IsHeadComplete()) {
          RunConcat(h', a[1..], b, readQuery);
        }
    } else {
      assert a + b == b;
    }
  }

  /** The outcome of reading `c` as the `at`-th character of a run. */
  function After(h: Head, c: char, readQuery: QueryReader, at: int): RunOutcome
    requires h.Valid() && !h.IsHeadComplete()
  {
    var step := StepChar(h, c, readQuery);
    if step.Throws? then Threw(h, step.error)
    else if c == '\n' && step.value.IsHeadComplete() then HeadDone(step.value, at)
    else Consumed(step.value)
  }

  /** Reading a single character. */
  lemma RunSingle(h: Head, c: char, readQuery: QueryReader)
    requires h.Valid() && !h.IsHeadComplete()
    ensures Run(h, [c], readQuery) == After(h, c, readQuery, 1)
  {
    assert [c][0] == c && [c][1..] == [];
  }

  /** Reading one more character after a stretch that left the head open. */
  lemma RunSnoc(h: Head, a: string, c: char, readQuery: QueryReader, cur: Head)
    requires h.Valid() && !h.IsHeadComplete()
    requires Run(h, a, readQuery) == Consumed(cur)
    ensures cur.Valid() && !cur.IsHeadComplete()
    ensures Run(h, a + [c], readQuery) == After(cur, c, readQuery, |a| + 1)
  {
    RunConcat(h, a, [c], readQuery);
    assert Run(h, a, readQuery).head == cur;
    assert Run(h, a + [c], readQuery) == Shifted(Run(cur, [c], readQuery), |a|);
    RunSingle(cur, c, readQuery);
    ShiftedAfter(cur, c, readQuery, |a|);
  }

  lemma ShiftedAfter(h: Head, c: char, readQuery: QueryReader, k: int)
    requires h.Valid() && !h.IsHeadComplete()
    ensures Shifted(After(h, c, readQuery, 1), k) == After(h, c, readQuery, k + 1)
  {
  }

  /** Once the head has closed or an exception escaped, later characters are not read. */
  lemma RunStops(h: Head, a: string, b: string, readQuery: QueryReader)
    requires h.Valid() && !h.IsHeadComplete()
    requires !Run(h, a, readQuery).Consumed?
    ensures Run(h, a + b, readQuery) == Run(h, a, readQuery)
  {
    RunConcat(h, a, b, readQuery);
  }

  /** The result of `AppendData` and of `appendDataToHead`, over the parser or its head. */
  datatype Outcome<S> =
    | Returned(state: S, offset: int)
    | Failed(state: S, error: HeadError)

  function Min(a: int, b: int): int { if a < b then a else b }

  /** `appendDataToHead`: returns the offset just past the '\n' that closed the head, or
      the given length when every byte went into the head; reading past the buffer
      raises the index exception after the bytes before it were read. */
  function AppendDataToHead(h: Head, buffer: seq<Byte>, length: int,
                            readQuery: QueryReader): (o: Outcome<Head>)
    requires h.Valid() && !h.IsHeadComplete()
    ensures o.state.Valid()
    ensures o.Returned? && o.state.IsHeadComplete() ==>
              1 <= o.offset <= length && o.offset <= |buffer| && buffer[o.offset - 1] == 10
    ensures o.Returned? && !o.state.IsHeadComplete() ==> o.offset == length
    ensures o.Failed? && o.error == IndexOutOfRange ==> length > |buffer|
    ensures o.Failed? ==> !o.state.IsHeadComplete()
  {
    if length <= 0 then Returned(h, length)
    else
      var cs := ByteChars(buffer[..Min(length, |buffer|)]);
      match Run(h, cs, readQuery)
      case Consumed(h') => if length > |buffer| then Failed(h', IndexOutOfRange) else Returned(h', length)
      case HeadDone(h', k) =>
        assert cs[k - 1] == ByteChar(buffer[k - 1]);
        Returned(h', k)
      case Threw(h', e) => Failed(h', e)
  }

  /** `AppendData`: a null buffer is ignored; otherwise the received-byte counter (a C#
      `int`) grows by the announced length, and bytes are read into the head only while
      it is open. */
  function AppendData(p: Parser, buffer: Option<seq<Byte>>, inputLength: int,
                      readQuery: QueryReader): (o: Outcome<Parser>)
    requires p.Valid()
    ensures buffer.None? ==> o == Returned(p, 0)
    ensures buffer.Some? ==> o.state.receivedBytes == Wrap32(p.receivedBytes + inputLength)
    ensures buffer.Some? && p.IsHeadComplete() ==>
              o == Returned(p.(receivedBytes := Wrap32(p.receivedBytes + inputLength)), 0)
    ensures o.state.Valid()
  {
    match buffer
    case None => Returned(p, 0)
    case Some(bytes) =>
      var received := Wrap32(p.receivedBytes + inputLength);
      if p.IsHeadComplete() then Returned(p.(receivedBytes := received), 0)
      else
        match AppendDataToHead(p.head, bytes, inputLength, readQuery)
        case Returned(h, k) => Returned(Parser(h, received), k)
        case Failed(h, e) => Failed(Parser(h, received), e)
  }

  /** The received-byte counter of two successive calls is the wrapped sum of both
      announced lengths, whatever the head reader did in between. */
  lemma ReceivedBytesAccumulate(p: Parser, b1: seq<Byte>, n1: int, b2: seq<Byte>, n2: int,
                                readQuery: QueryReader)
    requires p.Valid()
    ensures var p1 := AppendData(p, Some(b1), n1, readQuery).state;
      AppendData(p1, Some(b2), n2, readQuery).state.receivedBytes
        == Wrap32(p.receivedBytes + n1 + n2)
  {
    Wrap32Add(p.receivedBytes, n1, n2);
  }

  /** `AppendDataToHead` read through the outcome of `Run` on the bytes it covers. */
  lemma AppendDataToHeadByRun(h: Head, buffer: seq<Byte>, length: int, readQuery: QueryReader)
    requires h.Valid() && !h.IsHeadComplete()
    requires length > 0
    ensures
      var o := Run(h, ByteChars(buffer[..Min(length, |buffer|)]), readQuery);
      AppendDataToHead(h, buffer, length, readQuery) ==
        match o
        case Consumed(h') => if length > |buffer| then Failed(h', IndexOutOfRange) else Returned(h', length)
        case HeadDone(h', k) => Returned(h', k)
        case Threw(h', e) => Failed(h', e)
  {
  }

  /** What reading the character after an open prefix does to the run of the whole text:
      it throws, closes the head, or leaves the longer prefix open. */
  lemma RunNext(h: Head, cs: string, i: int, cur: Head, readQuery: QueryReader)
    requires h.Valid() && !h.IsHeadComplete() && 0 <= i < |cs|
    requires Run(h, cs[..i], readQuery) == Consumed(cur)
    ensures cur.Valid() && !cur.IsHeadComplete()
    ensures var o := After(cur, cs[i], readQuery, i + 1);
      && (o.Consumed? ==> Run(h, cs[..i + 1], readQuery) == o)
      && (!o.Consumed? ==> Run(h, cs, readQuery) == o)
  {
    PrefixSnoc(cs, i);
    RunSnoc(h, cs[..i], cs[i], readQuery, cur);
    if !After(cur, cs[i], readQuery, i + 1).Consumed? {
      RunStops(h, cs[..i + 1], cs[i + 1..], readQuery);
      SplitAt(cs, i + 1);
    }
  }

  /** The loop of `appendDataToHead`, byte by byte, agrees with `AppendDataToHead`. */
  method AppendDataToHeadLoop(h: Head, buffer: seq<Byte>, length: int, readQuery: QueryReader)
    returns (o: Outcome<Head>)
    requires h.Valid() && !h.IsHeadComplete()
    ensures o == AppendDataToHead(h, buffer, length, readQuery)
  {
    if length <= 0 {
      return Returned(h, length);
    }
    ghost var cs := ByteChars(buffer[..Min(length, |buffer|)]);
    AppendDataToHeadByRun(h, buffer, length, readQuery);
    var cur := h;
    var i := 0;
    while i < length
      invariant 0 <= i <= |cs|
      invariant cur.Valid() && !cur.IsHeadComplete()
      invariant Run(h, cs[..i], readQuery) == Consumed(cur)
      decreases length - i
    {
      if i >= |buffer| {
        assert cs[..i] == cs;
        return Failed(cur, IndexOutOfRange);
      }
      var c := ByteChar(buffer[i]);
      assert cs[i] == c;
      RunNext(h, cs, i, cur, readQuery);
      var step := StepChar(cur, c, readQuery);
      if step.Throws? {
        return Failed(cur, step.error);
      }
      if c == '\n' && step.value.IsHeadComplete() {
        return Returned(step.value, i + 1);
      }
      cur := step.value;
      i := i + 1;
    }
    assert cs[..i] == cs;
    return Returned(cur, length);
  }

  /** Characters that the head reader treats specially. */
  predicate Plain(c: char) { c != '\r' && c != '\n' && c != ' ' && c != ':' }

  /** While a name is being read, ordinary characters extend it. */
  lemma {:induction false} ReadName(h: Head, s: string, readQuery: QueryReader)
    requires h.Valid() && !h.IsHeadComplete() && h.readingName
    requires forall k :: 0 <= k < |s| ==> Plain(s[k])
    ensures Run(h, s, readQuery) == Consumed(h.(name := h.name + s))
    decreases |s|
  {
    if |s| > 0 {
      var h' := h.(name := h.name + [s[0]]);
      assert StepChar(h, s[0], readQuery) == Ok(h');
      ReadName(h', s[1..], readQuery);
      assert h.name + [s[0]] + s[1..] == h.name + s;
    } else {
      assert h.name + s == h.name;
    }
  }

  /** While a value is being read, every character but line breaks is kept, except a space
      at the very front. */
  lemma {:induction false} ReadValue(h: Head, s: string, readQuery: QueryReader)
    requires h.Valid() && !h.IsHeadComplete() && !h.readingName
    requires forall k :: 0 <= k < |s| ==> s[k] != '\r' && s[k] != '\n'
    requires |s| > 0 && |h.value| == 0 ==> s[0] != ' '
    ensures Run(h, s, readQuery) == Consumed(h.(value := h.value + s))
    decreases |s|
  {
    if |s| > 0 {
      var h' := h.(value := h.value + [s[0]]);
      assert StepChar(h, s[0], readQuery) == Ok(h');
      ReadValue(h', s[1..], readQuery);
      assert h.value + [s[0]] + s[1..] == h.value + s;
    } else {
      assert h.value + s == h.value;
    }
  }

  /** Two stretches that each leave the head open read as one. */
  lemma RunSeq(h: Head, a: string, b: string, h1: Head, h2: Head, readQuery: QueryReader)
    requires h.Valid() && !h.IsHeadComplete()
    requires Run(h, a, readQuery) == Consumed(h1)
    requires h1.Valid() && !h1.IsHeadComplete()
    requires Run(h1, b, readQuery) == Consumed(h2)
    ensures Run(h, a + b, readQuery) == Consumed(h2)
  {
    RunConcat(h, a, b, readQuery);
  }

  /** ": " after a name switches to the value and drops the space. */
  lemma ColonSpace(h: Head, readQuery: QueryReader)
    requires h.Valid() && !h.IsHeadComplete() && h.readingName && h.value == ""
    ensures Run(h, ": ", readQuery) == Consumed(h.(readingName := false))
  {
    RunConcat(h, ":", " ", readQuery);
    RunSingle(h, ':', readQuery);
    RunSingle(h.(readingName := false), ' ', readQuery);
  }

  /** CR LF completes the line being read. */
  lemma LineBreak(h: Head, readQuery: QueryReader)
    requires h.Valid() && !h.IsHeadComplete()
    requires |h.name| > 0 || h.request.None?
    ensures Run(h, "\r\n", readQuery) == Consumed(OnHeaderComplete(h, readQuery))
  {
    RunConcat(h, "\r", "\n", readQuery);
    RunSingle(h, '\r', readQuery);
    RunSingle(h, '\n', readQuery);
  }

  /** A header line `Name: value` followed by CR LF stores the value under the name. */
  lemma HeaderLine(h: Head, name: string, value: string, readQuery: QueryReader)
    requires h.Valid() && !h.IsHeadComplete() && h.readingName
    requires h.name == "" && h.value == ""
    requires |name| > 0 && forall k :: 0 <= k < |name| ==> Plain(name[k])
    requires forall k :: 0 <= k < |value| ==> value[k] != '\r' && value[k] != '\n'
    requires |value| > 0 ==> value[0] != ' '
    ensures Run(h, name + ": " + value + "\r\n", readQuery) ==
              Consumed(Head("", "", true, h.isError, Some(SetHeader(h.request.value, name, value))))
  {
    var h1 := h.(name := name);
    var h2 := h1.(readingName := false);
    var h3 := h2.(value := value);
    ReadName(h, name, readQuery);
    assert h.name + name == name;
    ColonSpace(h1, readQuery);
    ReadValue(h2, value, readQuery);
    assert h2.value + value == value;
    LineBreak(h3, readQuery);
    HeaderLineOutcome(h3, readQuery);
    var h4 := OnHeaderComplete(h3, readQuery);
    RunSeq(h2, value, "\r\n", h3, h4, readQuery);
    RunSeq(h1, ": ", value + "\r\n", h2, h4, readQuery);
    RunSeq(h, name, ": " + (value + "\r\n"), h1, h4, readQuery);
    Assoc4(name, ": ", value, "\r\n");
  }

  /** The request line followed by CR LF is split into method, URI and version; any
      other shape marks the parser as failed. */
  lemma RequestLine(line: string, readQuery: QueryReader)
    requires forall k :: 0 <= k < |line| ==> line[k] != '\r' && line[k] != '\n'
    requires |line| > 0 ==> line[0] != ' '
    ensures var toks := Split(line, ' ');
      var o := Run(Init().head, line + "\r\n", readQuery);
      && o.Consumed?
      && (|toks| == 3 ==>
            o.head == Head("", "", true, false, Some(CreateRequest(toks[0], toks[1], toks[2], readQuery))))
      && (|toks| != 3 ==> o.head.isError && o.head.IsComplete() && o.head.request.None?)
  {
    var h := Init().head;
    ReadValue(h, line, readQuery);
    assert h.value + line == line;
    var h1 := h.(value := line);
    LineBreak(h1, readQuery);
    HeaderLineOutcome(h1, readQuery);
    RunSeq(h, line, "\r\n", h1, OnHeaderComplete(h1, readQuery), readQuery);
  }

  /** An empty line after the request line closes the head, two characters in. */
  lemma BlankLine(h: Head, readQuery: QueryReader)
    requires h.Valid() && !h.IsHeadComplete()
    requires h.name == "" && h.request.Some?
    ensures var o := Run(h, "\r\n", readQuery);
      var closed := OnHeadComplete(h);
      && (closed.Ok? ==> o == HeadDone(closed.value, 2))
      && (closed.Throws? ==> o == Threw(h, closed.error))
  {
    RunConcat(h, "\r", "\n", readQuery);
    RunSingle(h, '\r', readQuery);
    RunSingle(h, '\n', readQuery);
  }
}
