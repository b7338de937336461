/** An HTTP request as assembled by the request-head parser
    (ServeRick/Networking/HttpRequest.cs). */
module HttpRequest {
  import opened Results
  import opened Text

  /** Header names are compared ordinal-ignoring-case: the model keys the header table
      by the upper-cased name, so every spelling of one name reaches the same entry. */
  function HeaderKey(name: string): string { Upper(name) }

  datatype Request = Request(
    verb: string,
    uri: string,
    httpVersion: string,
    headers: map<string, string>,
    getVariables: map<string, string>,
    postVariables: map<string, string>,
    contentEncoding: Option<string>,
    contentLength: int,
    receivedContentBytes: int,
    headComplete: bool)
  {
    /** All bytes of the request, content included, have arrived. */
    predicate IsComplete() {
      headComplete && receivedContentBytes >= contentLength
    }
  }

  /** The constructor: method and version upper-cased, URI kept as given. */
  function NewRequest(verb: string, uri: string, version: string,
                      getVariables: map<string, string>): (r: Request)
    ensures r.verb == Upper(verb) && r.httpVersion == Upper(version)
    ensures r.uri == uri && r.getVariables == getVariables
    ensures r.headers == map[] && r.postVariables == map[]
    ensures !r.headComplete && !r.IsComplete()
  {
    Request(Upper(verb), uri, Upper(version), map[], getVariables, map[], None, 0, 0, false)
  }

  /** Outcome of `TryGetHeader`: whether the header exists and the value handed back. */
  datatype Lookup = Lookup(found: bool, value: Option<string>)

  /** `TryGetHeader`: the stored value, or `false` with the caller's default. */
  function TryGetHeader(r: Request, name: string, default: Option<string>): (l: Lookup)
    ensures l.found <==> HeaderKey(name) in r.headers
    ensures l.found ==> l.value == Some(r.headers[HeaderKey(name)])
    ensures !l.found ==> l.value == default
  {
    var key := HeaderKey(name);
    if key in r.headers then Lookup(true, Some(r.headers[key])) else Lookup(false, default)
  }

  /** `SetHeader`: stores the value under the name, replacing any earlier value for any
      spelling of the same name. Only legal while the head is still being read. */
  function SetHeader(r: Request, name: string, value: string): (r': Request)
    requires !r.headComplete
    ensures TryGetHeader(r', name, None) == Lookup(true, Some(value))
    ensures r'.headers.Keys == r.headers.Keys + {HeaderKey(name)}
    ensures r' == r.(headers := r'.headers)
  {
    r.(headers := r.headers[HeaderKey(name) := value])
  }

  /** `CompleteHead`: fixes the content encoding and length and closes the head. */
  function CompleteHead(r: Request, encoding: Option<string>, length: int): (r': Request)
    requires !r.headComplete
    ensures r'.headComplete
    ensures r'.contentEncoding == encoding && r'.contentLength == length
    ensures r'.IsComplete() <==> r.receivedContentBytes >= length
    ensures r'.headers == r.headers && r'.verb == r.verb && r'.uri == r.uri
  {
    r.(contentEncoding := encoding, contentLength := length, headComplete := true)
  }

  /** `GetPOST`: the posted value, or null when the variable was not posted. */
  function GetPost(r: Request, name: string): (v: Option<string>)
    ensures v.Some? <==> name in r.postVariables
    ensures v.Some? ==> v.value == r.postVariables[name]
  {
    if name in r.postVariables then Some(r.postVariables[name]) else None
  }

  /** `GetGET`: the query-string value, or null when absent. */
  function GetGet(r: Request, name: string): (v: Option<string>)
    ensures v.Some? <==> name in r.getVariables
    ensures v.Some? ==> v.value == r.getVariables[name]
  {
    if name in r.getVariables then Some(r.getVariables[name]) else None
  }

  /** `SetPOST`: overwrites the posted variable. */
  function SetPost(r: Request, name: string, value: string): (r': Request)
    ensures GetPost(r', name) == Some(value)
    ensures forall other :: other != name ==> GetPost(r', other) == GetPost(r, other)
    ensures r' == r.(postVariables := r'.postVariables)
  {
    r.(postVariables := r.postVariables[name := value])
  }

  /** A header set under one spelling is found under any other spelling of the same name,
      and a later `SetHeader` of any spelling replaces it. */
  lemma HeaderLookupIgnoresCase(r: Request, set1: string, get: string, value: string)
    requires !r.headComplete
    requires SameIgnoringCase(set1, get)
    ensures TryGetHeader(SetHeader(r, set1, value), get, None) == Lookup(true, Some(value))
  {
  }

  /** Case is ignored beyond ASCII: the Latin-1 spellings "\u00E9" and "\u00C9" name one
      header, and a method read as "g\u00E9t" is stored as "G\u00C9T". */
  lemma Latin1CaseIgnored(r: Request, value: string)
    requires !r.headComplete
    ensures TryGetHeader(SetHeader(r, "\U{00E9}", value), "\U{00C9}", None) == Lookup(true, Some(value))
    ensures NewRequest("g\U{00E9}t", "/", "http/1.1", map[]).verb == "G\U{00C9}T"
  {
    assert Upper("\U{00E9}") == "\U{00C9}" == Upper("\U{00C9}");
    assert Upper("g\U{00E9}t") == "G\U{00C9}T";
  }

  /** Setting a header leaves every header of a different name as it was. */
  lemma SetHeaderKeepsOthers(r: Request, name: string, value: string, other: string, d: Option<string>)
    requires !r.headComplete
    requires !SameIgnoringCase(other, name)
    ensures TryGetHeader(SetHeader(r, name, value), other, d) == TryGetHeader(r, other, d)
  {
  }

  /** Setting a header twice keeps only the later value. */
  lemma SetHeaderOverwrites(r: Request, name: string, v1: string, v2: string)
    requires !r.headComplete
    ensures SetHeader(SetHeader(r, name, v1), name, v2) == SetHeader(r, name, v2)
  {
  }
}
