/** Tokens of the parsing library (Parsing/Token.cs): a named piece of the input with a
    start and end position. A special token (an INDENT, an EOL, ...) carries no data. */
module Tokens {
  import opened Results

  datatype Token = Token(name: string, data: Option<string>, start: int, end: int) {
    predicate IsSpecial() { data.None? }

    function Length(): (n: nat)
      ensures IsSpecial() ==> n == 0
    {
      if data.None? then 0 else |data.value|
    }
  }

  datatype TokenError =
    | EndBeforeStart  // the end position wrapped around the 32-bit range
    | ChildSetTwice
    | NullChild

  /** The private constructor: the end is the start plus the data length, computed in
      32-bit arithmetic, and a wrapped end is refused. */
  function Create(name: string, data: Option<string>, start: int): (r: Result<Token, TokenError>)
    requires IntMin <= start <= IntMax
    requires data.Some? ==> |data.value| <= IntMax  // a .NET string is no longer than this
    ensures r.Ok? <==> data.None? || start + |data.value| <= IntMax
    ensures r.Ok? ==> r.value.name == name && r.value.data == data && r.value.start == start
    ensures r.Ok? ==> r.value.end == start + r.value.Length()
  {
    var end := if data.None? then start else Wrap32(start + |data.value|);
    if end < start then Throws(EndBeforeStart)
    else Ok(Token(name, data, start, end))
  }

  /** `Token.Special`: no data, zero length, ending where it starts. */
  function Special(name: string, start: int): (t: Token)
    ensures t.IsSpecial() && t.Length() == 0
    ensures t.name == name && t.start == start && t.end == start
  {
    Token(name, None, start, start)
  }

  /** A special token is what the constructor makes of a name without data. */
  lemma SpecialIsCreated(name: string, start: int)
    requires IntMin <= start <= IntMax
    ensures Create(name, None, start) == Ok(Special(name, start))
  {
  }

  /** `Token.Text` in 32-bit positions: refused when the end would pass `int.MaxValue`. */
  function Text(data: string, start: int): (r: Result<Token, TokenError>)
    requires IntMin <= start <= IntMax && |data| <= IntMax
    ensures r.Ok? <==> start + |data| <= IntMax
    ensures r.Ok? ==> r.value == TextToken(data, start)
  {
    Create("Text", Some(data), start)
  }

  /** A text token with unbounded positions, as the outliners build them. */
  function TextToken(data: string, start: int): (t: Token)
    ensures !t.IsSpecial() && t.Length() == |data|
    ensures t.name == "Text" && t.data == Some(data)
    ensures t.start == start && t.end == start + |data|
  {
    Token("Text", Some(data), start, start + |data|)
  }

  // ---------------------------------------------------------------------------------
  // Child and parent links

  /** Tokens are objects linked child to parent; the links are kept here by token
      identity. */
  datatype Links = Links(child: map<nat, nat>, parent: map<nat, nat>)

  /** Setting `Child`: refused once a child is set or for a null child; otherwise the
      child's `Parent` becomes the token. */
  function SetChild(links: Links, token: nat, child: Option<nat>): (r: Result<Links, TokenError>)
    ensures token in links.child ==> r == Throws(ChildSetTwice)
    ensures token !in links.child && child.None? ==> r == Throws(NullChild)
    ensures r.Ok? <==> token !in links.child && child.Some?
    ensures r.Ok? ==> r.value.child == links.child[token := child.value]
    ensures r.Ok? ==> r.value.parent == links.parent[child.value := token]
  {
    if token in links.child then Throws(ChildSetTwice)
    else if child.None? then Throws(NullChild)
    else Ok(Links(links.child[token := child.value], links.parent[child.value := token]))
  }

  /** A child can be set only once: the second attempt is refused whatever it sets. */
  lemma ChildSetOnce(links: Links, token: nat, c1: nat, c2: Option<nat>)
    requires token !in links.child
    ensures SetChild(links, token, Some(c1)).Ok?
    ensures SetChild(SetChild(links, token, Some(c1)).value, token, c2) == Throws(ChildSetTwice)
  {
  }
}
