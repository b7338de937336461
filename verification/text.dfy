/** String helpers of the .NET base library that the server relies on,
    defined over `seq<char>` (a Dafny `string`). */
module Text {
  import opened Results

  /** A C# `byte`. */
  type Byte = b: int | 0 <= b < 256

  /** A byte read as a character by the `(char)b` cast: the code point with the same value. */
  function ByteChar(b: Byte): (c: char)
    ensures c as int == b
  {
    b as char
  }

  /** Byte-by-byte `(char)` conversion of a buffer. */
  function ByteChars(bs: seq<Byte>): (s: string)
    ensures |s| == |bs|
    ensures forall k :: 0 <= k < |bs| ==> s[k] == ByteChar(bs[k])
  {
    seq(|bs|, k requires 0 <= k < |bs| => ByteChar(bs[k]))
  }

  /** `char.IsWhiteSpace`: the Unicode separator characters and the C0/C1 spacing controls. */
  predicate IsWhiteSpace(c: char) {
    c == ' ' || ('\t' <= c <= '\r') || c == '\U{85}' || c == '\U{A0}' || c == '\U{1680}'
    || ('\U{2000}' <= c <= '\U{200A}') || c == '\U{2028}' || c == '\U{2029}'
    || c == '\U{202F}' || c == '\U{205F}' || c == '\U{3000}'
  }

  /** Index of the first occurrence of `c`, or -1 (`String.IndexOf(char)`). */
  function IndexOf(s: string, c: char): (i: int)
    ensures -1 <= i < |s|
    ensures i == -1 <==> c !in s
    ensures 0 <= i ==> s[i] == c && c !in s[..i]
  {
    if |s| == 0 then -1
    else if s[0] == c then 0
    else
      var j := IndexOf(s[1..], c);
      assert s[1..][..if j < 0 then 0 else j] == s[1..1 + if j < 0 then 0 else j];
      if j < 0 then -1 else j + 1
  }

  /** `String.Split(char)`: the pieces between separators, empty pieces included. */
  function Split(s: string, sep: char): (parts: seq<string>)
    ensures |parts| >= 1
    ensures forall k :: 0 <= k < |parts| ==> sep !in parts[k]
    decreases |s|
  {
    var i := IndexOf(s, sep);
    if i < 0 then [s] else [s[..i]] + Split(s[i + 1..], sep)
  }

  /** `String.Join(char, parts)`. */
  function Join(sep: char, parts: seq<string>): string
    requires |parts| >= 1
  {
    if |parts| == 1 then parts[0] else parts[0] + [sep] + Join(sep, parts[1..])
  }

  /** Joining the pieces of a split gives the original text back. */
  lemma {:induction false} JoinSplit(s: string, sep: char)
    ensures Join(sep, Split(s, sep)) == s
    decreases |s|
  {
    var i := IndexOf(s, sep);
    if i >= 0 {
      JoinSplit(s[i + 1..], sep);
      JoinCons(sep, s[..i], Split(s[i + 1..], sep));
      CutAround(s, i);
    }
  }

  lemma JoinCons(sep: char, head: string, rest: seq<string>)
    requires |rest| >= 1
    ensures Join(sep, [head] + rest) == head + [sep] + Join(sep, rest)
  {
    assert ([head] + rest)[1..] == rest;
  }

  lemma CutAround<T>(s: seq<T>, i: int)
    requires 0 <= i < |s|
    ensures s[..i] + [s[i]] + s[i + 1..] == s
  {
  }

  /** Splitting a join of separator-free pieces gives the pieces back. */
  lemma {:induction false} SplitJoin(parts: seq<string>, sep: char)
    requires |parts| >= 1
    requires forall k :: 0 <= k < |parts| ==> sep !in parts[k]
    ensures Split(Join(sep, parts), sep) == parts
  {
    if |parts| > 1 {
      var rest := Join(sep, parts[1..]);
      SplitJoin(parts[1..], sep);
      SplitAfterFreePrefix(parts[0], sep, rest);
      assert [parts[0]] + parts[1..] == parts;
    }
  }

  /** A text that starts with a separator-free piece and a separator splits there. */
  lemma SplitAfterFreePrefix(p: string, sep: char, rest: string)
    requires sep !in p
    ensures Split(p + [sep] + rest, sep) == [p] + Split(rest, sep)
  {
    var s := p + [sep] + rest;
    assert s[|p|] == sep;
    assert s[..|p|] == p;
    assert s[|p| + 1..] == rest;
  }

  /** The text with every leading character of `chars` removed (`String.TrimStart(chars)`). */
  function TrimStart(s: string, chars: set<char>): (r: string)
    ensures |r| <= |s| && r == s[|s| - |r|..]
    ensures |r| > 0 ==> r[0] !in chars
    ensures forall k :: 0 <= k < |s| - |r| ==> s[k] in chars
  {
    if |s| > 0 && s[0] in chars then TrimStart(s[1..], chars) else s
  }

  /** A lower-case letter of the Latin-1 range: `a`-`z`, and U+00E0-U+00FE except the
      division sign U+00F7. */
  predicate IsLowerLatin1(c: char) {
    ('a' <= c <= 'z') || ('\U{00E0}' <= c <= '\U{00FE}' && c != '\U{00F7}')
  }

  /** Upper-casing of one character by the invariant simple case mapping
      (`char.ToUpperInvariant`) on the Latin-1 range, where request text comes from: each
      lower-case letter moves down by 0x20, and U+00FF goes to U+0178. */
  function UpperChar(c: char): (u: char)
    ensures IsLowerLatin1(c) ==> u as int == c as int - 0x20 && !IsLowerLatin1(u)
    ensures c == '\U{00FF}' ==> u == '\U{0178}'
    ensures !IsLowerLatin1(c) && c != '\U{00FF}' ==> u == c
  {
    if IsLowerLatin1(c) then (c as int - 0x20) as char
    else if c == '\U{00FF}' then '\U{0178}'
    else c
  }

  /** Upper-casing of a text (`String.ToUpper`, invariant casing) on the Latin-1 range. */
  function Upper(s: string): (r: string)
    ensures |r| == |s|
    ensures forall k :: 0 <= k < |s| ==> r[k] == UpperChar(s[k])
  {
    seq(|s|, k requires 0 <= k < |s| => UpperChar(s[k]))
  }

  /** Two names are equal under `StringComparer.OrdinalIgnoreCase`. */
  predicate SameIgnoringCase(a: string, b: string) {
    Upper(a) == Upper(b)
  }

  lemma UpperIdempotent(s: string)
    ensures Upper(Upper(s)) == Upper(s)
  {
  }

  /** `s` occurs inside `t` (`String.Contains`). */
  predicate Contains(t: string, s: string) {
    exists i | 0 <= i <= |t| - |s| :: OccursAt(t, s, i)
  }

  predicate OccursAt(t: string, s: string, i: int) {
    0 <= i <= |t| - |s| && t[i..i + |s|] == s
  }

  /** Characters accepted as surrounding blanks by `int.Parse`. */
  predicate IsParseBlank(c: char) { c == ' ' || ('\t' <= c <= '\r') }

  predicate IsDigit(c: char) { '0' <= c <= '9' }

  function DigitValue(c: char): (d: nat)
    requires IsDigit(c)
    ensures d < 10
  {
    c as int - '0' as int
  }

  /** Decimal value of a digit string, most significant digit first. */
  /** Every character is a decimal digit. */
  predicate AllDigits(ds: string) {
    |ds| == 0 || (IsDigit(ds[|ds| - 1]) && AllDigits(ds[..|ds| - 1]))
  }

  function DigitsValue(ds: string): (v: nat)
    requires AllDigits(ds)
  {
    if |ds| == 0 then 0 else DigitsValue(ds[..|ds| - 1]) * 10 + DigitValue(ds[|ds| - 1])
  }

  /** Decimal digits of a natural number, without leading zeros ("0" for zero). */
  function NatToDigits(n: nat): (ds: string)
    ensures |ds| >= 1
    ensures AllDigits(ds) && IsDigit(ds[0])
    ensures DigitsValue(ds) == n
  {
    var last := [('0' as int + n % 10) as char];
    if n < 10 then last
    else
      var init := NatToDigits(n / 10);
      assert (init + last)[..|init + last| - 1] == init;
      init + last
  }

  /** `int.ToString()` with the invariant culture. */
  function IntToString(n: int): (s: string)
    ensures |s| >= 1
  {
    if n < 0 then "-" + NatToDigits(-n) else NatToDigits(n)
  }

  function TrimBlanks(s: string): string {
    if |s| > 0 && IsParseBlank(s[0]) then TrimBlanks(s[1..])
    else if |s| > 0 && IsParseBlank(s[|s| - 1]) then TrimBlanks(s[..|s| - 1])
    else s
  }

  /** `int.Parse(s)`: optional surrounding blanks, an optional sign, one or more decimal
      digits; `None` where .NET throws a format or overflow exception. */
  function ParseInt(s: string): (r: Option<int>)
    ensures r.Some? ==> IntMin <= r.value <= IntMax
  {
    var t := TrimBlanks(s);
    var neg := |t| > 0 && t[0] == '-';
    var body := if |t| > 0 && (t[0] == '-' || t[0] == '+') then t[1..] else t;
    if |body| == 0 || !AllDigits(body) then None
    else
      var v: int := if neg then 0 - DigitsValue(body) as int else DigitsValue(body);
      if IntMin <= v <= IntMax then Some(v) else None
  }

  /** Printing a C# `int` and parsing it back gives the same number. */
  lemma ParseIntToString(n: int)
    requires IntMin <= n <= IntMax
    ensures ParseInt(IntToString(n)) == Some(n)
  {
    var s := IntToString(n);
    assert TrimBlanks(s) == s by {
      assert !IsParseBlank(s[0]) && !IsParseBlank(s[|s| - 1]);
    }
  }

  /** A sequence is its prefix followed by its suffix. */
  lemma SplitAt<T>(s: seq<T>, i: int)
    requires 0 <= i <= |s|
    ensures s[..i] + s[i..] == s
  {
  }

  /** Extending a prefix by one element. */
  lemma PrefixSnoc<T>(s: seq<T>, i: int)
    requires 0 <= i < |s|
    ensures s[..i + 1] == s[..i] + [s[i]]
  {
  }

  lemma TakeSnoc<T>(s: seq<T>, x: T)
    ensures (s + [x])[..|s|] == s && (s + [x])[|s|] == x
  {
  }

  lemma ByteCharsConcat(a: seq<Byte>, b: seq<Byte>)
    ensures ByteChars(a + b) == ByteChars(a) + ByteChars(b)
  {
  }

  lemma Assoc4<T>(a: seq<T>, b: seq<T>, c: seq<T>, d: seq<T>)
    ensures a + b + c + d == a + (b + (c + d))
  {
  }
}
