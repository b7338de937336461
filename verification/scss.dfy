/** The output side of the SCSS compiler: the selector list of a rule
    (ServeRick/Languages/SCSS/SpecifierList.cs) and a rendered CSS block
    (ServeRick/Languages/SCSS/CssBlock.cs). */
module Scss {
  import opened Text

  /** A `SpecifierList`: the selectors in the order they were added. */
  datatype SpecifierList = SpecifierList(specifiers: seq<string>)

  /** `Add`: the selector goes last. */
  function Add(l: SpecifierList, specifier: string): (r: SpecifierList)
    ensures |r.specifiers| == |l.specifiers| + 1 && r.specifiers[|l.specifiers|] == specifier
    ensures r.specifiers[..|l.specifiers|] == l.specifiers
  {
    SpecifierList(l.specifiers + [specifier])
  }

  /** One parent selector followed, after a space, by each of the own selectors. */
  function Prefixed(prefix: string, suffixes: seq<string>): (r: seq<string>)
    ensures |r| == |suffixes| && forall j :: 0 <= j < |suffixes| ==> r[j] == prefix + " " + suffixes[j]
  {
    seq(|suffixes|, j requires 0 <= j < |suffixes| => prefix + " " + suffixes[j])
  }

  /** The selectors the two nested loops of `SetParent` build, parent-major. */
  function Cross(prefixes: seq<string>, suffixes: seq<string>): seq<string>
    decreases |prefixes|
  {
    if |prefixes| == 0 then [] else Cross(prefixes[..|prefixes| - 1], suffixes) + Prefixed(prefixes[|prefixes| - 1], suffixes)
  }

  lemma {:induction false} CrossLength(prefixes: seq<string>, suffixes: seq<string>)
    ensures |Cross(prefixes, suffixes)| == |prefixes| * |suffixes|
    decreases |prefixes|
  {
    if |prefixes| > 0 {
      CrossLength(prefixes[..|prefixes| - 1], suffixes);
      assert (|prefixes| - 1) * |suffixes| + |suffixes| == |prefixes| * |suffixes|;
    }
  }

  /** The position of the pair (`i`, `j`) in a parent-major list with `n` own selectors
      per parent. */
  function Slot(i: int, j: int, n: int): int {
    i * n + j
  }

  /** Entry `i * n + j` of the cross product joins the `i`-th parent with the `j`-th own
      selector. */
  lemma {:induction false} CrossEntry(prefixes: seq<string>, suffixes: seq<string>, i: int, j: int)
    requires 0 <= i < |prefixes| && 0 <= j < |suffixes|
    ensures 0 <= Slot(i, j, |suffixes|) < |Cross(prefixes, suffixes)|
    ensures Cross(prefixes, suffixes)[Slot(i, j, |suffixes|)] == prefixes[i] + " " + suffixes[j]
    decreases |prefixes|
  {
    var n := |suffixes|;
    var m := |prefixes| - 1;
    var front := prefixes[..m];
    CrossLength(prefixes, suffixes);
    CrossLength(front, suffixes);
    RowBound(i, j, |prefixes|, n);
    if i < m {
      CrossEntry(front, suffixes, i, j);
      assert front[i] == prefixes[i];
    } else {
      assert i * n == m * n;
    }
  }

  lemma RowBound(i: int, j: int, rows: int, n: int)
    requires 0 <= i < rows && 0 <= j < n
    ensures 0 <= Slot(i, j, n) < rows * n
  {
    assert i * n <= (rows - 1) * n;
  }

  /** `SetParent`: every parent selector, space, own selector, parent-major. */
  method SetParent(l: SpecifierList, parent: SpecifierList) returns (r: SpecifierList)
    ensures r.specifiers == Cross(parent.specifiers, l.specifiers)
  {
    var newSpecifiers := [];
    var i := 0;
    while i < |parent.specifiers|
      invariant 0 <= i <= |parent.specifiers|
      invariant newSpecifiers == Cross(parent.specifiers[..i], l.specifiers)
    {
      var prefix := parent.specifiers[i];
      var j := 0;
      while j < |l.specifiers|
        invariant 0 <= j <= |l.specifiers|
        invariant newSpecifiers == Cross(parent.specifiers[..i], l.specifiers) + Prefixed(prefix, l.specifiers[..j])
      {
        newSpecifiers := newSpecifiers + [prefix + " " + l.specifiers[j]];
        j := j + 1;
      }
      assert l.specifiers[..j] == l.specifiers;
      assert parent.specifiers[..i + 1][..i] == parent.specifiers[..i];
      i := i + 1;
    }
    assert parent.specifiers[..i] == parent.specifiers;
    r := SpecifierList(newSpecifiers);
  }

  lemma CrossEntries(prefixes: seq<string>, suffixes: seq<string>)
    ensures forall i, j :: 0 <= i < |prefixes| && 0 <= j < |suffixes| ==>
      0 <= Slot(i, j, |suffixes|) < |Cross(prefixes, suffixes)|
      && Cross(prefixes, suffixes)[Slot(i, j, |suffixes|)] == prefixes[i] + " " + suffixes[j]
  {
    forall i, j | 0 <= i < |prefixes| && 0 <= j < |suffixes|
      ensures 0 <= Slot(i, j, |suffixes|) < |Cross(prefixes, suffixes)|
      ensures Cross(prefixes, suffixes)[Slot(i, j, |suffixes|)] == prefixes[i] + " " + suffixes[j]
    {
      CrossEntry(prefixes, suffixes, i, j);
    }
  }

  /** Nested selectors: an empty parent list leaves no selector, there is one selector
      per pair of parent and own selector, and entry `i * n + j` joins the `i`-th parent
      selector, a space and the `j`-th own selector. */
  lemma SetParentMeaning(l: SpecifierList, parent: SpecifierList)
    ensures |parent.specifiers| == 0 ==> Cross(parent.specifiers, l.specifiers) == []
    ensures |Cross(parent.specifiers, l.specifiers)| == |parent.specifiers| * |l.specifiers|
    ensures forall i, j :: 0 <= i < |parent.specifiers| && 0 <= j < |l.specifiers| ==>
      0 <= Slot(i, j, |l.specifiers|) < |Cross(parent.specifiers, l.specifiers)|
      && Cross(parent.specifiers, l.specifiers)[Slot(i, j, |l.specifiers|)]
        == parent.specifiers[i] + " " + l.specifiers[j]
  {
    CrossLength(parent.specifiers, l.specifiers);
    CrossEntries(parent.specifiers, l.specifiers);
  }

  /** `ToCSS`: the selectors joined by commas; `string.Join` of nothing is empty. */
  function SpecifiersToCss(l: SpecifierList): (css: string)
    ensures |l.specifiers| == 0 ==> css == ""
    ensures |l.specifiers| == 1 ==> css == l.specifiers[0]
  {
    if |l.specifiers| == 0 then "" else Join(',', l.specifiers)
  }

  /** Selectors without commas can be read back from the rendered list. */
  lemma SpecifiersRoundTrip(l: SpecifierList)
    requires |l.specifiers| > 0
    requires forall k :: 0 <= k < |l.specifiers| ==> ',' !in l.specifiers[k]
    ensures Split(SpecifiersToCss(l), ',') == l.specifiers
  {
    SplitJoin(l.specifiers, ',');
  }

  /** A `CssBlock`: its head (the rendered selectors, fixed at construction) and its
      definitions in the order they were added. */
  datatype CssBlock = CssBlock(head: string, specifiers: SpecifierList, definitions: seq<string>)

  function NewBlock(specifiers: SpecifierList): (b: CssBlock)
    ensures b.head == SpecifiersToCss(specifiers) && b.specifiers == specifiers && IsEmpty(b)
  {
    CssBlock(SpecifiersToCss(specifiers), specifiers, [])
  }

  /** `IsEmpty`: no definition has been added. */
  predicate IsEmpty(b: CssBlock) {
    |b.definitions| == 0
  }

  /** The definition text `AddDefinition` stores. */
  function Definition(key: string, cssValue: string): string {
    key + ": " + cssValue + ";"
  }

  /** `AddDefinition`: `key: value;` goes last; head and selectors stay. */
  function AddDefinition(b: CssBlock, key: string, cssValue: string): (r: CssBlock)
    ensures r.definitions == b.definitions + [Definition(key, cssValue)]
    ensures r.head == b.head && r.specifiers == b.specifiers && !IsEmpty(r)
  {
    b.(definitions := b.definitions + [key + ": " + cssValue + ";"])
  }

  /** `AddDefinitions`: the given definitions go last, in order. */
  function AddDefinitions(b: CssBlock, definitions: seq<string>): (r: CssBlock)
    ensures |r.definitions| == |b.definitions| + |definitions|
    ensures r.definitions[..|b.definitions|] == b.definitions && r.definitions[|b.definitions|..] == definitions
    ensures r.head == b.head && r.specifiers == b.specifiers
    ensures IsEmpty(r) <==> IsEmpty(b) && |definitions| == 0
  {
    b.(definitions := b.definitions + definitions)
  }

  /** The definition lines: each one tab-indented and ended by the line terminator `nl`
      (`Environment.NewLine`, a parameter here). */
  function DefinitionLines(definitions: seq<string>, nl: string): string
    decreases |definitions|
  {
    if |definitions| == 0 then ""
    else DefinitionLines(definitions[..|definitions| - 1], nl) + "\t" + definitions[|definitions| - 1] + nl
  }

  /** The rendered block as the source lays it out. */
  function BlockText(b: CssBlock, nl: string): string {
    b.head + "{" + nl + DefinitionLines(b.definitions, nl) + "}" + nl
  }

  /** `ToCSS`: the head, `{` on the head's line, one tab-indented line per definition,
      then `}` on a line of its own. */
  method BlockToCss(b: CssBlock, nl: string) returns (css: string)
    ensures css == BlockText(b, nl)
  {
    css := b.head;
    css := css + "{" + nl;
    var i := 0;
    while i < |b.definitions|
      invariant 0 <= i <= |b.definitions|
      invariant css == b.head + "{" + nl + DefinitionLines(b.definitions[..i], nl)
    {
      assert b.definitions[..i + 1][..i] == b.definitions[..i];
      css := css + "\t" + b.definitions[i] + nl;
      i := i + 1;
    }
    assert b.definitions[..i] == b.definitions;
    css := css + "}" + nl;
  }

  /** An empty block renders as its head and an empty pair of braces; adding a definition
      inserts exactly its line before the closing brace. */
  lemma BlockTextAdd(b: CssBlock, key: string, cssValue: string, nl: string)
    ensures IsEmpty(b) ==> BlockText(b, nl) == b.head + "{" + nl + "}" + nl
    ensures BlockText(AddDefinition(b, key, cssValue), nl)
      == b.head + "{" + nl + DefinitionLines(b.definitions, nl) + "\t" + Definition(key, cssValue) + nl + "}" + nl
  {
    var defs := AddDefinition(b, key, cssValue).definitions;
    TakeSnoc(b.definitions, Definition(key, cssValue));
    assert DefinitionLines(defs, nl) == DefinitionLines(b.definitions, nl) + "\t" + Definition(key, cssValue) + nl;
  }
}
