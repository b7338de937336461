/** The parse tree of the Parsing library (Parsing/Node.cs). A node stands for a complete
    edge of the chart; its children are rebuilt from the edge's back-links, then the
    children of transient children are spliced in their place and punctuation terminals
    are dropped. Which terms are transient and which texts are punctuation are decided by
    `GrammarBase` (not part of this model), so both are parameters here. */
module ParseTree {
  import opened Results
  import opened Grammar
  import opened Labels
  import opened Edges

  datatype Node = Node(name: Option<string>, edge: CompleteEdge, children: seq<Node>)

  // ---------------------------------------------------------------------------------
  // Naming

  /** The node's name: a terminal edge is named after its terminal, any other complete
      edge after the parent of its complete label. */
  function NodeName(c: CompleteEdge): Option<string> {
    if c.matched.Some? then c.parent.Name() else LabelParent(c.complete).Name()
  }

  /** A node for a completed sequence carries the name of the sequence's owner; a node
      for a terminal edge carries the name of the terminal the label waited for. */
  lemma NodeNameMeaning(g: Built, edge: ActiveEdge, constituent: CompleteEdge, lab: ActiveLabel,
                        start: Context, m: TerminalMatch)
    requires ValidLabel(g, edge.activeLabel) && WillComplete(g, edge.activeLabel)
    requires ValidLabel(g, lab) && m.Success()
    ensures NodeName(CompleteBy(g, edge, constituent)) == edge.activeLabel.owner.Name()
    ensures NodeName(TerminalEdge(g, lab, start, m)) == CurrentTerm(g, lab).Name()
  {
    ExtendAndComplete(g, edge, constituent);
  }

  // ---------------------------------------------------------------------------------
  // Children from back-links

  /** The number of edges reachable through back-links, the edge itself included. */
  function CompleteSize(c: CompleteEdge): nat
    decreases c
  {
    1 + ActiveSizeOf(c.extended) + CompleteSizeOf(c.extending)
  }

  function ActiveSize(a: ActiveEdge): nat
    decreases a
  {
    1 + ActiveSizeOf(a.extended) + CompleteSizeOf(a.extending)
  }

  function ActiveSizeOf(a: Option<ActiveEdge>): nat
    decreases a
  {
    if a.Some? then ActiveSize(a.value) else 0
  }

  function CompleteSizeOf(c: Option<CompleteEdge>): nat
    decreases c
  {
    if c.Some? then CompleteSize(c.value) else 0
  }

  function SumSize(cs: seq<CompleteEdge>): nat {
    if |cs| == 0 then 0 else CompleteSize(cs[0]) + SumSize(cs[1..])
  }

  /** `addChild`: a missing back-link adds nothing. */
  function Present(c: Option<CompleteEdge>): seq<CompleteEdge> {
    if c.Some? then [c.value] else []
  }

  function Reverse<T>(s: seq<T>): (r: seq<T>)
    ensures |r| == |s|
  {
    if |s| == 0 then [] else Reverse(s[1..]) + [s[0]]
  }

  /** The constructor's loop: from an active edge back along `ExtendedEdge`, taking each
      `ExtendingEdge` on the way, so the rightmost constituent comes first. */
  function WalkBack(cur: Option<ActiveEdge>): seq<CompleteEdge>
    decreases cur
  {
    match cur
    case None => []
    case Some(a) => Present(a.extending) + WalkBack(a.extended)
  }

  /** The constituents as the constructor collects them (the edge's own extending edge,
      then the walk back), reversed as `ChildNodes.Reverse()` does. */
  function CollectedChildren(c: CompleteEdge): seq<CompleteEdge> {
    Reverse(Present(c.extending) + WalkBack(c.extended))
  }

  /** The constituents left to right: those under the extended edge, then the edge's
      own extending edge. */
  function InOrder(cur: Option<ActiveEdge>): seq<CompleteEdge>
    decreases cur
  {
    match cur
    case None => []
    case Some(a) => InOrder(a.extended) + Present(a.extending)
  }

  function ChildEdges(c: CompleteEdge): seq<CompleteEdge> {
    InOrder(c.extended) + Present(c.extending)
  }

  lemma {:induction false} ReverseAppend<T>(a: seq<T>, b: seq<T>)
    ensures Reverse(a + b) == Reverse(b) + Reverse(a)
    decreases |a|
  {
    if |a| == 0 {
      assert a + b == b;
    } else {
      assert (a + b)[1..] == a[1..] + b;
      ReverseAppend(a[1..], b);
    }
  }

  lemma ReverseShort<T>(s: seq<T>)
    requires |s| <= 1
    ensures Reverse(s) == s
  {
  }

  lemma {:induction false} WalkBackReversed(cur: Option<ActiveEdge>)
    ensures Reverse(WalkBack(cur)) == InOrder(cur)
    decreases cur
  {
    if cur.Some? {
      var a := cur.value;
      WalkBackReversed(a.extended);
      ReverseAppend(Present(a.extending), WalkBack(a.extended));
      ReverseShort(Present(a.extending));
    }
  }

  /** Walking the back-links and reversing yields the constituents left to right. */
  lemma CollectedInOrder(c: CompleteEdge)
    ensures CollectedChildren(c) == ChildEdges(c)
  {
    WalkBackReversed(c.extended);
    ReverseAppend(Present(c.extending), WalkBack(c.extended));
    ReverseShort(Present(c.extending));
  }

  lemma {:induction false} SumSizeAppend(a: seq<CompleteEdge>, b: seq<CompleteEdge>)
    ensures SumSize(a + b) == SumSize(a) + SumSize(b)
    decreases |a|
  {
    if |a| == 0 {
      assert a + b == b;
    } else {
      assert (a + b)[1..] == a[1..] + b;
      SumSizeAppend(a[1..], b);
    }
  }

  lemma PresentSize(c: Option<CompleteEdge>)
    ensures SumSize(Present(c)) == CompleteSizeOf(c)
  {
    if c.Some? {
      assert Present(c)[1..] == [];
    }
  }

  lemma {:induction false} InOrderSize(cur: Option<ActiveEdge>)
    ensures SumSize(InOrder(cur)) <= ActiveSizeOf(cur)
    decreases cur
  {
    if cur.Some? {
      var a := cur.value;
      InOrderSize(a.extended);
      SumSizeAppend(InOrder(a.extended), Present(a.extending));
      PresentSize(a.extending);
    }
  }

  lemma ChildrenSmaller(c: CompleteEdge)
    ensures SumSize(CollectedChildren(c)) < CompleteSize(c)
  {
    CollectedInOrder(c);
    InOrderSize(c.extended);
    SumSizeAppend(InOrder(c.extended), Present(c.extending));
    PresentSize(c.extending);
  }

  // ---------------------------------------------------------------------------------
  // Span of the children

  /** The back-links of an active edge as the parser sets them: a chain head has
      neither link and spans nothing; an extension spans its extended edge followed by
      its constituent. */
  ghost predicate Linked(a: ActiveEdge)
    decreases a
  {
    (a.extended.Some? <==> a.extending.Some?)
    && (a.extended.None? ==> a.start.Index() == a.end.Index())
    && (a.extended.Some? ==>
          && a.start == a.extended.value.start
          && a.extended.value.end.Index() == a.extending.value.start.Index()
          && a.end == a.extending.value.end
          && Linked(a.extended.value))
  }

  /** `cs` lies end to end from position `from` to position `to`. */
  ghost predicate Tiles(cs: seq<CompleteEdge>, from: nat, to: nat) {
    if |cs| == 0 then from == to
    else cs[0].start.Index() == from && Tiles(cs[1..], cs[0].end.Index(), to)
  }

  lemma {:induction false} TilesAppend(cs: seq<CompleteEdge>, from: nat, mid: nat, c: CompleteEdge)
    requires Tiles(cs, from, mid) && c.start.Index() == mid
    ensures Tiles(cs + [c], from, c.end.Index())
    decreases |cs|
  {
    if |cs| == 0 {
      assert ([c])[1..] == [];
    } else {
      assert (cs + [c])[1..] == cs[1..] + [c];
      TilesAppend(cs[1..], cs[0].end.Index(), mid, c);
    }
  }

  lemma {:induction false} InOrderTiles(a: ActiveEdge)
    requires Linked(a)
    ensures Tiles(InOrder(Some(a)), a.start.Index(), a.end.Index())
    decreases a
  {
    if a.extended.Some? {
      var e := a.extended.value;
      InOrderTiles(e);
      TilesAppend(InOrder(Some(e)), a.start.Index(), e.end.Index(), a.extending.value);
    }
  }

  /** For a completed sequence whose active edge has parser-made back-links, the
      rebuilt children lie end to end, left to right, from the node's start to its end. */
  lemma ChildrenSpan(c: CompleteEdge)
    requires c.extended.Some? && c.extending.Some? && Linked(c.extended.value)
    requires c.start == c.extended.value.start && c.end == c.extending.value.end
    requires c.extended.value.end.Index() == c.extending.value.start.Index()
    ensures Tiles(CollectedChildren(c), c.start.Index(), c.end.Index())
  {
    CollectedInOrder(c);
    InOrderTiles(c.extended.value);
    TilesAppend(InOrder(c.extended), c.start.Index(), c.extended.value.end.Index(), c.extending.value);
  }

  // ---------------------------------------------------------------------------------
  // Transient children and punctuation

  /** `IsTransient`: an unnamed node, or one whose parent term the grammar marks
      transient. */
  predicate IsTransient(transient: Term -> bool, n: Node) {
    n.name.None? || transient(n.edge.parent)
  }

  /** A child `skipTransientChildren` replaces by its own children. */
  predicate Splices(transient: Term -> bool, n: Node) {
    IsTransient(transient, n) && |n.children| > 0
  }

  /** A terminal child whose matched text the grammar calls punctuation. */
  predicate IsPunctuation(punctuation: string -> bool, n: Node) {
    n.edge.matched.Some? && punctuation(n.edge.matched.value.data)
  }

  function Expand(transient: Term -> bool, n: Node): seq<Node> {
    if Splices(transient, n) then n.children else [n]
  }

  /** Each child in turn, a spliced child giving way to its children. */
  function Flatten(transient: Term -> bool, ns: seq<Node>): seq<Node>
    decreases |ns|
  {
    if |ns| == 0 then [] else Expand(transient, ns[0]) + Flatten(transient, ns[1..])
  }

  /** The children that are not punctuation, in order. */
  function Unpunctuated(punctuation: string -> bool, ns: seq<Node>): seq<Node>
    decreases |ns|
  {
    if |ns| == 0 then []
    else (if IsPunctuation(punctuation, ns[0]) then [] else [ns[0]]) + Unpunctuated(punctuation, ns[1..])
  }

  lemma {:induction false} FlattenAppend(transient: Term -> bool, a: seq<Node>, b: seq<Node>)
    ensures Flatten(transient, a + b) == Flatten(transient, a) + Flatten(transient, b)
    decreases |a|
  {
    if |a| == 0 {
      assert a + b == b;
    } else {
      assert (a + b)[1..] == a[1..] + b;
      FlattenAppend(transient, a[1..], b);
    }
  }

  lemma {:induction false} UnpunctuatedAppend(punctuation: string -> bool, a: seq<Node>, b: seq<Node>)
    ensures Unpunctuated(punctuation, a + b) == Unpunctuated(punctuation, a) + Unpunctuated(punctuation, b)
    decreases |a|
  {
    if |a| == 0 {
      assert a + b == b;
    } else {
      assert (a + b)[1..] == a[1..] + b;
      UnpunctuatedAppend(punctuation, a[1..], b);
    }
  }

  /** One step of `skipTransientChildren`: the child at the index is spliced or kept, and
      the index moves past what took its place. */
  lemma SpliceStep(transient: Term -> bool, children: seq<Node>, j: nat, r: seq<Node>)
    requires j < |children|
    requires r == Flatten(transient, children[..j]) + children[j..]
    ensures var i := |Flatten(transient, children[..j])|;
      && i < |r| && r[i] == children[j]
      && (Splices(transient, r[i]) ==>
            && r[..i] + r[i].children + r[i + 1..] == Flatten(transient, children[..j + 1]) + children[j + 1..]
            && i + |r[i].children| == |Flatten(transient, children[..j + 1])|)
      && (!Splices(transient, r[i]) ==>
            && r == Flatten(transient, children[..j + 1]) + children[j + 1..]
            && i + 1 == |Flatten(transient, children[..j + 1])|)
  {
    var pre := Flatten(transient, children[..j]);
    var child := children[j];
    assert children[j..] == [child] + children[j + 1..];
    FlattenAppend(transient, children[..j], [child]);
    assert children[..j + 1] == children[..j] + [child];
    assert Flatten(transient, [child]) == Expand(transient, child) + Flatten(transient, []);
    assert r[..|pre|] == pre;
    assert r[|pre| + 1..] == children[j + 1..];
  }

  /** `skipTransientChildren`: at index `i`, a spliced child is removed, its children are
      inserted there, and the index moves past them, so inserted nodes are not
      examined again. */
  method SkipTransientChildren(transient: Term -> bool, children: seq<Node>) returns (r: seq<Node>)
    ensures r == Flatten(transient, children)
  {
    r := children;
    var i := 0;
    ghost var j := 0;
    while i < |r|
      invariant 0 <= j <= |children|
      invariant r == Flatten(transient, children[..j]) + children[j..]
      invariant i == |Flatten(transient, children[..j])|
      decreases |children| - j
    {
      SpliceStep(transient, children, j, r);
      var child := r[i];
      if Splices(transient, child) {
        r := r[..i] + child.children + r[i + 1..];
        i := i + |child.children| - 1;
      }
      i := i + 1;
      j := j + 1;
    }
    assert children[..j] == children;
  }

  /** `removePunctuation`: a punctuation child is removed and the index steps back, so
      the child moving into its place is examined next. */
  method RemovePunctuation(punctuation: string -> bool, children: seq<Node>) returns (r: seq<Node>)
    ensures r == Unpunctuated(punctuation, children)
  {
    r := children;
    var i := 0;
    ghost var j := 0;
    while i < |r|
      invariant 0 <= j <= |children|
      invariant r == Unpunctuated(punctuation, children[..j]) + children[j..]
      invariant i == |Unpunctuated(punctuation, children[..j])|
      decreases |children| - j
    {
      var child := r[i];
      assert child == children[j];
      UnpunctuatedAppend(punctuation, children[..j], [child]);
      assert children[..j + 1] == children[..j] + [child];
      if IsPunctuation(punctuation, child) {
        r := r[..i] + r[i + 1..];
        i := i - 1;
      }
      i := i + 1;
      j := j + 1;
    }
    assert children[..j] == children;
  }

  // ---------------------------------------------------------------------------------
  // Building the tree

  /** `new Node(grammar, completeEdge)`: a node per constituent, rebuilt recursively,
      then spliced and cleaned. */
  function Build(transient: Term -> bool, punctuation: string -> bool, c: CompleteEdge): (n: Node)
    ensures n.edge == c && n.name == NodeName(c)
    decreases CompleteSize(c), 1
  {
    ChildrenSmaller(c);
    var raw := BuildEach(transient, punctuation, CollectedChildren(c));
    Node(NodeName(c), c, Unpunctuated(punctuation, Flatten(transient, raw)))
  }

  function BuildEach(transient: Term -> bool, punctuation: string -> bool, cs: seq<CompleteEdge>): (ns: seq<Node>)
    ensures |ns| == |cs|
    ensures forall k :: 0 <= k < |ns| ==> ns[k].edge == cs[k]
    decreases SumSize(cs), 2
  {
    if |cs| == 0 then []
    else [Build(transient, punctuation, cs[0])] + BuildEach(transient, punctuation, cs[1..])
  }

  /** No child of any node is spliceable or punctuation. */
  ghost predicate Clean(transient: Term -> bool, punctuation: string -> bool, n: Node)
    decreases n
  {
    forall k :: 0 <= k < |n.children| ==>
      && !Splices(transient, n.children[k])
      && !IsPunctuation(punctuation, n.children[k])
      && Clean(transient, punctuation, n.children[k])
  }

  ghost predicate AllClean(transient: Term -> bool, punctuation: string -> bool, ns: seq<Node>) {
    forall k :: 0 <= k < |ns| ==> Clean(transient, punctuation, ns[k])
  }

  /** Every node that splicing leaves is either an original child that is not spliced, or
      a child of a spliced one. */
  lemma {:induction false} FlattenMembers(transient: Term -> bool, ns: seq<Node>, x: Node)
    ensures x in Flatten(transient, ns) <==>
      exists k :: 0 <= k < |ns| && (
        || (ns[k] == x && !Splices(transient, ns[k]))
        || (Splices(transient, ns[k]) && x in ns[k].children))
    decreases |ns|
  {
    if |ns| > 0 {
      FlattenMembers(transient, ns[1..], x);
      if x in Flatten(transient, ns[1..]) {
        var k :| 0 <= k < |ns[1..]| && (
          || (ns[1..][k] == x && !Splices(transient, ns[1..][k]))
          || (Splices(transient, ns[1..][k]) && x in ns[1..][k].children));
        assert ns[k + 1] == ns[1..][k];
      }
      if exists k :: 0 <= k < |ns| && (
          || (ns[k] == x && !Splices(transient, ns[k]))
          || (Splices(transient, ns[k]) && x in ns[k].children)) {
        var k :| 0 <= k < |ns| && (
          || (ns[k] == x && !Splices(transient, ns[k]))
          || (Splices(transient, ns[k]) && x in ns[k].children));
        if k > 0 {
          assert ns[1..][k - 1] == ns[k];
        }
      }
    }
  }

  /** Removing punctuation keeps exactly the children that are not punctuation. */
  lemma {:induction false} UnpunctuatedMembers(punctuation: string -> bool, ns: seq<Node>, x: Node)
    ensures x in Unpunctuated(punctuation, ns) <==> x in ns && !IsPunctuation(punctuation, x)
    decreases |ns|
  {
    if |ns| > 0 {
      UnpunctuatedMembers(punctuation, ns[1..], x);
      assert ns == [ns[0]] + ns[1..];
    }
  }

  /** Splicing clean children leaves clean children none of which is spliceable. */
  lemma FlattenClean(transient: Term -> bool, punctuation: string -> bool, ns: seq<Node>)
    requires AllClean(transient, punctuation, ns)
    ensures AllClean(transient, punctuation, Flatten(transient, ns))
    ensures forall k :: 0 <= k < |Flatten(transient, ns)| ==> !Splices(transient, Flatten(transient, ns)[k])
  {
    var f := Flatten(transient, ns);
    forall i | 0 <= i < |f|
      ensures Clean(transient, punctuation, f[i]) && !Splices(transient, f[i])
    {
      FlattenMembers(transient, ns, f[i]);
      var k :| 0 <= k < |ns| && (
        || (ns[k] == f[i] && !Splices(transient, ns[k]))
        || (Splices(transient, ns[k]) && f[i] in ns[k].children));
      assert Clean(transient, punctuation, ns[k]);
    }
  }

  lemma CleanChildren(transient: Term -> bool, punctuation: string -> bool, ns: seq<Node>)
    requires AllClean(transient, punctuation, ns)
    requires forall k :: 0 <= k < |ns| ==> !Splices(transient, ns[k])
    ensures forall k :: 0 <= k < |Unpunctuated(punctuation, ns)| ==>
      var x := Unpunctuated(punctuation, ns)[k];
      !Splices(transient, x) && !IsPunctuation(punctuation, x) && Clean(transient, punctuation, x)
  {
    var u := Unpunctuated(punctuation, ns);
    forall i | 0 <= i < |u|
      ensures !Splices(transient, u[i]) && !IsPunctuation(punctuation, u[i]) && Clean(transient, punctuation, u[i])
    {
      UnpunctuatedMembers(punctuation, ns, u[i]);
    }
  }

  /** Every node of a rebuilt tree is clean: no transient node with children and no
      punctuation terminal is left among any node's children. */
  lemma {:induction false} BuildClean(transient: Term -> bool, punctuation: string -> bool, c: CompleteEdge)
    ensures Clean(transient, punctuation, Build(transient, punctuation, c))
    decreases CompleteSize(c), 1
  {
    ChildrenSmaller(c);
    var raw := BuildEach(transient, punctuation, CollectedChildren(c));
    BuildEachClean(transient, punctuation, CollectedChildren(c));
    FlattenClean(transient, punctuation, raw);
    CleanChildren(transient, punctuation, Flatten(transient, raw));
  }

  lemma {:induction false} BuildEachClean(transient: Term -> bool, punctuation: string -> bool, cs: seq<CompleteEdge>)
    ensures AllClean(transient, punctuation, BuildEach(transient, punctuation, cs))
    decreases SumSize(cs), 2
  {
    if |cs| > 0 {
      BuildClean(transient, punctuation, cs[0]);
      BuildEachClean(transient, punctuation, cs[1..]);
      var ns := BuildEach(transient, punctuation, cs);
      assert ns == [Build(transient, punctuation, cs[0])] + BuildEach(transient, punctuation, cs[1..]);
    }
  }

  /** The children of a rebuilt node: a node is kept exactly when it is not punctuation and
      is either the node of a constituent that is not spliced or a child of the node of a
      spliced constituent, the constituents taken left to right. */
  lemma BuildChildren(transient: Term -> bool, punctuation: string -> bool, c: CompleteEdge, x: Node)
    ensures var raw := BuildEach(transient, punctuation, ChildEdges(c));
      x in Build(transient, punctuation, c).children <==>
        && !IsPunctuation(punctuation, x)
        && (exists k :: 0 <= k < |raw| && (
             || (raw[k] == x && !Splices(transient, raw[k]))
             || (Splices(transient, raw[k]) && x in raw[k].children)))
    ensures |BuildEach(transient, punctuation, ChildEdges(c))| == |ChildEdges(c)|
  {
    CollectedInOrder(c);
    var raw := BuildEach(transient, punctuation, ChildEdges(c));
    UnpunctuatedMembers(punctuation, Flatten(transient, raw), x);
    FlattenMembers(transient, raw, x);
  }
}
