/** The parse-tree utilities of the compilers (ServeRick/Compiling/CompilerBase.cs): walking a
    path of child names from a node, collecting the children at the end of a path, and
    reading the text a terminal node matched. A missing node is the C# `null`. */
module AstPaths {
  import opened Results
  import opened Edges
  import opened ParseTree

  datatype PathError =
    | EmptyPath        // `path.Last()` on an empty path
    | NotSingleChild   // `StepToChild` on a node without exactly one child

  /** The child `child.Name == pathPart` selects. */
  predicate Named(n: Node, name: string) {
    n.name == Some(name)
  }

  /** The first child with the given name. */
  function FirstNamed(children: seq<Node>, name: string): (r: Option<Node>)
    ensures r.None? <==> forall k :: 0 <= k < |children| ==> !Named(children[k], name)
    ensures r.Some? ==>
      exists k :: 0 <= k < |children| && children[k] == r.value && Named(children[k], name)
                    && (forall j :: 0 <= j < k ==> !Named(children[j], name))
    decreases |children|
  {
    if |children| == 0 then None
    else if Named(children[0], name) then Some(children[0])
    else
      var r := FirstNamed(children[1..], name);
      if r.Some? then
        var k :| 0 <= k < |children[1..]| && children[1..][k] == r.value
          && Named(children[1..][k], name) && forall j :: 0 <= j < k ==> !Named(children[1..][j], name);
        assert children[k + 1] == r.value;
        assert forall j :: 0 < j < k + 1 ==> children[j] == children[1..][j - 1];
        r
      else r
  }

  /** `GetDescendant`: follows the path one name at a time, each step taking the first
      child with that name; a step without such a child gives null. */
  function GetDescendant(root: Node, path: seq<string>): (r: Option<Node>)
    ensures |path| == 0 ==> r == Some(root)
    ensures r.Some? && |path| > 0 ==> Named(r.value, path[|path| - 1])
    decreases |path|
  {
    if |path| == 0 then Some(root)
    else
      var parent := GetDescendant(root, path[..|path| - 1]);
      if parent.None? then None else FirstNamed(parent.value.children, path[|path| - 1])
  }

  /** The walk in the order the loop takes it: the first name from the root, then the rest
      of the path from there. */
  lemma {:induction false} DescendantStep(root: Node, name: string, rest: seq<string>)
    ensures GetDescendant(root, [name] + rest)
      == match FirstNamed(root.children, name)
         case None => None
         case Some(child) => GetDescendant(child, rest)
    decreases |rest|
  {
    var path := [name] + rest;
    if |rest| == 0 {
      assert path[..0] == [];
    } else {
      assert path[..|path| - 1] == [name] + rest[..|rest| - 1];
      DescendantStep(root, name, rest[..|rest| - 1]);
      assert path[|path| - 1] == rest[|rest| - 1];
      assert rest[..|rest| - 1] == rest[..|rest| - 1];
    }
  }

  /** `path` without its last name (`OmitLastPart`); an empty path stays empty. */
  function OmitLast(path: seq<string>): (r: seq<string>)
    ensures |path| > 0 ==> r + [path[|path| - 1]] == path
    ensures |path| == 0 ==> r == []
  {
    if |path| == 0 then [] else path[..|path| - 1]
  }

  function ChildrenNamed(children: seq<Node>, name: string): (r: seq<Node>)
    decreases |children|
  {
    if |children| == 0 then []
    else (if Named(children[0], name) then [children[0]] else []) + ChildrenNamed(children[1..], name)
  }

  lemma {:induction false} ChildrenNamedMembers(children: seq<Node>, name: string, x: Node)
    ensures x in ChildrenNamed(children, name) <==> x in children && Named(x, name)
    decreases |children|
  {
    if |children| > 0 {
      ChildrenNamedMembers(children[1..], name, x);
      assert children == [children[0]] + children[1..];
    }
  }

  /** `GetDescendants`: the children with the last name, of the node the rest of the path
      leads to; none when that node is missing. The empty path throws, as `path.Last()`
      does. */
  function GetDescendants(root: Node, path: seq<string>): (r: Result<seq<Node>, PathError>)
    ensures r.Throws? <==> |path| == 0
  {
    var node := GetDescendant(root, OmitLast(path));
    if node.None? then Ok([])
    else if |path| == 0 then Throws(EmptyPath)
    else Ok(ChildrenNamed(node.value.children, path[|path| - 1]))
  }

  /** A node `GetDescendants` returns is a child, with the last name, of the node the path
      without its last name leads to, and every such child is returned. */
  lemma DescendantsMeaning(root: Node, path: seq<string>, x: Node)
    requires |path| > 0
    ensures var parent := GetDescendant(root, OmitLast(path));
      && (parent.None? ==> GetDescendants(root, path) == Ok([]))
      && (parent.Some? ==>
            (x in GetDescendants(root, path).value <==> x in parent.value.children && Named(x, path[|path| - 1])))
  {
    var parent := GetDescendant(root, OmitLast(path));
    if parent.Some? {
      ChildrenNamedMembers(parent.value.children, path[|path| - 1], x);
    }
  }

  /** `GetTerminalText`: the matched text of the node the path leads to, or null when the
      node is missing or is not a terminal. */
  function GetTerminalText(root: Node, path: seq<string>): (r: Option<string>)
    ensures r.Some? <==> GetDescendant(root, path).Some? && GetDescendant(root, path).value.edge.matched.Some?
    ensures r.Some? ==> r.value == GetDescendant(root, path).value.edge.matched.value.data
  {
    var terminal := GetDescendant(root, path);
    if terminal.None? || terminal.value.edge.matched.None? then None
    else Some(terminal.value.edge.matched.value.data)
  }

  function TerminalTexts(children: seq<Node>): seq<string>
    decreases |children|
  {
    if |children| == 0 then []
    else
      var text := GetTerminalText(children[0], []);
      (if text.None? then [] else [text.value]) + TerminalTexts(children[1..])
  }

  /** `GetTerminalTexts`: the texts of the terminal children of the node the path without
      its last name leads to, in order. The last name itself is not used. */
  function GetTerminalTexts(root: Node, path: seq<string>): (r: seq<string>)
    ensures GetDescendant(root, OmitLast(path)).None? ==> r == []
    ensures GetDescendant(root, OmitLast(path)).Some? ==>
      |r| == CountTerminals(GetDescendant(root, OmitLast(path)).value.children)
  {
    var node := GetDescendant(root, OmitLast(path));
    if node.None? then []
    else
      TerminalTextsMeaning(node.value.children);
      TerminalTexts(node.value.children)
  }

  function CountTerminals(children: seq<Node>): nat
    decreases |children|
  {
    if |children| == 0 then 0
    else (if children[0].edge.matched.Some? then 1 else 0) + CountTerminals(children[1..])
  }

  /** The texts of the terminal children are their matched texts, one per terminal child,
      non-terminal children skipped, in the children's order. */
  lemma {:induction false} TerminalTextsMeaning(children: seq<Node>)
    ensures |TerminalTexts(children)| == CountTerminals(children)
    ensures forall i :: 0 <= i < |children| && children[i].edge.matched.Some? ==>
      CountTerminals(children[..i]) < CountTerminals(children)
    ensures forall i :: 0 <= i < |children| && children[i].edge.matched.Some? ==>
      TerminalTexts(children)[CountTerminals(children[..i])] == children[i].edge.matched.value.data
    decreases |children|
  {
    if |children| > 0 {
      var rest := children[1..];
      TerminalTextsMeaning(rest);
      var head := if children[0].edge.matched.Some? then [children[0].edge.matched.value.data] else [];
      assert TerminalTexts(children) == head + TerminalTexts(rest);
      forall i | 0 <= i < |children| && children[i].edge.matched.Some?
        ensures CountTerminals(children[..i]) < CountTerminals(children)
        ensures TerminalTexts(children)[CountTerminals(children[..i])] == children[i].edge.matched.value.data
      {
        if i == 0 {
          assert children[..0] == [];
        } else {
          assert children[..i][1..] == rest[..i - 1];
          assert CountTerminals(children[..i]) == |head| + CountTerminals(rest[..i - 1]);
          assert rest[i - 1] == children[i];
        }
      }
    }
  }

  /** `StepToChild`: the only child; throws unless there is exactly one. */
  function StepToChild(parent: Node): (r: Result<Node, PathError>)
    ensures r.Ok? <==> |parent.children| == 1
    ensures r.Ok? ==> r.value == parent.children[0] && r.value in parent.children
  {
    if |parent.children| != 1 then Throws(NotSingleChild) else Ok(parent.children[0])
  }

  /** `GetSubTerminalText`: the text of the single child, if it is a terminal. */
  function GetSubTerminalText(parent: Node): (r: Result<Option<string>, PathError>)
    ensures r.Ok? <==> |parent.children| == 1
    ensures r.Ok? ==> (r.value.Some? <==> parent.children[0].edge.matched.Some?)
    ensures r.Ok? && r.value.Some? ==> r.value.value == parent.children[0].edge.matched.value.data
  {
    var terminal := StepToChild(parent);
    if terminal.Throws? then Throws(terminal.error) else Ok(GetTerminalText(terminal.value, []))
  }
}
