/** Looking a node up by its path in a parsed tree. */
module DtbLookup {
  import opened Bytes
  import opened Digits
  import opened Dtb
  import opened DtbFlattening
  import opened Options

  // ---------- what a path means ----------

  /** The node that a list of child names leads to. */
  function Follow(node: Node, steps: seq<string>): Option<Node>
    decreases |steps|
  {
    if steps == [] then Some(node)
    else if steps[0] !in node.children then None
    else Follow(node.children[steps[0]], steps[1..])
  }

  /** The parts of a path that starts with a slash. */
  function Components(path: string): (steps: seq<string>)
    requires path != ""
    ensures steps != []
    decreases |path|
  {
    var end := IndexOf(path, '/', 1);
    [path[1..end]] + if end == |path| then [] else Components(path[end..])
  }

  function PathOf(steps: seq<string>): string {
    if steps == [] then "" else "/" + steps[0] + PathOf(steps[1..])
  }

  predicate SlashFree(steps: seq<string>) {
    forall i :: 0 <= i < |steps| ==> '/' !in steps[i]
  }

  lemma {:induction false} ComponentsOfPath(steps: seq<string>)
    requires steps != [] && SlashFree(steps)
    ensures Components(PathOf(steps)) == steps
    decreases |steps|
  {
    hide PathOf, IndexOf;
    var path := PathOf(steps);
    FirstStep(steps);
    SlashComesAfter(path, steps[0], IndexOf(path, '/', 1));
    if |steps| > 1 {
      ComponentsOfPath(steps[1..]);
      assert [steps[0]] + steps[1..] == steps;
    } else {
      assert [steps[0]] == steps;
    }
  }

  lemma FirstStep(steps: seq<string>)
    requires steps != []
    ensures var path, name, rest := PathOf(steps), steps[0], PathOf(steps[1..]);
      && |path| == 1 + |name| + |rest| && path[0] == '/' && path[1..|name| + 1] == name && path[|name| + 1..] == rest
      && (rest == "" <==> |steps| == 1) && (rest != "" ==> path[|name| + 1] == '/')
  {
    var path, name, rest := PathOf(steps), steps[0], PathOf(steps[1..]);
    assert path == "/" + name + rest;
  }

  /** The first slash behind a name without slashes. */
  lemma SlashComesAfter(path: string, name: string, end: nat)
    requires '/' !in name && |name| + 1 <= |path| && path[1..|name| + 1] == name
    requires |name| + 1 < |path| ==> path[|name| + 1] == '/'
    requires end == IndexOf(path, '/', 1)
    ensures end == |name| + 1
  {
    forall k | 1 <= k < |name| + 1 ensures path[k] != '/' {
      assert path[k] == name[k - 1];
    }
  }

  // ---------- has_node and get_node ----------

  method HasNode(root: Node, fullPath: string) returns (found: bool)
    ensures found <==> fullPath != "" && fullPath[0] == '/' && Follow(root, Components(fullPath)).Some?
  {
    if fullPath == "" || fullPath[0] != '/' { return false; }
    var node, path := root, fullPath;
    while path != ""
      invariant path != "" ==> Follow(root, Components(fullPath)) == Follow(node, Components(path))
      invariant path == "" ==> Follow(root, Components(fullPath)) == Some(node)
      decreases |path|
    {
      var end := IndexOf(path, '/', 1);
      var name := path[1..end];
      FollowStep(node, path);
      if name !in node.children { return false; }
      node := node.children[name];
      path := path[end..];
    }
    found := true;
  }

  lemma FollowStep(node: Node, path: string)
    requires path != ""
    ensures var end := IndexOf(path, '/', 1);
      Follow(node, Components(path)) ==
        if path[1..end] !in node.children then None
        else if path[end..] == "" then Some(node.children[path[1..end]])
        else Follow(node.children[path[1..end]], Components(path[end..]))
  {
    var end := IndexOf(path, '/', 1);
    var rest := if end == |path| then [] else Components(path[end..]);
    assert ([path[1..end]] + rest)[1..] == rest;
  }

  /** get_node: aborts where has_node does not hold. */
  method GetNode(root: Node, fullPath: string) returns (result: Option<Node>)
    ensures result == if fullPath != "" && fullPath[0] == '/' then Follow(root, Components(fullPath)) else None
  {
    var found := HasNode(root, fullPath);
    if !found { return None; }
    var node, path := root, fullPath;
    while path != ""
      invariant path != "" ==> Follow(root, Components(fullPath)) == Follow(node, Components(path))
      invariant path == "" ==> Follow(root, Components(fullPath)) == Some(node)
      decreases |path|
    {
      var end := IndexOf(path, '/', 1);
      FollowStep(node, path);
      if path[1..end] !in node.children { return None; }
      node := node.children[path[1..end]];
      path := path[end..];
    }
    result := Some(node);
  }

  // ---------- the names a parsed tree carries ----------

  /** Children are filed under their names, and full names extend the parent's. */
  ghost predicate Named(node: Node) {
    forall k {:trigger ChildNamed(node, k)} :: k in node.children ==> ChildNamed(node, k)
  }

  ghost predicate ChildNamed(node: Node, k: string)
    requires k in node.children
  {
    var child := node.children[k];
    child.name == k && Named(child)
    && child.fullName == (if node.fullName == "/" then "" else node.fullName) + "/" + k
  }

  /** Whatever the bytes are: a parsed node is named like that, and so is all below it. */
  lemma {:induction false} ParsedIsNamed(b: Blob, at: nat, dir: string, addressCells: nat, sizeCells: nat)
    ensures var r := NodeFrom(b, at, dir, addressCells, sizeCells);
      r.Parsed? ==> Named(r.node) && r.node.fullName == dir + "/" + r.node.name
    decreases |b.data| - at, 0
  {
    hide BodyFrom;
    var r := NodeFrom(b, at, dir, addressCells, sizeCells);
    if r.Parsed? {
      var tag := FirstTag(b.data, at).value;
      var raw := CString(b.data, tag.1).value;
      var parts := NameParts(b.rules, raw).value;
      BodyIsNamed(b, AlignUp(tag.1 + |raw| + 1), NewNode(parts, dir, addressCells, sizeCells));
    }
  }

  lemma {:induction false} BodyIsNamed(b: Blob, at: nat, node: Node)
    requires Named(node)
    ensures var r := BodyFrom(b, at, node);
      r.Parsed? ==> Named(r.node) && r.node.fullName == node.fullName && r.node.name == node.name
    decreases |b.data| - at, 1
  {
    hide BodyFrom, NodeFrom, Named, ChildCells, PropAt, U32At, AlignUp, ChildDir;
    if BodyFrom(b, at, node).Parsed? {
      BodyKind(b, at, node);
      var tag := U32At(b.data, at).value;
      if tag == PROP {
        BodyProp(b, at, node);
        var r := PropAt(b, at + 4);
        PropertyKeepsNames(node, r.value.0);
        BodyIsNamed(b, r.value.1, WithProperty(node, r.value.0));
      } else if tag == BEGIN_NODE {
        BodyChild(b, at, node);
        var cells := ChildCells(b.rules, node.properties).value;
        ParsedIsNamed(b, at, ChildDir(node.fullName), cells.0, cells.1);
        var r := NodeFrom(b, at, ChildDir(node.fullName), cells.0, cells.1);
        ChildKeepsNames(node, r.node);
        BodyIsNamed(b, r.next, WithChild(node, r.node));
      } else if tag == NOP {
        BodyNop(b, at, node);
        BodyIsNamed(b, at + 4, node);
      } else {
        BodyEnd(b, at, node);
      }
    }
  }

  lemma BodyKind(b: Blob, at: nat, node: Node)
    requires BodyFrom(b, at, node).Parsed?
    ensures at + 4 <= |b.data| && U32At(b.data, at).Some?
      && U32At(b.data, at).value in {BEGIN_NODE, END_NODE, PROP, NOP}
  {
    hide NodeFrom, ChildCells, PropAt, AlignUp;
  }

  lemma PropertyKeepsNames(node: Node, prop: Property)
    requires Named(node)
    ensures Named(WithProperty(node, prop)) && WithProperty(node, prop).fullName == node.fullName
    ensures WithProperty(node, prop).name == node.name
  {
    var after := WithProperty(node, prop);
    forall k | k in after.children ensures ChildNamed(after, k) { assert ChildNamed(node, k); }
  }

  lemma ChildKeepsNames(node: Node, child: Node)
    requires Named(node) && Named(child) && child.fullName == ChildDir(node.fullName) + "/" + child.name
    ensures Named(WithChild(node, child)) && WithChild(node, child).fullName == node.fullName
    ensures WithChild(node, child).name == node.name
  {
    var after := WithChild(node, child);
    forall k | k in after.children ensures ChildNamed(after, k) {
      if k in node.children { assert ChildNamed(node, k); }
    }
  }

  /** A node below another carries the path to it. */
  lemma {:induction false} FullNameOfPath(node: Node, steps: seq<string>)
    requires Named(node) && steps != [] && Follow(node, steps).Some?
    requires ChildDir(node.fullName) == "" ==> steps[0] != ""
    ensures Follow(node, steps).value.fullName == ChildDir(node.fullName) + PathOf(steps)
    decreases |steps|
  {
    var child := node.children[steps[0]];
    assert ChildNamed(node, steps[0]);
    var dir := ChildDir(node.fullName);
    assert PathOf(steps) == "/" + steps[0] + PathOf(steps[1..]);
    if |steps| == 1 {
      assert steps[1..] == [];
      assert dir + "/" + steps[0] == dir + ("/" + steps[0] + "");
    } else {
      NotTheRoot(dir, steps[0]);
      FullNameOfPath(child, steps[1..]);
      assert dir + "/" + steps[0] + PathOf(steps[1..]) == dir + ("/" + steps[0] + PathOf(steps[1..]));
    }
  }

  lemma NotTheRoot(dir: string, name: string)
    requires dir == "" ==> name != ""
    ensures dir + "/" + name != "/"
  {
    assert |dir + "/" + name| == |dir| + 1 + |name|;
  }

  /** Every node below the root is found by its own full name, at any depth. The name of the
      root's child must not be empty, and no name on the way may hold a slash. */
  lemma FoundByFullName(b: Blob, at: nat, steps: seq<string>)
    requires var r := NodeFrom(b, at, "", DEFAULT_ADDRESS_CELLS, DEFAULT_SIZE_CELLS);
      r.Parsed? && r.node.name == "" && Follow(r.node, steps).Some?
    requires steps != [] && SlashFree(steps) && steps[0] != ""
    ensures var root := NodeFrom(b, at, "", DEFAULT_ADDRESS_CELLS, DEFAULT_SIZE_CELLS).node;
      var node := Follow(root, steps).value;
      && node.fullName == PathOf(steps) && node.fullName[0] == '/'
      && Follow(root, Components(node.fullName)) == Some(node)
  {
    var root := NodeFrom(b, at, "", DEFAULT_ADDRESS_CELLS, DEFAULT_SIZE_CELLS).node;
    ParsedIsNamed(b, at, "", DEFAULT_ADDRESS_CELLS, DEFAULT_SIZE_CELLS);
    hide NodeFrom;
    assert root.fullName == "/";
    FullNameOfPath(root, steps);
    assert "" + PathOf(steps) == PathOf(steps);
    ComponentsOfPath(steps);
  }

  // ---------- written nodes are found ----------

  /** A path of child numbers in a tree before it is written. */
  ghost predicate IsPath(t: Tree, path: seq<nat>)
    decreases |path|
  {
    path == [] || (path[0] < |t.children| && IsPath(t.children[path[0]], path[1..]))
  }

  ghost function Below(t: Tree, path: seq<nat>): Tree
    requires IsPath(t, path)
    decreases |path|
  {
    if path == [] then t else Below(t.children[path[0]], path[1..])
  }

  ghost function NamesAlong(rules: Rules, t: Tree, path: seq<nat>): seq<string>
    requires IsPath(t, path)
    decreases |path|
  {
    if path == [] then [] else [Called(rules, t.children[path[0]])] + NamesAlong(rules, t.children[path[0]], path[1..])
  }

  ghost predicate MatchesSomewhere(rules: Rules, t: Tree, node: Node, cells: (nat, nat)) {
    exists dir :: Matches(rules, t, node, dir, cells.0, cells.1)
  }

  /** The cell counts of the node a path leads to: those its parent states. */
  ghost function CellsAlong(rules: Rules, t: Tree, path: seq<nat>, cells: (nat, nat)): (nat, nat)
    requires IsPath(t, path)
    decreases |path|
  {
    if path == [] then cells else CellsAlong(rules, t.children[path[0]], path[1..], CellsOf(rules, t))
  }

  /** Following the names of written nodes leads to what was parsed from them. */
  lemma {:induction false} WrittenIsFollowed(rules: Rules, t: Tree, node: Node, path: seq<nat>, cells: (nat, nat))
    requires MatchesSomewhere(rules, t, node, cells) && IsPath(t, path)
    ensures var found := Follow(node, NamesAlong(rules, t, path));
      found.Some? && MatchesSomewhere(rules, Below(t, path), found.value, CellsAlong(rules, t, path, cells))
    decreases |path|
  {
    if path != [] {
      var i, c := path[0], t.children[path[0]];
      var names := NamesAlong(rules, t, path);
      assert names[1..] == NamesAlong(rules, c, path[1..]);
      ChildIsMatched(rules, t, node, i, cells);
      hide Matches;
      WrittenIsFollowed(rules, c, node.children[Called(rules, c)], path[1..], CellsOf(rules, t));
    }
  }

  lemma ChildIsMatched(rules: Rules, t: Tree, node: Node, i: nat, cells: (nat, nat))
    requires MatchesSomewhere(rules, t, node, cells) && i < |t.children|
    ensures Called(rules, t.children[i]) in node.children
    ensures MatchesSomewhere(rules, t.children[i], node.children[Called(rules, t.children[i])], CellsOf(rules, t))
  {
    var dir :| Matches(rules, t, node, dir, cells.0, cells.1);
    assert ChildMatches(rules, t, node, i);
    var c, below := t.children[i], if node.fullName == "/" then "" else node.fullName;
    assert Matches(rules, c, node.children[Called(rules, c)], below, CellsOf(rules, t).0, CellsOf(rules, t).1);
  }

  /** From bytes to lookup: every written node below the root is found in the loaded tree by the
      path of its names, which is the full name it was given. It has the cell counts that its
      parent states. */
  lemma WrittenIsFound(data: seq<char>, total: nat, structure: nat, strings: nat, rest: string, t: Tree, rules: Rules,
      path: seq<nat>)
    requires BlobOf(data, total, structure, strings, rest, t, rules)
    requires Called(rules, t) == "" && path != [] && IsPath(t, path)
    requires SlashFree(NamesAlong(rules, t, path)) && NamesAlong(rules, t, path)[0] != ""
    ensures var root, fullPath := LoadOf(data, rules), PathOf(NamesAlong(rules, t, path));
      root.Parsed? && fullPath != "" && fullPath[0] == '/'
      && var found := Follow(root.node, Components(fullPath));
      && found.Some? && found.value.fullName == fullPath
      && MatchesSomewhere(rules, Below(t, path), found.value, CellsAlong(rules, t, path, (2, 1)))
  {
    LoadRecovers(data, total, structure, strings, rest, t, rules);
    var root, steps := LoadOf(data, rules).node, NamesAlong(rules, t, path);
    assert root.name == "" && MatchesSomewhere(rules, t, root, (2, 1));
    hide Matches, NodeFrom, WellFormed, WriteTree, WriteHeader, HeaderOf;
    WrittenIsFollowed(rules, t, root, path, (2, 1));
    FoundByFullName(Blob(data, strings, rules), structure, steps);
  }

  lemma {:induction false} ParentOf(rules: Rules, t: Tree, path: seq<nat>, cells: (nat, nat))
    requires path != [] && IsPath(t, path)
    ensures IsPath(t, path[..|path| - 1])
    ensures CellsAlong(rules, t, path, cells) == CellsOf(rules, Below(t, path[..|path| - 1]))
    decreases |path|
  {
    if |path| > 1 {
      ParentOf(rules, t.children[path[0]], path[1..], CellsOf(rules, t));
      assert path[1..][..|path| - 2] == path[..|path| - 1][1..];
    } else {
      assert path[..0] == [] && path[1..] == [];
    }
  }

  /** The parser with the names it knows: a written blob is loaded, and every written node below the
      root is got by its path, with its unit address, its properties, and the cell counts stated
      in its parent's "#address-cells" and "#size-cells", or 2 and 1. */
  method LoadAndGet(data: seq<char>, fullPath: string, ghost total: nat, ghost structure: nat, ghost strings: nat,
      ghost rest: string, ghost t: Tree, ghost path: seq<nat>) returns (root: Option<Node>, result: Option<Node>)
    requires BlobOf(data, total, structure, strings, rest, t, FDT)
    requires Called(FDT, t) == "" && path != [] && IsPath(t, path) && fullPath == PathOf(NamesAlong(FDT, t, path))
    requires SlashFree(NamesAlong(FDT, t, path)) && NamesAlong(FDT, t, path)[0] != ""
    ensures root.Some? && result.Some? && result.value.fullName == fullPath
    ensures NameParts(FDT, Below(t, path).raw) == Some((result.value.name, result.value.address))
    ensures PropsMatch(Below(t, path).props, result.value.properties)
    ensures IsPath(t, path[..|path| - 1])
    ensures var parent := Below(t, path[..|path| - 1]);
      && result.value.addressCells == Stated(parent.props, "#address-cells", 2)
      && result.value.sizeCells == Stated(parent.props, "#size-cells", 1)
  {
    WrittenIsFound(data, total, structure, strings, rest, t, FDT, path);
    ParentOf(FDT, t, path, (2, 1));
    hide BlobOf, Stated, LoadOf, NameParts, PropsMatch, Below, CellsAlong, Stoull;
    root := Load(data);
    result := GetNode(root.value, fullPath);
  }

  /** The root's own full name asks for a child without a name. */
  lemma RootIsNotItsOwnName(root: Node)
    ensures Follow(root, Components("/")).Some? <==> "" in root.children
  {
    var path := "/";
    assert path[1..1] == "";
    assert Components(path) == [""];
    assert [""][1..] == [];
  }
}
