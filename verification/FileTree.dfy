/** A directory tree and its leaves: which nodes a backup of the tree has to contain, where each
    one is, and in which order a walk meets them. */
module FileTree {
  import opened Text

  /** `children` are in the order a directory listing gives them. */
  datatype Node =
    | File(name: string, content: string)
    | Link(name: string, target: string)
    | Dir(name: string, children: seq<Node>)

  /** A place in the tree, as the names from below the root down. */
  type Path = seq<string>

  datatype Leaf = Leaf(rel: Path, node: Node)

  // ---------- looking up a place ----------

  function ChildNamed(children: seq<Node>, name: string): (r: Option<Node>)
    ensures r.Some? ==> r.value in children && r.value.name == name
  {
    if children == [] then None
    else if children[0].name == name then Some(children[0])
    else ChildNamed(children[1..], name)
  }

  function At(d: Node, rel: Path): Option<Node>
    decreases |rel|
  {
    if rel == [] then Some(d)
    else if !d.Dir? then None
    else match ChildNamed(d.children, rel[0])
      case None => None
      case Some(c) => At(c, rel[1..])
  }

  // ---------- walking ----------

  /** The leaves of a node in walk order, without those `excluded` says to leave out. */
  function Leaves(d: Node, rel: Path, excluded: Path -> bool): seq<Leaf>
    decreases d, 1
  {
    if d.Dir? then LeavesAll(d.children, rel, excluded)
    else if excluded(rel) then []
    else [Leaf(rel, d)]
  }

  function LeavesAll(children: seq<Node>, rel: Path, excluded: Path -> bool): seq<Leaf>
    decreases children, 0
  {
    if children == [] then []
    else Leaves(children[0], rel + [children[0].name], excluded) + LeavesAll(children[1..], rel, excluded)
  }

  /** A name a file system accepts. */
  predicate GoodName(name: string) {
    name != "" && name != "." && name != ".." && '/' !in name
  }

  /** Every listing below has good, distinct names. */
  predicate WellNamed(d: Node)
    decreases d, 1
  {
    d.Dir? ==> WellNamedAll(d.children)
  }

  predicate WellNamedAll(children: seq<Node>)
    decreases children, 0
  {
    children != [] ==>
      && GoodName(children[0].name) && WellNamed(children[0]) && WellNamedAll(children[1..])
      && forall i :: 1 <= i < |children| ==> children[i].name != children[0].name
  }

  /** Every listing below is in name order, as the operating system interface returns it. */
  predicate NameOrdered(d: Node)
    decreases d, 1
  {
    d.Dir? ==> NameOrderedAll(d.children)
  }

  predicate NameOrderedAll(children: seq<Node>)
    decreases children, 0
  {
    children != [] ==>
      && NameOrdered(children[0]) && NameOrderedAll(children[1..])
      && forall i :: 1 <= i < |children| ==> NameLess(children[0].name, children[i].name)
  }

  // ---------- every leaf once ----------

  lemma {:induction false} LeavesBelow(d: Node, rel: Path, excluded: Path -> bool, l: Leaf)
    requires l in Leaves(d, rel, excluded)
    ensures rel <= l.rel && !excluded(l.rel) && !l.node.Dir? && (!d.Dir? ==> l == Leaf(rel, d))
    ensures d.Dir? ==> |l.rel| > |rel| && exists i :: 0 <= i < |d.children| && d.children[i].name == l.rel[|rel|]
    decreases d, 1
  {
    if d.Dir? {
      var i := LeavesAllBelow(d.children, rel, excluded, l);
    }
  }

  lemma {:induction false} LeavesAllBelow(children: seq<Node>, rel: Path, excluded: Path -> bool, l: Leaf)
    returns (i: nat)
    requires l in LeavesAll(children, rel, excluded)
    ensures i < |children| && l in Leaves(children[i], rel + [children[i].name], excluded)
    ensures rel + [children[i].name] <= l.rel && !excluded(l.rel) && !l.node.Dir?
    decreases children, 0
  {
    if l in Leaves(children[0], rel + [children[0].name], excluded) {
      i := 0;
      LeavesBelow(children[0], rel + [children[0].name], excluded, l);
    } else {
      var j := LeavesAllBelow(children[1..], rel, excluded, l);
      i := j + 1;
    }
  }

  lemma {:induction false} ChildLookup(children: seq<Node>, i: nat)
    requires WellNamedAll(children) && i < |children|
    ensures ChildNamed(children, children[i].name) == Some(children[i])
    ensures WellNamed(children[i]) && GoodName(children[i].name)
  {
    if i > 0 {
      ChildLookup(children[1..], i - 1);
    }
  }

  /** A leaf of the walk is the node at its place. */
  lemma {:induction false} LeafIsThere(d: Node, rel: Path, excluded: Path -> bool, l: Leaf)
    requires WellNamed(d) && l in Leaves(d, rel, excluded)
    ensures rel <= l.rel && At(d, l.rel[|rel|..]) == Some(l.node) && !l.node.Dir? && !excluded(l.rel)
    decreases d
  {
    LeavesBelow(d, rel, excluded, l);
    if d.Dir? {
      var i := LeavesAllBelow(d.children, rel, excluded, l);
      var c := d.children[i];
      ChildLookup(d.children, i);
      LeafIsThere(c, rel + [c.name], excluded, l);
      var below := l.rel[|rel|..];
      assert below[0] == c.name && below[1..] == l.rel[|rel| + 1..];
    }
  }

  lemma {:induction false} ChildLeaf(children: seq<Node>, rel: Path, excluded: Path -> bool, c: Node, l: Leaf)
    requires c in children && l in Leaves(c, rel + [c.name], excluded)
    ensures l in LeavesAll(children, rel, excluded)
  {
    if c != children[0] {
      ChildLeaf(children[1..], rel, excluded, c, l);
    }
  }

  predicate GoodPath(p: Path) {
    forall i :: 0 <= i < |p| ==> GoodName(p[i])
  }

  /** Places in a well-named tree are made of good names. */
  lemma {:induction false} PlaceIsGood(d: Node, rel: Path)
    requires WellNamed(d) && At(d, rel).Some?
    ensures GoodPath(rel)
    decreases |rel|
  {
    if rel != [] {
      var c := ChildNamed(d.children, rel[0]).value;
      var i :| 0 <= i < |d.children| && d.children[i] == c;
      ChildLookup(d.children, i);
      PlaceIsGood(c, rel[1..]);
      assert forall k :: 1 <= k < |rel| ==> rel[k] == rel[1..][k - 1];
    }
  }

  /** Every place that holds a leaf not left out is met by the walk. */
  lemma {:induction false} LeafIsMet(d: Node, rel: Path, excluded: Path -> bool, below: Path, n: Node)
    requires At(d, below) == Some(n) && !n.Dir? && !excluded(rel + below)
    ensures Leaf(rel + below, n) in Leaves(d, rel, excluded)
    decreases |below|
  {
    if below == [] {
      assert rel + below == rel;
    } else {
      var c := ChildNamed(d.children, below[0]).value;
      assert rel + below == rel + [c.name] + below[1..];
      LeafIsMet(c, rel + [c.name], excluded, below[1..], n);
      ChildLeaf(d.children, rel, excluded, c, Leaf(rel + below, n));
    }
  }

  /** Lexicographic order on places, component by component. */
  predicate PathLess(a: Path, b: Path) {
    b != [] && (a == [] || NameLess(a[0], b[0]) || (a[0] == b[0] && PathLess(a[1..], b[1..])))
  }

  lemma {:induction false} PathLessAt(p: Path, a: Path, b: Path)
    requires p < a && p < b && NameLess(a[|p|], b[|p|])
    ensures PathLess(a, b)
  {
    if p != [] {
      PathLessAt(p[1..], a[1..], b[1..]);
    }
  }

  /** Earlier leaves are elsewhere, and in name-ordered listings before later ones. */
  ghost predicate Apart(leaves: seq<Leaf>, ordered: bool) {
    forall i, j :: 0 <= i < j < |leaves| ==>
      leaves[i].rel != leaves[j].rel && (ordered ==> PathLess(leaves[i].rel, leaves[j].rel))
  }

  lemma {:induction false} LeavesApart(d: Node, rel: Path, excluded: Path -> bool, ordered: bool)
    requires WellNamed(d) && (ordered ==> NameOrdered(d))
    ensures Apart(Leaves(d, rel, excluded), ordered)
    decreases d, 1
  {
    if d.Dir? {
      LeavesAllApart(d.children, rel, excluded, ordered);
    }
  }

  lemma {:induction false} LeavesAllApart(children: seq<Node>, rel: Path, excluded: Path -> bool, ordered: bool)
    requires WellNamedAll(children) && (ordered ==> NameOrderedAll(children))
    ensures Apart(LeavesAll(children, rel, excluded), ordered)
    decreases children, 0
  {
    if children != [] {
      var first := rel + [children[0].name];
      var a, b := Leaves(children[0], first, excluded), LeavesAll(children[1..], rel, excluded);
      LeavesApart(children[0], first, excluded, ordered);
      LeavesAllApart(children[1..], rel, excluded, ordered);
      forall i, j | 0 <= i < |a| && 0 <= j < |b|
        ensures a[i].rel != b[j].rel && (ordered ==> PathLess(a[i].rel, b[j].rel))
      {
        LeavesBelow(children[0], first, excluded, a[i]);
        var k := LeavesAllBelow(children[1..], rel, excluded, b[j]);
        assert children[k + 1].name == children[1..][k].name;
        assert a[i].rel[|rel|] == children[0].name && b[j].rel[|rel|] == children[k + 1].name;
        if ordered {
          PathLessAt(rel, a[i].rel, b[j].rel);
        }
      }
      ApartJoin(a, b, ordered);
    }
  }

  lemma ApartJoin(a: seq<Leaf>, b: seq<Leaf>, ordered: bool)
    requires Apart(a, ordered) && Apart(b, ordered)
    requires forall i, j :: 0 <= i < |a| && 0 <= j < |b| ==>
               a[i].rel != b[j].rel && (ordered ==> PathLess(a[i].rel, b[j].rel))
    ensures Apart(a + b, ordered)
  {
  }

  /** The walk of a tree meets exactly the places that hold a leaf not left out, each once, and in
      lexicographic order of their paths when listings are in name order. */
  lemma WalkMeetsLeavesOnce(d: Node, excluded: Path -> bool)
    requires WellNamed(d)
    ensures forall l: Leaf :: l in Leaves(d, [], excluded) <==>
              At(d, l.rel) == Some(l.node) && !l.node.Dir? && !excluded(l.rel)
    ensures Apart(Leaves(d, [], excluded), NameOrdered(d))
  {
    forall l: Leaf
      ensures l in Leaves(d, [], excluded) <==> At(d, l.rel) == Some(l.node) && !l.node.Dir? && !excluded(l.rel)
    {
      if l in Leaves(d, [], excluded) {
        LeafIsThere(d, [], excluded, l);
        assert l.rel[0..] == l.rel;
      }
      if At(d, l.rel) == Some(l.node) && !l.node.Dir? && !excluded(l.rel) {
        assert [] + l.rel == l.rel;
        LeafIsMet(d, [], excluded, l.rel, l.node);
      }
    }
    LeavesApart(d, [], excluded, NameOrdered(d));
  }

  // ---------- the same tree listed in another order ----------

  /** The same files at the same places: listings may be in any order. */
  predicate SameTree(a: Node, b: Node)
    decreases a, b
  {
    match a
    case Dir(name, children) =>
      && b.Dir? && b.name == name
      && (forall c :: c in children ==>
            ChildNamed(b.children, c.name).Some? && SameTree(c, ChildNamed(b.children, c.name).value))
      && (forall e :: e in b.children ==> ChildNamed(children, e.name).Some?)
    case _ => a == b
  }

  lemma {:induction false} LookupMember(children: seq<Node>, c: Node)
    requires WellNamedAll(children) && c in children
    ensures ChildNamed(children, c.name) == Some(c) && WellNamed(c)
  {
    var i :| 0 <= i < |children| && children[i] == c;
    ChildLookup(children, i);
  }

  /** Looking up a name in two listings of the same directory. */
  lemma TwinChildren(a: Node, b: Node, name: string)
    requires WellNamed(a) && WellNamed(b) && SameTree(a, b) && a.Dir?
    ensures var c, e := ChildNamed(a.children, name), ChildNamed(b.children, name);
            && (c.Some? <==> e.Some?)
            && (c.Some? ==> SameTree(c.value, e.value) && WellNamed(c.value) && WellNamed(e.value))
  {
    var c, e := ChildNamed(a.children, name), ChildNamed(b.children, name);
    if c.Some? {
      LookupMember(a.children, c.value);
      LookupMember(b.children, e.value);
    }
  }

  /** The same places hold the same leaves. */
  lemma {:induction false} SameLeafAt(a: Node, b: Node, rel: Path, n: Node)
    requires WellNamed(a) && WellNamed(b) && SameTree(a, b) && !n.Dir?
    ensures At(a, rel) == Some(n) <==> At(b, rel) == Some(n)
    decreases |rel|
  {
    if rel != [] && a.Dir? {
      TwinChildren(a, b, rel[0]);
      var c, e := ChildNamed(a.children, rel[0]), ChildNamed(b.children, rel[0]);
      if c.Some? {
        SameLeafAt(c.value, e.value, rel[1..], n);
      }
    }
  }
}
