/** The decoded tree shows every inode of the image exactly once. */
module FsOnce {
  import opened Common
  import opened FsLayout
  import opened FsImage
  import opened FsDecode
  import opened FsBudget
  import opened FsDescribe
  import opened FsRoundTrip
  import opened FsPaths
  import opened GuestPaths
  import opened FsBoot
  import V = FsView

  /** The inodes shown, parents before children. */
  function Inodes(node: V.FsNode): seq<nat> {
    [node.inode] + InodesAll(node.children)
  }

  function InodesAll(forest: seq<V.FsNode>): seq<nat> {
    if forest == [] then [] else Inodes(forest[0]) + InodesAll(forest[1..])
  }

  lemma {:induction false} InodesSize(node: V.FsNode)
    ensures |Inodes(node)| == Size(node)
  {
    InodesAllSize(node.children);
  }

  lemma {:induction false} InodesAllSize(forest: seq<V.FsNode>)
    ensures |InodesAll(forest)| == SizeAll(forest)
  {
    if forest != [] {
      InodesSize(forest[0]);
      InodesAllSize(forest[1..]);
    }
  }

  lemma {:induction false} ChildInside(forest: seq<V.FsNode>, name: seq<Byte>, x: nat)
    requires ChildNamed(forest, name).Some? && x in Inodes(ChildNamed(forest, name).value)
    ensures x in InodesAll(forest)
  {
    if forest[0].name != name { ChildInside(forest[1..], name, x); }
  }

  /** What a path leads to is part of the tree. */
  lemma {:induction false} FoundInside(root: V.FsNode, path: Path, x: nat)
    requires Resolve(root, path).Some? && x in Inodes(Resolve(root, path).value)
    ensures x in Inodes(root)
    decreases |path|
  {
    if path != ROOT {
      var p := ParentPath(path);
      ParentShorter(path);
      hide ParentPath, BaseName, Inodes;
      var dir := if p == ROOT then root else Resolve(root, p).value;
      ChildInside(dir.children, BaseName(path), x);
      InsideChildren(dir, x);
      if p != ROOT { FoundInside(root, p, x); }
    }
  }

  lemma InsideChildren(node: V.FsNode, x: nat)
    requires x in InodesAll(node.children)
    ensures x in Inodes(node)
  {
  }

  ghost predicate OnceEach(s: seq<nat>, n: nat) {
    |s| == n && (forall x: nat :: x in s <==> x < n) && forall i, j :: 0 <= i < j < |s| ==> s[i] != s[j]
  }

  /** Where element `j` of `s` is once element `i` is taken out. */
  function Shifted(i: nat, j: nat): int {
    if j < i then j else j - 1
  }

  /** At most `n` numbers among which are all below `n`: each is there once. */
  lemma {:induction false} Pigeons(s: seq<nat>, n: nat)
    requires |s| <= n && forall k: nat :: k < n ==> k in s
    ensures OnceEach(s, n)
    decreases n
  {
    if n > 0 {
      var last: nat := n - 1;
      assert last in s;
      var i :| 0 <= i < |s| && s[i] == last;
      var rest := s[..i] + s[i + 1..];
      assert forall j :: 0 <= j < |s| && j != i ==> rest[Shifted(i, j)] == s[j];
      forall k: nat | k < last ensures k in rest {
        assert k in s;
        var j :| 0 <= j < |s| && s[j] == k;
        assert rest[Shifted(i, j)] == k;
      }
      Pigeons(rest, last);
      forall j | 0 <= j < |s| && j != i ensures s[j] < last {
        assert rest[Shifted(i, j)] in rest;
      }
      forall a, b | 0 <= a < b < |s| ensures s[a] != s[b] {
        if a != i && b != i { assert rest[Shifted(i, a)] != rest[Shifted(i, b)]; }
      }
    }
  }

  /** No path is deeper than the sixteen levels the inspector looks down. */
  ghost predicate Shallow(entries: seq<FsEntry>) {
    forall e :: e in entries && !IsRoot(e) ==> Depth(e.path) <= 16
  }

  lemma EntryInside(entries: seq<FsEntry>, k: nat, fds: map<nat, nat>)
    requires Tidy(entries) && ParentsListed(entries) && PlainPaths(entries) && Shallow(entries)
    requires 0 < k <= |Order(entries)|
    ensures k in Inodes(Described(Order(entries), 0, ROOT, 0, fds))
  {
    var root, e := Described(Order(entries), 0, ROOT, 0, fds), Order(entries)[k - 1];
    OrderClosed(entries);
    assert e in Order(entries);
    hide Tidy, ParentsListed, PlainPaths, Closed, Order, Described, Resolve, Depth, Shows;
    var h := EntryNode(entries, e, fds);
    SameEntry(entries, h, k);
    FoundInside(root, e.path, k);
  }

  lemma SameEntry(entries: seq<FsEntry>, h: nat, k: nat)
    requires Orderly(Order(entries)) && 0 < h <= |Order(entries)| && 0 < k <= |Order(entries)|
    requires Order(entries)[h - 1] == Order(entries)[k - 1]
    ensures h == k
  {
    hide Order, Ranked;
  }

  lemma TreeBounded(entries: seq<FsEntry>, img: seq<Byte>, fds: map<nat, nat>)
    requires WellFormed(entries) && ImageOf(img, entries)
    ensures Size(Described(Order(entries), 0, ROOT, 0, fds)) <= |Order(entries)| + 1
  {
    var nodes := NodesOf(entries);
    PlanProper(entries);
    assert Ordered(nodes) && |nodes| <= INODE_COUNT && |nodes| == |Order(entries)| + 1;
    hide WellFormed, ImageOf, Order, Ordered, Orderly, AllDescribed, TreeOf, Described, NodesOf;
    RootWithinBudget(nodes, ROOT, fds);
    TreeDescribed(Order(entries), nodes, 0, ROOT, 0, fds);
  }

  /** Decoding an image of well-formed, plainly named entries no deeper than the inspector looks shows the
      root and every entry, each exactly once, and nothing else. */
  lemma EachEntryOnce(entries: seq<FsEntry>, img: seq<Byte>, mem: V.Memory, base: nat, fds: map<nat, nat>)
    requires WellFormed(entries) && ParentsListed(entries) && PlainPaths(entries) && Shallow(entries)
    requires ImageOf(img, entries) && Loaded(mem, base, img)
    ensures OnceEach(Inodes(V.NodeAt(mem, base, 0, ROOT, 0, fds, V.MAX_NODES).0), |Order(entries)| + 1)
  {
    hide *;
    TreeRoundTrip(entries, img, mem, base, fds);
    DescribedOnce(entries, img, fds);
  }

  lemma RootInside(es: seq<FsEntry>, fds: map<nat, nat>)
    ensures 0 in Inodes(Described(es, 0, ROOT, 0, fds))
  {
    assert Inodes(Described(es, 0, ROOT, 0, fds))[0] == 0;
  }

  lemma DescribedOnce(entries: seq<FsEntry>, img: seq<Byte>, fds: map<nat, nat>)
    requires WellFormed(entries) && ParentsListed(entries) && PlainPaths(entries) && Shallow(entries)
    requires ImageOf(img, entries)
    ensures OnceEach(Inodes(Described(Order(entries), 0, ROOT, 0, fds)), |Order(entries)| + 1)
  {
    hide *;
    var root, n := Described(Order(entries), 0, ROOT, 0, fds), |Order(entries)| + 1;
    WellFormedTidy(entries);
    RootInside(Order(entries), fds);
    forall k: nat | k < n ensures k in Inodes(root) {
      if k > 0 { EntryInside(entries, k, fds); }
    }
    TreeBounded(entries, img, fds);
    InodesSize(root);
    Pigeons(Inodes(root), n);
  }
}
