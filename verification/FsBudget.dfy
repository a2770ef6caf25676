/** The walk never runs out of its node budget: each inode is entered in one directory only, so the
    tree has at most one node per inode. */
module FsBudget {
  import opened Common
  import opened FsLayout
  import opened FsDecode
  import V = FsView

  /** Inode `x` is `k` or lies below it, by parent links. */
  ghost predicate Under(nodes: seq<INode>, k: nat, x: nat)
    requires x < |nodes|
    decreases x
  {
    x == k || (k < x && nodes[x].parent < x && Under(nodes, k, nodes[x].parent))
  }

  ghost function Below(nodes: seq<INode>, k: nat): set<nat> {
    set x | 0 <= x < |nodes| && Under(nodes, k, x)
  }

  ghost function BelowAll(nodes: seq<INode>, ds: seq<Dirent>): set<nat>
    decreases |ds|
  {
    if ds == [] then {} else Below(nodes, ds[0].inode) + BelowAll(nodes, ds[1..])
  }

  lemma {:induction false} SiblingsApart(nodes: seq<INode>, a: nat, b: nat, x: nat)
    requires 0 < a < b < |nodes| && x < |nodes| && nodes[a].parent == nodes[b].parent < a
    ensures !(Under(nodes, a, x) && Under(nodes, b, x))
    decreases x
  {
    if Under(nodes, a, x) && Under(nodes, b, x) && x != b {
      SiblingsApart(nodes, a, b, nodes[x].parent);
    }
  }

  ghost predicate Increasing(ds: seq<Dirent>) {
    forall i, j :: 0 <= i < j < |ds| ==> ds[i].inode < ds[j].inode
  }

  /** Entries of one directory: distinct inodes, in inode order, all with parent `k`. */
  ghost predicate EntriesOf(nodes: seq<INode>, k: nat, ds: seq<Dirent>) {
    Increasing(ds) && forall i :: 0 <= i < |ds| ==> k < ds[i].inode < |nodes| && nodes[ds[i].inode].parent == k
  }

  lemma {:induction false} DirentsOrdered(nodes: seq<INode>, n: nat, k: nat)
    requires n <= |nodes| && Ordered(nodes)
    ensures EntriesOf(nodes, k, Dirents(nodes, n, k))
    ensures forall i :: 0 <= i < |Dirents(nodes, n, k)| ==> Dirents(nodes, n, k)[i].inode < n
  {
    if n > 1 { DirentsOrdered(nodes, n - 1, k); }
  }

  lemma {:induction false} HeadApart(nodes: seq<INode>, k: nat, a: nat, ds: seq<Dirent>)
    requires 0 < a < |nodes| && nodes[a].parent == k < a && EntriesOf(nodes, k, ds)
    requires forall i :: 0 <= i < |ds| ==> a < ds[i].inode
    ensures Below(nodes, a) !! BelowAll(nodes, ds)
    decreases |ds|
  {
    if ds != [] {
      HeadApart(nodes, k, a, ds[1..]);
      forall x | x in Below(nodes, a) ensures x !in Below(nodes, ds[0].inode) {
        SiblingsApart(nodes, a, ds[0].inode, x);
      }
    }
  }

  lemma {:induction false} AllStrictlyBelow(nodes: seq<INode>, k: nat, ds: seq<Dirent>)
    requires k < |nodes| && EntriesOf(nodes, k, ds)
    ensures BelowAll(nodes, ds) <= Below(nodes, k) - {k}
    decreases |ds|
  {
    if ds != [] {
      AllStrictlyBelow(nodes, k, ds[1..]);
      forall x | x in Below(nodes, ds[0].inode) ensures x in Below(nodes, k) - {k} {
        UnderParent(nodes, k, ds[0].inode, x);
      }
    }
  }

  lemma {:induction false} UnderParent(nodes: seq<INode>, k: nat, c: nat, x: nat)
    requires k < c < |nodes| && nodes[c].parent == k && x < |nodes| && Under(nodes, c, x)
    ensures Under(nodes, k, x) && x != k
    decreases x
  {
    if x != c { UnderParent(nodes, k, c, nodes[x].parent); }
  }

  lemma {:induction false} TreeSize(nodes: seq<INode>, k: nat, name: seq<Byte>, depth: nat, fds: map<nat, nat>)
    requires Ordered(nodes) && k < |nodes|
    ensures Size(TreeOf(nodes, k, name, depth, fds)) <= |Below(nodes, k)|
    decreases Max(V.MAX_DEPTH - depth, 0), 1, 0
  {
    var ds := Dirents(nodes, |nodes|, k);
    DirentsOrdered(nodes, |nodes|, k);
    AllStrictlyBelow(nodes, k, ds);
    TreeShape(nodes, k, name, depth, fds);
    assert k in Below(nodes, k);
    SubsetSize(BelowAll(nodes, ds), Below(nodes, k) - {k});
    if nodes[k].isDir && depth < V.MAX_DEPTH {
      ForestSize(nodes, k, ds, depth, fds);
    }
  }

  lemma {:induction false} ForestSize(nodes: seq<INode>, k: nat, ds: seq<Dirent>, depth: nat, fds: map<nat, nat>)
    requires Ordered(nodes) && k < |nodes| && EntriesOf(nodes, k, ds) && depth < V.MAX_DEPTH
    ensures SizeAll(Forest(nodes, ds, depth, fds)) <= |BelowAll(nodes, ds)|
    decreases V.MAX_DEPTH - depth, 0, |ds|
  {
    hide Ordered, Forest, TreeOf, SizeAll, Below, Under;
    if ds == [] {
      EmptyForest(nodes, depth, fds);
    } else {
      ForestSize(nodes, k, ds[1..], depth, fds);
      var c, shown := ds[0].inode, V.UntilNul(ds[0].name);
      HeadApart(nodes, k, c, ds[1..]);
      assert |BelowAll(nodes, ds)| == |Below(nodes, c)| + |BelowAll(nodes, ds[1..])|;
      ForestCons(nodes, ds, depth, fds);
      if shown != [] {
        TreeSize(nodes, c, shown, depth + 1, fds);
        SizeAllCons(TreeOf(nodes, c, shown, depth + 1, fds), Forest(nodes, ds[1..], depth, fds));
      }
    }
  }

  lemma {:induction false} SubsetSize<T>(a: set<T>, b: set<T>)
    requires a <= b
    ensures |a| <= |b|
  {
    assert b == a + (b - a);
  }

  lemma {:induction false} InitialSize(s: set<nat>, n: nat)
    requires forall x :: x in s ==> x < n
    ensures |s| <= n
  {
    if n == 0 {
      assert s == {};
    } else {
      InitialSize(s - {n - 1}, n - 1);
      SubsetSize(s, (s - {n - 1}) + {n - 1});
    }
  }

  /** Decoding the root charges fewer nodes than the inode table has records. */
  lemma RootWithinBudget(nodes: seq<INode>, name: seq<Byte>, fds: map<nat, nat>)
    requires Ordered(nodes) && |nodes| <= INODE_COUNT
    ensures SizeAll(TreeOf(nodes, 0, name, 0, fds).children) < |nodes| <= V.MAX_NODES
  {
    TreeSize(nodes, 0, name, 0, fds);
    InitialSize(Below(nodes, 0), |nodes|);
  }
}
