/**
 Looking paths up in the decoded tree: when every parent is listed, names are plain and paths are
 absolute, each entry's path leads from the root to its own node.
 */
module FsPaths {
  import opened Common
  import opened FsLayout
  import opened FsImage
  import opened FsDescribe
  import V = FsView

  function ChildNamed(children: seq<V.FsNode>, name: seq<Byte>): Option<V.FsNode> {
    if children == [] then None
    else if children[0].name == name then Some(children[0])
    else ChildNamed(children[1..], name)
  }

  /** Walk a path from the root, one component at a time. */
  function Resolve(root: V.FsNode, path: Path): Option<V.FsNode>
    decreases |path|
  {
    if path == ROOT then Some(root)
    else
      var p := ParentPath(path);
      var dir := if p == ROOT then Some(root) else assert |p| < |path| by { ParentShorter(path); } Resolve(root, p);
      if dir.None? then None else ChildNamed(dir.value.children, BaseName(path))
  }

  /** Components below the root. */
  function Depth(path: Path): nat
    decreases |path|
  {
    if path == ROOT then 0
    else
      var p := ParentPath(path);
      if p == ROOT then 1 else assert |p| < |path| by { ParentShorter(path); } 1 + Depth(p)
  }

  /** The name is stored and shown unchanged: 1 to 31 bytes, none of them NUL. */
  ghost predicate Plain(name: seq<Byte>) {
    1 <= |name| <= 31 && forall i :: 0 <= i < |name| ==> name[i] != 0
  }

  predicate NoEmptyComponent(path: Path) {
    forall i :: 0 < i < |path| ==> !(path[i - 1] == SLASH && path[i] == SLASH)
  }

  predicate Absolute(path: Path) {
    path != [] && path[0] == SLASH && NoEmptyComponent(path)
  }

  /** Absolute paths with plain last components and listed parents. */
  ghost predicate Closed(es: seq<FsEntry>) {
    forall i :: 0 <= i < |es| ==>
      && Absolute(es[i].path) && Plain(BaseName(es[i].path))
      && (ParentPath(es[i].path) == ROOT || Dir(ParentPath(es[i].path)) in es)
  }

  lemma {:induction false} PlainUntilNul(name: seq<Byte>)
    requires forall i :: 0 <= i < |name| ==> name[i] != 0
    ensures V.UntilNul(name) == name
  {
    if name != [] { PlainUntilNul(name[1..]); }
  }

  lemma PlainShown(name: seq<Byte>)
    requires Plain(name)
    ensures V.UntilNul(Clip(name)) == name
  {
    assert Clip(name) == name;
    PlainUntilNul(name);
  }

  /** An absolute path is determined by its parent and last component. */
  lemma PathFromParts(a: Path, b: Path)
    requires Absolute(a) && Absolute(b) && ParentPath(a) == ParentPath(b) && BaseName(a) == BaseName(b)
    ensures a == b
  {
    var p, q := LastSlash(a), LastSlash(b);
    assert a == a[..p] + [SLASH] + BaseName(a);
    assert b == b[..q] + [SLASH] + BaseName(b);
    assert p != 1 && q != 1;
    assert a[..p] == b[..q];
  }

  lemma {:induction false} ChildEntriesSound(es: seq<FsEntry>, n: nat, p: Path, d: Dirent)
    requires n <= |es| + 1
    ensures d in ChildEntries(es, n, p) <==>
            1 <= d.inode < n && HomePath(es, es[d.inode - 1].path) == p
              && d.name == Clip(BaseName(es[d.inode - 1].path))
  {
    hide HomePath, Clip, BaseName;
    if n > 1 { ChildEntriesSound(es, n - 1, p, d); }
  }

  ghost predicate EntriesIn(es: seq<FsEntry>, p: Path, ds: seq<Dirent>) {
    forall i :: 0 <= i < |ds| ==>
      1 <= ds[i].inode <= |es| && HomePath(es, es[ds[i].inode - 1].path) == p
        && ds[i].name == Clip(BaseName(es[ds[i].inode - 1].path))
  }

  /** Two entries of one directory with the same last component are the same entry. */
  lemma NamesDistinct(es: seq<FsEntry>, i: nat, j: nat)
    requires Orderly(es) && Closed(es) && i < |es| && j < |es|
    requires HomePath(es, es[i].path) == HomePath(es, es[j].path) && BaseName(es[i].path) == BaseName(es[j].path)
    ensures i == j
  {
    PathFromParts(es[i].path, es[j].path);
    hide Ranked;
  }

  lemma DescribedCons(es: seq<FsEntry>, ds: seq<Dirent>, depth: nat, fds: map<nat, nat>)
    requires ds != [] && ds[0].inode <= |es| && depth < V.MAX_DEPTH && V.UntilNul(ds[0].name) != []
    ensures DescribedAll(es, ds, depth, fds) ==
            [Described(es, ds[0].inode, V.UntilNul(ds[0].name), depth + 1, fds)] + DescribedAll(es, ds[1..], depth, fds)
  {
    hide Described, V.UntilNul;
  }

  lemma ChildNamedCons(x: V.FsNode, rest: seq<V.FsNode>, name: seq<Byte>)
    ensures ChildNamed([x] + rest, name) == if x.name == name then Some(x) else ChildNamed(rest, name)
  {
    assert ([x] + rest)[1..] == rest;
  }

  /** The inspector shows the entry's last component, and it is not empty. */
  ghost predicate ShownAs(name: seq<Byte>, path: Path) {
    V.UntilNul(name) == BaseName(path) != []
  }

  lemma {:induction false} HeadShown(es: seq<FsEntry>, p: Path, ds: seq<Dirent>)
    requires Closed(es) && EntriesIn(es, p, ds) && ds != []
    ensures 1 <= ds[0].inode <= |es| && ShownAs(ds[0].name, es[ds[0].inode - 1].path)
  {
    hide HomePath, ParentPath, BaseName, Clip, V.UntilNul, Absolute;
    PlainShown(BaseName(es[ds[0].inode - 1].path));
  }

  lemma HeadEntry(es: seq<FsEntry>, p: Path, ds: seq<Dirent>, depth: nat, fds: map<nat, nat>)
    requires Closed(es) && EntriesIn(es, p, ds) && ds != [] && depth < V.MAX_DEPTH
    ensures 1 <= ds[0].inode <= |es|
    ensures var h := ds[0].inode;
            DescribedAll(es, ds, depth, fds) ==
            [Described(es, h, BaseName(es[h - 1].path), depth + 1, fds)] + DescribedAll(es, ds[1..], depth, fds)
  {
    hide Closed, EntriesIn, DescribedAll, Described, BaseName, V.UntilNul;
    HeadShown(es, p, ds);
    DescribedCons(es, ds, depth, fds);
  }

  lemma OtherName(es: seq<FsEntry>, p: Path, ds: seq<Dirent>, n: nat)
    requires Orderly(es) && Closed(es) && EntriesIn(es, p, ds) && n < |ds| && ds[0].inode != ds[n].inode
    ensures BaseName(es[ds[0].inode - 1].path) != BaseName(es[ds[n].inode - 1].path)
  {
    hide Orderly, Closed, BaseName, Clip, HomePath;
    if BaseName(es[ds[0].inode - 1].path) == BaseName(es[ds[n].inode - 1].path) {
      NamesDistinct(es, ds[0].inode - 1, ds[n].inode - 1);
    }
  }

  lemma {:induction false} ChildFound(es: seq<FsEntry>, p: Path, ds: seq<Dirent>, n: nat, depth: nat,
                                      fds: map<nat, nat>)
    requires Orderly(es) && Closed(es) && EntriesIn(es, p, ds) && n < |ds| && depth < V.MAX_DEPTH
    ensures var k := ds[n].inode;
            var name := BaseName(es[k - 1].path);
            ChildNamed(DescribedAll(es, ds, depth, fds), name) == Some(Described(es, k, name, depth + 1, fds))
    decreases n
  {
    hide Orderly, Closed, DescribedAll, HomePath, BaseName, Clip, ChildNamed, SizeAt;
    var k, h := ds[n].inode, ds[0].inode;
    HeadEntry(es, p, ds, depth, fds);
    var name, head := BaseName(es[k - 1].path), Described(es, h, BaseName(es[h - 1].path), depth + 1, fds);
    ChildNamedCons(head, DescribedAll(es, ds[1..], depth, fds), name);
    if h != k {
      OtherName(es, p, ds, n);
      assert ds[1..][n - 1] == ds[n];
      ChildFound(es, p, ds[1..], n - 1, depth, fds);
    }
  }

  lemma EntryListed(es: seq<FsEntry>, p: Path, k: nat) returns (n: nat)
    requires 0 < k <= |es| && HomePath(es, es[k - 1].path) == p
    ensures var ds := ChildEntries(es, |es| + 1, p);
            EntriesIn(es, p, ds) && n < |ds| && ds[n].inode == k
  {
    hide HomePath, BaseName, ChildEntries, Clip;
    var ds := ChildEntries(es, |es| + 1, p);
    var d := Dirent(Clip(BaseName(es[k - 1].path)), k);
    ChildEntriesSound(es, |es| + 1, p, d);
    assert d in ds;
    n :| 0 <= n < |ds| && ds[n] == d;
    forall i | 0 <= i < |ds|
      ensures 1 <= ds[i].inode <= |es| && HomePath(es, es[ds[i].inode - 1].path) == p
              && ds[i].name == Clip(BaseName(es[ds[i].inode - 1].path))
    {
      ChildEntriesSound(es, |es| + 1, p, ds[i]);
    }
  }

  /** Entry `k` is found in its directory's described node. */
  lemma EntryInHome(es: seq<FsEntry>, h: nat, k: nat, name: seq<Byte>, depth: nat, fds: map<nat, nat>)
    requires Orderly(es) && Closed(es) && h <= |es| && 0 < k <= |es| && depth < V.MAX_DEPTH
    requires IsDirAt(es, h) && HomePath(es, es[k - 1].path) == PathOf(es, h)
    ensures var base := BaseName(es[k - 1].path);
            ChildNamed(Described(es, h, name, depth, fds).children, base) ==
              Some(Described(es, k, base, depth + 1, fds))
  {
    var ds := ChildEntries(es, |es| + 1, PathOf(es, h));
    assert Described(es, h, name, depth, fds).children == DescribedAll(es, ds, depth, fds);
    hide *;
    var n := EntryListed(es, PathOf(es, h), k);
    ChildFound(es, PathOf(es, h), ds, n, depth, fds);
  }

  lemma ResolveStep(root: V.FsNode, path: Path)
    requires path != ROOT
    ensures var p := ParentPath(path);
            && (p == ROOT ==> Resolve(root, path) == ChildNamed(root.children, BaseName(path)) && Depth(path) == 1)
            && (p != ROOT && Resolve(root, p).Some? ==>
               Resolve(root, path) == ChildNamed(Resolve(root, p).value.children, BaseName(path)))
            && (p != ROOT ==> Depth(path) == 1 + Depth(p) && |p| < |path|)
  {
    ParentShorter(path);
    hide ParentPath, BaseName;
  }

  /** The inode of an entry's parent directory. */
  lemma HomeInode(es: seq<FsEntry>, k: nat) returns (h: nat)
    requires Orderly(es) && Closed(es) && 0 < k <= |es|
    ensures es[k - 1].path != ROOT && h <= |es| && IsDirAt(es, h)
    ensures PathOf(es, h) == ParentPath(es[k - 1].path) == HomePath(es, es[k - 1].path)
    ensures h == 0 <==> ParentPath(es[k - 1].path) == ROOT
    ensures h > 0 ==> es[h - 1].path == ParentPath(es[k - 1].path)
  {
    hide Ranked, ParentPath, BaseName;
    var p := ParentPath(es[k - 1].path);
    if p == ROOT {
      h := 0;
    } else {
      var i :| 0 <= i < |es| && es[i] == Dir(p);
      h := i + 1;
    }
  }

  ghost predicate Leads(es: seq<FsEntry>, k: nat, fds: map<nat, nat>)
    requires 0 < k <= |es|
  {
    var path := es[k - 1].path;
    Resolve(Described(es, 0, ROOT, 0, fds), path) == Some(Described(es, k, BaseName(path), Depth(path), fds))
  }

  lemma LeadsTop(es: seq<FsEntry>, k: nat, fds: map<nat, nat>)
    requires Orderly(es) && Closed(es) && 0 < k <= |es| && es[k - 1].path != ROOT && ParentPath(es[k - 1].path) == ROOT
    requires HomePath(es, es[k - 1].path) == PathOf(es, 0)
    ensures Leads(es, k, fds)
  {
    hide Orderly, Closed, ParentPath, BaseName, HomePath, Described, ChildNamed, Resolve, Depth;
    var path, root := es[k - 1].path, Described(es, 0, ROOT, 0, fds);
    ResolveStep(root, path);
    EntryInHome(es, 0, k, ROOT, 0, fds);
  }

  lemma LeadsBelow(es: seq<FsEntry>, h: nat, k: nat, fds: map<nat, nat>)
    requires Orderly(es) && Closed(es) && 0 < k <= |es| && 0 < h <= |es| && es[k - 1].path != ROOT
    requires es[h - 1].path == ParentPath(es[k - 1].path) != ROOT && IsDirAt(es, h)
    requires HomePath(es, es[k - 1].path) == PathOf(es, h) && Depth(es[k - 1].path) <= V.MAX_DEPTH
    requires Leads(es, h, fds)
    ensures Leads(es, k, fds)
  {
    hide Orderly, Closed, ParentPath, BaseName, HomePath, Described, ChildNamed, Resolve, Depth;
    var path, p, root := es[k - 1].path, es[h - 1].path, Described(es, 0, ROOT, 0, fds);
    ResolveStep(root, path);
    EntryInHome(es, h, k, BaseName(p), Depth(p), fds);
  }

  /** Every path no deeper than the inspector's limit leads from the root to its own node, with its
      own kind, name and size. */
  lemma {:induction false} PathResolves(es: seq<FsEntry>, k: nat, fds: map<nat, nat>)
    requires Orderly(es) && Closed(es) && 0 < k <= |es| && Depth(es[k - 1].path) <= V.MAX_DEPTH
    ensures Leads(es, k, fds)
    decreases |es[k - 1].path|
  {
    hide *;
    var h := HomeInode(es, k);
    ResolveStep(Described(es, 0, ROOT, 0, fds), es[k - 1].path);
    if h == 0 {
      LeadsTop(es, k, fds);
    } else {
      PathResolves(es, h, fds);
      LeadsBelow(es, h, k, fds);
    }
  }
}
