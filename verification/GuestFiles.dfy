/**
 Where collected files go, by names alone: a file under a mounted directory goes to the mount point followed
 by the names on the way to it, and nothing else is collected.
 */
module GuestFiles {
  import opened Common
  import opened FsLayout
  import opened FsImage
  import opened FsDescribe
  import opened GuestPaths

  // ----- White space and separators -----

  /** One white-space character, in UTF-8. */
  predicate White(w: seq<Byte>) {
    || w == [9] || w == [10] || w == [11] || w == [12] || w == [13] || w == [32]
    || w == [0xC2, 0x85] || w == [0xC2, 0xA0] || w == [0xE1, 0x9A, 0x80]
    || w == [0xE2, 0x80, 0xA8] || w == [0xE2, 0x80, 0xA9] || w == [0xE2, 0x80, 0xAF] || w == [0xE2, 0x81, 0x9F]
    || w == [0xE3, 0x80, 0x80] || (|w| == 3 && w[0] == 0xE2 && w[1] == 0x80 && 0x80 <= w[2] <= 0x8A)
  }

  /** The path ends in white space. */
  ghost predicate EndsBlank(path: Path) {
    exists w :: White(w) && |w| <= |path| && path[|path| - |w|..] == w
  }

  lemma WhiteOne(a: Byte)
    ensures White([a]) <==> 9 <= a <= 13 || a == 32
  {
    assert |[a]| == 1;
  }

  lemma WhiteTwo(a: Byte, b: Byte)
    ensures White([a, b]) <==> a == 0xC2 && (b == 0x85 || b == 0xA0)
  {
    var w := [a, b];
    assert w[0] == a && w[1] == b;
  }

  lemma WhiteThree(a: Byte, b: Byte, c: Byte)
    ensures White([a, b, c]) <==> WideSpace(a, b, c)
  {
    var w := [a, b, c];
    assert w[0] == a && w[1] == b && w[2] == c;
  }

  lemma WhiteShort(w: seq<Byte>)
    requires White(w)
    ensures 1 <= |w| <= 3
  {
  }

  lemma Tails(path: Path)
    ensures var l := |path|;
            && (l >= 1 ==> path[l - 1..] == [path[l - 1]])
            && (l >= 2 ==> path[l - 2..] == [path[l - 2], path[l - 1]])
            && (l >= 3 ==> path[l - 3..] == [path[l - 3], path[l - 2], path[l - 1]])
  {
  }

  ghost predicate TailWhite(path: Path, n: nat) {
    n <= |path| && White(path[|path| - n..])
  }

  lemma TailBlank(path: Path, n: nat)
    requires TailWhite(path, n)
    ensures EndsBlank(path)
  {
    hide White;
    var w := path[|path| - n..];
    assert |w| == n && path[|path| - |w|..] == w;
  }

  lemma BlankTail(path: Path)
    requires EndsBlank(path)
    ensures TailWhite(path, 1) || TailWhite(path, 2) || TailWhite(path, 3)
  {
    hide White;
    var w :| White(w) && |w| <= |path| && path[|path| - |w|..] == w;
    WhiteShort(w);
    assert TailWhite(path, |w|);
  }

  lemma EndsBlankIs(path: Path)
    ensures EndsBlank(path) <==> TailWhite(path, 1) || TailWhite(path, 2) || TailWhite(path, 3)
  {
    hide *;
    if EndsBlank(path) { BlankTail(path); }
    if TailWhite(path, 1) { TailBlank(path, 1); }
    if TailWhite(path, 2) { TailBlank(path, 2); }
    if TailWhite(path, 3) { TailBlank(path, 3); }
  }

  lemma SpaceIsWhite(path: Path)
    ensures SpaceAtEnd(path) != 0 <==> EndsBlank(path)
  {
    hide White, EndsBlank, WideSpace;
    EndsBlankIs(path);
    Tails(path);
    var l := |path|;
    if l >= 1 { WhiteOne(path[l - 1]); }
    if l >= 2 { WhiteTwo(path[l - 2], path[l - 1]); }
    if l >= 3 { WhiteThree(path[l - 3], path[l - 2], path[l - 1]); }
  }

  /** A path that normalising leaves alone: from the root, without backslashes, not ending in white space. */
  ghost predicate Settled(path: Path) {
    path != [] && path[0] == SLASH && 92 !in path && !EndsBlank(path)
  }

  lemma SettledStays(path: Path)
    requires Settled(path)
    ensures NormalizeGuestPath(path) == path
  {
    SpaceIsWhite(path);
    hide EndsBlank, SpaceAtEnd;
    assert TrimStart(path) == path && TrimEnd(path) == path;
    assert Slashed(path) == path;
  }

  // ----- Names on the way -----

  /** The names lead from `host` to `target`. */
  ghost predicate Leads(host: Host, names: seq<Path>, target: Host)
    decreases |names|
  {
    if names == [] then host == target
    else host.HostDir? && exists i ::
      0 <= i < |host.children| && host.children[i].0 == names[0] && Leads(host.children[i].1, names[1..], target)
  }

  /** Each name after a slash. */
  function Slashes(names: seq<Path>): Path {
    if names == [] then [] else [SLASH] + names[0] + Slashes(names[1..])
  }

  /** The guest path of what the names lead to: `g/n1/n2/...`, with one slash under "/". */
  function Below(g: Path, names: seq<Path>): Path {
    if names == [] then g else if g == [SLASH] then Slashes(names) else g + Slashes(names)
  }

  /** A name that a path can hold as it is. */
  ghost predicate TameName(name: Path) {
    name != [] && SLASH !in name && 92 !in name && !EndsBlank(name)
  }

  ghost predicate Tame(host: Host)
    decreases host
  {
    host.HostDir? ==> forall i :: 0 <= i < |host.children| ==> TameName(host.children[i].0) && Tame(host.children[i].1)
  }

  lemma BelowOne(g: Path, name: Path)
    ensures Below(g, [name]) == (if g == ROOT then [] else g) + ([SLASH] + name)
  {
    assert [name][1..] == [];
    assert Slashes([]) == [];
    assert Slashes([name]) == [SLASH] + name;
  }

  lemma JoinIs(g: Path, name: Path)
    requires Settled(g) && TameName(name)
    ensures JoinGuestPath(g, name) == Below(g, [name]) && Settled(Below(g, [name])) && Below(g, [name]) != ROOT
  {
    BelowOne(g, name);
    var a := if g == ROOT then [] else g;
    NotBlank(a, name);
    hide EndsBlank, Below;
    var p := a + ([SLASH] + name);
    assert JoinGuestPath(g, name) == p;
    assert 92 !in p && |p| >= 2 && p[0] == SLASH;
  }

  lemma NotBlank(a: Path, name: Path)
    requires name != [] && !EndsBlank(name)
    ensures !EndsBlank(a + ([SLASH] + name))
  {
    var p := a + ([SLASH] + name);
    SpaceIsWhite(p);
    SpaceIsWhite(name);
    hide EndsBlank, White;
    assert p[|p| - 1] == name[|name| - 1];
    assert |name| >= 2 ==> p[|p| - 2] == name[|name| - 2];
    assert |name| >= 3 ==> p[|p| - 3] == name[|name| - 3];
    assert |name| == 1 ==> p[|p| - 2] == SLASH;
    assert |name| == 2 ==> p[|p| - 3] == SLASH;
  }

  lemma BelowBelow(g: Path, name: Path, names: seq<Path>)
    requires Below(g, [name]) != ROOT
    ensures Below(Below(g, [name]), names) == Below(g, [name] + names)
  {
    BelowOne(g, name);
    var a, tail := if g == ROOT then [] else g, Slashes(names);
    assert Slashes([name] + names) == [SLASH] + name + tail by { assert ([name] + names)[1..] == names; }
    hide Slashes;
    assert a + ([SLASH] + name) + tail == a + ([SLASH] + name + tail);
    assert names == [] ==> [name] + names == [name];
  }

  // ----- What a host tree contributes -----

  /** The file at some end of the tree. */
  ghost predicate FileUnder(host: Host, g: Path, e: FsEntry) {
    e.File? && exists names :: Leads(host, names, HostFile(e.data)) && e.path == Below(g, names)
  }

  /** The tree has a part that cannot be read. */
  ghost predicate Broken(host: Host) {
    exists names :: Leads(host, names, HostError)
  }

  lemma LeadsChild(host: Host, i: nat, names: seq<Path>, target: Host)
    requires host.HostDir? && i < |host.children| && Leads(host.children[i].1, names, target)
    ensures Leads(host, [host.children[i].0] + names, target)
  {
    assert ([host.children[i].0] + names)[1..] == names;
  }

  lemma ChildLeads(host: Host, names: seq<Path>, target: Host) returns (i: nat)
    requires host.HostDir? && Leads(host, names, target) && (names != [] || !target.HostDir?)
    ensures names != [] && i < |host.children| && host.children[i].0 == names[0]
    ensures Leads(host.children[i].1, names[1..], target)
  {
    i :| 0 <= i < |host.children| && host.children[i].0 == names[0] && Leads(host.children[i].1, names[1..], target);
  }

  lemma FileAtEnd(data: seq<Byte>, g: Path, e: FsEntry)
    ensures FileUnder(HostFile(data), g, e) <==> e == File(g, data)
    ensures !Broken(HostFile(data)) && Broken(HostError) && !FileUnder(HostError, g, e)
  {
    assert Leads(HostFile(data), [], HostFile(data)) && Leads(HostError, [], HostError);
    assert Below(g, []) == g;
  }

  /** Entry `e` comes from child `i` of a directory at `g`. */
  ghost predicate FromChild(host: Host, g: Path, i: nat, e: FsEntry) {
    && host.HostDir? && i < |host.children|
    && FileUnder(host.children[i].1, Below(g, [host.children[i].0]), e)
  }

  lemma InChild(host: Host, g: Path, e: FsEntry) returns (i: nat)
    requires host.HostDir? && Tame(host) && Settled(g) && FileUnder(host, g, e)
    ensures FromChild(host, g, i, e)
  {
    hide Settled, EndsBlank, Below, TameName;
    var names :| Leads(host, names, HostFile(e.data)) && e.path == Below(g, names);
    i := ChildLeads(host, names, HostFile(e.data));
    hide Leads;
    JoinIs(g, names[0]);
    BelowBelow(g, names[0], names[1..]);
    assert [names[0]] + names[1..] == names;
  }

  lemma OfChild(host: Host, g: Path, e: FsEntry, i: nat)
    requires Tame(host) && Settled(g) && FromChild(host, g, i, e)
    ensures FileUnder(host, g, e)
  {
    hide Settled, EndsBlank, Below, Leads, TameName;
    var name, child := host.children[i].0, host.children[i].1;
    var names :| Leads(child, names, HostFile(e.data)) && e.path == Below(Below(g, [name]), names);
    JoinIs(g, name);
    BelowBelow(g, name, names);
    LeadsChild(host, i, names, HostFile(e.data));
  }

  /** A directory's files are those of its children, each under its name. */
  lemma FileInChild(host: Host, g: Path, e: FsEntry)
    requires host.HostDir? && Tame(host) && Settled(g)
    ensures FileUnder(host, g, e) <==> exists i :: FromChild(host, g, i, e)
  {
    hide *;
    if FileUnder(host, g, e) { var i := InChild(host, g, e); }
    if i :| FromChild(host, g, i, e) { OfChild(host, g, e, i); }
  }

  lemma BrokenChild(host: Host)
    requires host.HostDir?
    ensures Broken(host) <==> exists i :: 0 <= i < |host.children| && Broken(host.children[i].1)
  {
    if names :| Leads(host, names, HostError) {
      var i := ChildLeads(host, names, HostError);
      assert Broken(host.children[i].1);
    }
    if i :| 0 <= i < |host.children| && Broken(host.children[i].1) {
      var names :| Leads(host.children[i].1, names, HostError);
      LeadsChild(host, i, names, HostError);
    }
  }

  /** What is collected is nothing for a broken tree, and otherwise exactly the files that names lead to. */
  ghost predicate CollectsFiles(host: Host, g: Path, c: Option<Collected>) {
    && (c.None? <==> Broken(host))
    && (c.Some? ==> forall e :: e in c.value.files <==> FileUnder(host, g, e))
  }

  /** The same of the last `n` children of a directory. */
  ghost predicate CollectsLast(host: Host, g: Path, n: nat, c: Option<Collected>)
    requires host.HostDir? && n <= |host.children|
  {
    var first := |host.children| - n;
    && (c.None? <==> exists i :: first <= i < |host.children| && Broken(host.children[i].1))
    && (c.Some? ==> forall e :: e in c.value.files <==> exists i: nat :: first <= i && FromChild(host, g, i, e))
  }

  lemma LeafFiles(host: Host, g: Path)
    requires !host.HostDir? && NormalizeGuestPath(g) == g
    ensures CollectsFiles(host, g, OfHost(host, g))
  {
    hide NormalizeGuestPath, Ancestors, FileUnder, Broken;
    match host {
      case HostError => FileAtEnd([], g, File(g, []));
      case HostFile(data) =>
        forall e ensures FileUnder(host, g, e) <==> e == File(g, data) { FileAtEnd(data, g, e); }
        FileAtEnd(data, g, File(g, data));
      case HostDir(_) =>
    }
  }

  lemma DirFiles(host: Host, g: Path)
    requires host.HostDir? && NormalizeGuestPath(g) == g && Tame(host) && Settled(g)
    requires CollectsLast(host, g, |host.children|, OfChildren(host, g, |host.children|))
    ensures CollectsFiles(host, g, OfHost(host, g))
  {
    hide Settled, Tame, NormalizeGuestPath, Ancestors, FileUnder, Broken, FromChild, OfChildren;
    BrokenChild(host);
    forall e ensures FileUnder(host, g, e) <==> exists i :: FromChild(host, g, i, e) { FileInChild(host, g, e); }
    var c := OfChildren(host, g, |host.children|);
    assert c.Some? ==> [] + c.value.files == c.value.files;
  }

  /** Exactly the files of the host tree are collected, each under the mount point and the names that lead to
      it; an unreadable part anywhere fails the collection. */
  lemma {:induction false} HostFiles(host: Host, g: Path)
    requires Settled(g) && Tame(host)
    ensures CollectsFiles(host, g, OfHost(host, g))
    decreases host, 1
  {
    hide *;
    SettledStays(g);
    if host.HostDir? {
      ChildrenFiles(host, g, |host.children|);
      DirFiles(host, g);
    } else {
      LeafFiles(host, g);
    }
  }

  lemma TameChild(host: Host, i: nat)
    requires host.HostDir? && Tame(host) && i < |host.children|
    ensures TameName(host.children[i].0) && Tame(host.children[i].1)
  {
  }

  lemma {:induction false} ChildrenFiles(host: Host, g: Path, n: nat)
    requires Settled(g) && Tame(host) && host.HostDir? && n <= |host.children|
    ensures CollectsLast(host, g, n, OfChildren(host, g, n))
    decreases host, 0, n
  {
    hide *;
    if n == 0 {
      NoChildren(host, g);
    } else {
      var i := |host.children| - n;
      TameChild(host, i);
      JoinIs(g, host.children[i].0);
      HostFiles(host.children[i].1, Below(g, [host.children[i].0]));
      ChildrenFiles(host, g, n - 1);
      ThenFiles(host, g, n);
    }
  }

  lemma NoChildren(host: Host, g: Path)
    requires host.HostDir?
    ensures CollectsLast(host, g, 0, OfChildren(host, g, 0))
  {
    hide FileUnder, Broken, Below;
  }

  lemma ThenFiles(host: Host, g: Path, n: nat)
    requires host.HostDir? && 0 < n <= |host.children|
    requires var child := host.children[|host.children| - n];
             && JoinGuestPath(g, child.0) == Below(g, [child.0])
             && CollectsFiles(child.1, Below(g, [child.0]), OfHost(child.1, Below(g, [child.0])))
    requires CollectsLast(host, g, n - 1, OfChildren(host, g, n - 1))
    ensures CollectsLast(host, g, n, OfChildren(host, g, n))
  {
    hide FileUnder, Broken, OfHost, Below, JoinGuestPath;
    var k: nat := |host.children| - n;
    var a := OfHost(host.children[k].1, Below(g, [host.children[k].0]));
    var b, c := OfChildren(host, g, n - 1), OfChildren(host, g, n);
    assert c == Then(a, b);
    if c.Some? {
      forall e ensures e in c.value.files <==> exists i: nat :: k <= i && FromChild(host, g, i, e) {
        assert FromChild(host, g, k, e) <==> e in a.value.files;
        if i: nat :| k <= i && FromChild(host, g, i, e) {
          assert i == k || k + 1 <= i;
        }
      }
    }
    assert Broken(host.children[k].1) <==> a.None?;
  }

  // ----- Directories -----

  /** Some names lead to the directory. */
  ghost predicate DirUnder(host: Host, g: Path, p: Path) {
    exists names, children :: Leads(host, names, HostDir(children)) && p == Below(g, names)
  }

  ghost predicate DirFromChild(host: Host, g: Path, i: nat, p: Path) {
    && host.HostDir? && i < |host.children|
    && DirUnder(host.children[i].1, Below(g, [host.children[i].0]), p)
  }

  lemma DirInChild(host: Host, g: Path, p: Path) returns (i: nat)
    requires host.HostDir? && Tame(host) && Settled(g) && DirUnder(host, g, p) && p != g
    ensures DirFromChild(host, g, i, p)
  {
    hide Settled, EndsBlank, TameName;
    var names, children :| Leads(host, names, HostDir(children)) && p == Below(g, names);
    assert names != [];
    i := ChildLeads(host, names, HostDir(children));
    hide Leads, Below;
    JoinIs(g, names[0]);
    BelowBelow(g, names[0], names[1..]);
    assert [names[0]] + names[1..] == names;
  }

  lemma DirOfChild(host: Host, g: Path, p: Path, i: nat)
    requires Tame(host) && Settled(g) && DirFromChild(host, g, i, p)
    ensures DirUnder(host, g, p)
  {
    hide Settled, EndsBlank, Below, Leads, TameName;
    var name, child := host.children[i].0, host.children[i].1;
    var names, children :| Leads(child, names, HostDir(children)) && p == Below(Below(g, [name]), names);
    JoinIs(g, name);
    BelowBelow(g, name, names);
    LeadsChild(host, i, names, HostDir(children));
  }

  lemma DirItself(host: Host, g: Path)
    ensures host.HostDir? <==> DirUnder(host, g, g) && host.HostDir?
    ensures !host.HostDir? ==> forall p :: !DirUnder(host, g, p)
  {
    if host.HostDir? {
      assert Leads(host, [], HostDir(host.children)) && g == Below(g, []);
    }
  }

  lemma AncestorsJoined(a: Path, name: Path)
    requires SLASH !in name
    ensures Ancestors(a + ([SLASH] + name)) <= Ancestors(a) + {a}
  {
    var p := a + ([SLASH] + name);
    assert forall j :: |a| < j < |p| ==> p[j] == name[j - |a| - 1];
    forall d | d in Ancestors(p) ensures d in Ancestors(a) + {a} {
      var i :| 0 < i < |p| && p[i] == SLASH && d == p[..i];
      assert d == a[..i];
    }
  }

  lemma NoAncestors(name: Path)
    requires SLASH !in name
    ensures Ancestors([] + ([SLASH] + name)) == {}
  {
    var p := [] + ([SLASH] + name);
    assert forall j :: 0 < j < |p| ==> p[j] == name[j - 1];
  }

  lemma AncestorsBelow(g: Path, name: Path)
    requires Settled(g) && TameName(name)
    ensures Ancestors(Below(g, [name])) <= Ancestors(g) + {g}
  {
    BelowOne(g, name);
    hide Settled, EndsBlank, Below, Ancestors;
    if g == ROOT {
      NoAncestors(name);
    } else {
      AncestorsJoined(g, name);
    }
  }

  /** The directories collected are those that names lead to and those on the way to the mount point. */
  ghost predicate CollectsDirs(host: Host, g: Path, c: Option<Collected>) {
    c.Some? ==> forall p :: p in c.value.dirs <==> p in Ancestors(g) || DirUnder(host, g, p)
  }

  ghost predicate CollectsDirsLast(host: Host, g: Path, n: nat, c: Option<Collected>)
    requires host.HostDir? && n <= |host.children|
  {
    c.Some? ==>
      && (forall i: nat, p :: |host.children| - n <= i && DirFromChild(host, g, i, p) ==> p in c.value.dirs)
      && (forall p :: p in c.value.dirs ==> p in Ancestors(g) + {g} || exists i: nat :: DirFromChild(host, g, i, p))
  }

  lemma DirDirs(host: Host, g: Path)
    requires host.HostDir? && NormalizeGuestPath(g) == g && Tame(host) && Settled(g)
    requires CollectsDirsLast(host, g, |host.children|, OfChildren(host, g, |host.children|))
    ensures CollectsDirs(host, g, OfHost(host, g))
  {
    hide Settled, Tame, NormalizeGuestPath, Ancestors, DirUnder, DirFromChild, OfChildren;
    DirItself(host, g);
    var c := OfHost(host, g);
    if c.Some? {
      forall p ensures p in c.value.dirs <==> p in Ancestors(g) || DirUnder(host, g, p) {
        if p != g && DirUnder(host, g, p) { var i := DirInChild(host, g, p); }
        if i: nat :| DirFromChild(host, g, i, p) { DirOfChild(host, g, p, i); }
      }
    }
  }

  lemma LeafDirs(host: Host, g: Path)
    requires !host.HostDir? && NormalizeGuestPath(g) == g
    ensures CollectsDirs(host, g, OfHost(host, g))
  {
    hide NormalizeGuestPath, Ancestors, DirUnder;
    DirItself(host, g);
  }

  /** Exactly the directories of the host tree are collected, and those on the way to the mount point. */
  lemma {:induction false} HostDirs(host: Host, g: Path)
    requires Settled(g) && Tame(host)
    ensures CollectsDirs(host, g, OfHost(host, g))
    decreases host, 1
  {
    hide *;
    SettledStays(g);
    if host.HostDir? {
      ChildrenDirs(host, g, |host.children|);
      DirDirs(host, g);
    } else {
      LeafDirs(host, g);
    }
  }

  lemma {:induction false} ChildrenDirs(host: Host, g: Path, n: nat)
    requires Settled(g) && Tame(host) && host.HostDir? && n <= |host.children|
    ensures CollectsDirsLast(host, g, n, OfChildren(host, g, n))
    decreases host, 0, n
  {
    hide *;
    if n == 0 {
      NoChildDirs(host, g);
    } else {
      var i := |host.children| - n;
      TameChild(host, i);
      JoinIs(g, host.children[i].0);
      AncestorsBelow(g, host.children[i].0);
      HostDirs(host.children[i].1, Below(g, [host.children[i].0]));
      ChildrenDirs(host, g, n - 1);
      ThenDirs(host, g, n);
    }
  }

  lemma NoChildDirs(host: Host, g: Path)
    requires host.HostDir?
    ensures CollectsDirsLast(host, g, 0, OfChildren(host, g, 0))
  {
    hide DirUnder, Below;
  }

  lemma ThenDirs(host: Host, g: Path, n: nat)
    requires host.HostDir? && 0 < n <= |host.children|
    requires var child := host.children[|host.children| - n];
             && JoinGuestPath(g, child.0) == Below(g, [child.0])
             && Ancestors(Below(g, [child.0])) <= Ancestors(g) + {g}
             && CollectsDirs(child.1, Below(g, [child.0]), OfHost(child.1, Below(g, [child.0])))
    requires CollectsDirsLast(host, g, n - 1, OfChildren(host, g, n - 1))
    ensures CollectsDirsLast(host, g, n, OfChildren(host, g, n))
  {
    hide DirUnder, OfHost, Below, JoinGuestPath, Ancestors;
    var k: nat := |host.children| - n;
    var a := OfHost(host.children[k].1, Below(g, [host.children[k].0]));
    var b, c := OfChildren(host, g, n - 1), OfChildren(host, g, n);
    assert c == Then(a, b);
    if c.Some? {
      forall i: nat, p | k <= i && DirFromChild(host, g, i, p) ensures p in c.value.dirs {
        assert i == k || k + 1 <= i;
      }
      forall p | p in a.value.dirs ensures p in Ancestors(g) + {g} || DirFromChild(host, g, k, p) {
        assert p in Ancestors(Below(g, [host.children[k].0])) ==> p in Ancestors(g) + {g};
      }
    }
  }

  // ----- All entries -----

  /** The file an installed program contributes. */
  ghost predicate Installed(p: Program, e: FsEntry) {
    p.installPath.Some? && p.data.Ok? && e == File(NormalizeGuestPath(p.installPath.value), p.data.value)
  }

  ghost predicate AnyInstalled(programs: seq<Program>, e: FsEntry) {
    exists i :: 0 <= i < |programs| && Installed(programs[i], e)
  }

  /** Some program to install does not compile. */
  ghost predicate AnyFails(programs: seq<Program>) {
    exists i :: 0 <= i < |programs| && programs[i].installPath.Some? && programs[i].data.Err?
  }

  lemma {:induction false} ProgramFiles(programs: seq<Program>)
    ensures var c := OfPrograms(programs);
            && (c.None? <==> AnyFails(programs))
            && (c.Some? ==> forall e :: e in c.value.files <==> AnyInstalled(programs, e))
  {
    hide NormalizeGuestPath, Ancestors;
    if programs != [] {
      ProgramFiles(programs[1..]);
      var a, b, c := OfProgram(programs[0]), OfPrograms(programs[1..]), OfPrograms(programs);
      assert forall i :: 0 < i < |programs| ==> programs[i] == programs[1..][i - 1];
      assert c == Then(a, b);
      if c.Some? {
        forall e ensures e in c.value.files <==> AnyInstalled(programs, e) {
          assert e in a.value.files <==> Installed(programs[0], e);
          if i :| 0 <= i < |programs| && Installed(programs[i], e) {
            if i > 0 { assert Installed(programs[1..][i - 1], e); }
          }
        }
      }
    }
  }

  /** Every mount point is settled and every name under it can be kept. */
  ghost predicate TameMounts(mounts: seq<(Host, Path)>) {
    forall i :: 0 <= i < |mounts| ==> Settled(mounts[i].1) && Tame(mounts[i].0)
  }

  ghost predicate AnyUnder(mounts: seq<(Host, Path)>, e: FsEntry) {
    exists i :: 0 <= i < |mounts| && FileUnder(mounts[i].0, mounts[i].1, e)
  }

  ghost predicate AnyBroken(mounts: seq<(Host, Path)>) {
    exists i :: 0 <= i < |mounts| && Broken(mounts[i].0)
  }

  lemma {:induction false} MountFiles(mounts: seq<(Host, Path)>)
    requires TameMounts(mounts)
    ensures var c := OfMounts(mounts);
            && (c.None? <==> AnyBroken(mounts))
            && (c.Some? ==> forall e :: e in c.value.files <==> AnyUnder(mounts, e))
  {
    hide Settled, Tame, Broken, FileUnder, OfHost;
    if mounts != [] {
      MountFiles(mounts[1..]);
      HostFiles(mounts[0].0, mounts[0].1);
      var a, b, c := OfHost(mounts[0].0, mounts[0].1), OfMounts(mounts[1..]), OfMounts(mounts);
      assert forall i :: 0 < i < |mounts| ==> mounts[i] == mounts[1..][i - 1];
      assert c == Then(a, b);
      if c.Some? {
        forall e ensures e in c.value.files <==> AnyUnder(mounts, e) {
          if i :| 0 <= i < |mounts| && FileUnder(mounts[i].0, mounts[i].1, e) {
            if i > 0 { assert FileUnder(mounts[1..][i - 1].0, mounts[1..][i - 1].1, e); }
          }
        }
      }
    }
  }

  lemma ListsFiles(entries: seq<FsEntry>, c: Collected, e: FsEntry)
    requires Lists(entries, c) && e.File?
    ensures e in entries <==> e in c.files
  {
    hide InPathOrder, ByPath;
    var ds, fs := entries[..|c.dirs|], entries[|c.dirs|..];
    assert entries == ds + fs;
    assert multiset(fs) == multiset(c.files);
    assert e in fs <==> e in multiset(fs);
  }

  /** The files listed for the boot filesystem are exactly the installed programs and, for each mount, the
      files under its host tree at the mount point followed by the names that lead to them; collection fails
      exactly when an installed program does not compile or a part of a mounted tree cannot be read. */
  lemma ListedFiles(programs: seq<Program>, mounts: seq<(Host, Path)>, entries: seq<FsEntry>, e: FsEntry)
    requires TameMounts(mounts)
    ensures Everything(programs, mounts).None? <==> AnyFails(programs) || AnyBroken(mounts)
    ensures Everything(programs, mounts).Some? && Lists(entries, Everything(programs, mounts).value) && e.File? ==>
              (e in entries <==> AnyInstalled(programs, e) || AnyUnder(mounts, e))
  {
    hide OfPrograms, OfMounts, AnyInstalled, AnyUnder, AnyBroken, AnyFails, TameMounts, Lists;
    ProgramFiles(programs);
    MountFiles(mounts);
    var c := Everything(programs, mounts);
    if c.Some? && Lists(entries, c.value) && e.File? { ListsFiles(entries, c.value, e); }
  }

  // ----- Normalising -----

  /** The path starts with white space. */
  ghost predicate StartsBlank(path: Path) {
    exists w :: White(w) && |w| <= |path| && path[..|w|] == w
  }

  ghost predicate HeadWhite(path: Path, n: nat) {
    n <= |path| && White(path[..n])
  }

  lemma Heads(path: Path)
    ensures var l := |path|;
            && (l >= 1 ==> path[..1] == [path[0]])
            && (l >= 2 ==> path[..2] == [path[0], path[1]])
            && (l >= 3 ==> path[..3] == [path[0], path[1], path[2]])
  {
  }

  lemma HeadBlank(path: Path, n: nat)
    requires HeadWhite(path, n)
    ensures StartsBlank(path)
  {
    hide White;
    var w := path[..n];
    assert |w| == n && path[..|w|] == w;
  }

  lemma BlankHead(path: Path)
    requires StartsBlank(path)
    ensures HeadWhite(path, 1) || HeadWhite(path, 2) || HeadWhite(path, 3)
  {
    hide White;
    var w :| White(w) && |w| <= |path| && path[..|w|] == w;
    WhiteShort(w);
    assert HeadWhite(path, |w|);
  }

  lemma StartIsWhite(path: Path)
    ensures SpaceAtStart(path) != 0 <==> StartsBlank(path)
  {
    hide White, StartsBlank, WideSpace;
    Heads(path);
    if |path| >= 1 { WhiteOne(path[0]); }
    if |path| >= 2 { WhiteTwo(path[0], path[1]); }
    if |path| >= 3 { WhiteThree(path[0], path[1], path[2]); }
    if StartsBlank(path) { BlankHead(path); }
    if HeadWhite(path, 1) { HeadBlank(path, 1); }
    if HeadWhite(path, 2) { HeadBlank(path, 2); }
    if HeadWhite(path, 3) { HeadBlank(path, 3); }
  }

  /** Without outer white space, backslashes become slashes, and a slash is put in front where there is none. */
  lemma NormalizeIs(path: Path)
    requires !StartsBlank(path) && !EndsBlank(path)
    ensures var r := NormalizeGuestPath(path);
            var n := if path != [] && (path[0] == 47 || path[0] == 92) then 0 else 1;
            && |r| == |path| + n && r[0] == 47
            && forall i :: 0 <= i < |path| ==> r[i + n] == if path[i] == 92 then 47 else path[i]
  {
    StartIsWhite(path);
    SpaceIsWhite(path);
    hide SpaceAtStart, SpaceAtEnd, StartsBlank, EndsBlank;
    assert TrimStart(path) == path && TrimEnd(path) == path;
  }

  /** One white-space character at either end is dropped. */
  lemma NormalizeTrims(path: Path, w: seq<Byte>)
    requires White(w) && !StartsBlank(path) && !EndsBlank(path) && path != []
    ensures NormalizeGuestPath(path + w) == NormalizeGuestPath(path) == NormalizeGuestPath(w + path)
  {
    StartIsWhite(path);
    SpaceIsWhite(path);
    hide StartsBlank, EndsBlank;
    BlankAround(path, w);
    hide SpaceAtStart, SpaceAtEnd, White;
    assert (w + path)[|w|..] == path && (path + w)[..|path|] == path;
    assert TrimStart(w + path) == TrimStart(path) == path;
    assert TrimEnd(path + w) == TrimEnd(path) == path;
    assert TrimStart(path + w) == path + w;
  }

  lemma BlankAround(path: Path, w: seq<Byte>)
    requires White(w) && SpaceAtStart(path) == 0 && SpaceAtEnd(path) == 0 && path != []
    ensures SpaceAtStart(w + path) == |w| && SpaceAtEnd(path + w) == |w| && SpaceAtStart(path + w) == 0
  {
  }
}
