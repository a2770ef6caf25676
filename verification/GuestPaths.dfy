/**
 Collecting the boot filesystem's entries from installed programs and host mounts: guest paths are
 normalised, and every directory on the way to an entry is listed, so the image builder always
 finds an entry's parent.
 */
module GuestPaths {
  import opened Common
  import opened FsLayout
  import opened FsImage
  import opened FsDescribe

  const BACKSLASH: Byte := 92

  /** Length of the white-space character that `s` starts with (UTF-8), or 0. */
  function SpaceAtStart(s: Path): (n: nat)
    ensures n <= |s|
  {
    if |s| >= 1 && (9 <= s[0] <= 13 || s[0] == 32) then 1
    else if |s| >= 2 && s[0] == 0xC2 && (s[1] == 0x85 || s[1] == 0xA0) then 2
    else if |s| >= 3 && WideSpace(s[0], s[1], s[2]) then 3
    else 0
  }

  function SpaceAtEnd(s: Path): (n: nat)
    ensures n <= |s|
  {
    var l := |s|;
    if l >= 1 && (9 <= s[l - 1] <= 13 || s[l - 1] == 32) then 1
    else if l >= 2 && s[l - 2] == 0xC2 && (s[l - 1] == 0x85 || s[l - 1] == 0xA0) then 2
    else if l >= 3 && WideSpace(s[l - 3], s[l - 2], s[l - 1]) then 3
    else 0
  }

  predicate WideSpace(a: Byte, b: Byte, c: Byte) {
    || (a == 0xE1 && b == 0x9A && c == 0x80)
    || (a == 0xE2 && b == 0x80 && (0x80 <= c <= 0x8A || c == 0xA8 || c == 0xA9 || c == 0xAF))
    || (a == 0xE2 && b == 0x81 && c == 0x9F)
    || (a == 0xE3 && b == 0x80 && c == 0x80)
  }

  function TrimStart(s: Path): Path {
    if SpaceAtStart(s) == 0 then s else TrimStart(s[SpaceAtStart(s)..])
  }

  function TrimEnd(s: Path): Path {
    if SpaceAtEnd(s) == 0 then s else TrimEnd(s[..|s| - SpaceAtEnd(s)])
  }

  function Slashed(s: Path): Path {
    seq(|s|, i requires 0 <= i < |s| => if s[i] == BACKSLASH then SLASH else s[i])
  }

  /** `normalize_guest_path` */
  function NormalizeGuestPath(path: Path): (r: Path)
    ensures r != [] && r[0] == SLASH
  {
    var trimmed := Slashed(TrimEnd(TrimStart(path)));
    if trimmed != [] && trimmed[0] == SLASH then trimmed else [SLASH] + trimmed
  }

  lemma {:induction false} TrimmedEnd(s: Path)
    ensures SpaceAtEnd(TrimEnd(s)) == 0
  {
    if SpaceAtEnd(s) != 0 { TrimmedEnd(s[..|s| - SpaceAtEnd(s)]); }
  }

  lemma SlashedEnd(s: Path)
    ensures SpaceAtEnd(Slashed(s)) == SpaceAtEnd(s) && SpaceAtEnd([SLASH] + s) == SpaceAtEnd(s)
    ensures Slashed(Slashed(s)) == Slashed(s) && Slashed([SLASH] + Slashed(s)) == [SLASH] + Slashed(s)
  {
    var t := [SLASH] + s;
    assert |s| >= 1 ==> t[|t| - 1] == s[|s| - 1];
    assert |s| >= 2 ==> t[|t| - 2] == s[|s| - 2];
    assert |s| >= 3 ==> t[|t| - 3] == s[|s| - 3];
  }

  /** Normalising a normalised path changes nothing. */
  lemma NormalizeIdempotent(path: Path)
    ensures NormalizeGuestPath(NormalizeGuestPath(path)) == NormalizeGuestPath(path)
  {
    var t := TrimEnd(TrimStart(path));
    TrimmedEnd(TrimStart(path));
    SlashedEnd(t);
    SlashedEnd(Slashed(t));
    var g := NormalizeGuestPath(path);
    hide SpaceAtEnd, Slashed;
    assert TrimStart(g) == g;
    assert TrimEnd(g) == g;
    assert Slashed(g) == g;
  }

  /** `join_guest_path` */
  function JoinGuestPath(parent: Path, name: Path): Path {
    if parent == ROOT then [SLASH] + name else parent + [SLASH] + name
  }

  /** The proper prefixes of `path` that end just before a '/'. */
  ghost function Ancestors(path: Path): set<Path> {
    set i | 0 < i < |path| && path[i] == SLASH :: path[..i]
  }

  /** Nearest '/' at or after `from`. */
  method FindSlash(path: Path, from: nat) returns (at: nat)
    requires from <= |path|
    ensures from <= at <= |path| && (at < |path| ==> path[at] == SLASH)
    ensures forall i :: from <= i < at ==> path[i] != SLASH
  {
    at := from;
    while at < |path| && path[at] != SLASH
      invariant from <= at <= |path|
      invariant forall i :: from <= i < at ==> path[i] != SLASH
    {
      at := at + 1;
    }
  }

  /** `add_parent_dirs` */
  method AddParentDirs(path: Path, dirs: set<Path>) returns (r: set<Path>)
    ensures r == dirs + Ancestors(NormalizeGuestPath(path))
  {
    var p := NormalizeGuestPath(path);
    r := dirs;
    var cursor := 0;
    while true
      invariant 0 <= cursor < |p|
      invariant r == dirs + set i | 0 < i <= cursor && p[i] == SLASH :: p[..i]
      decreases |p| - cursor
    {
      var end := FindSlash(p, cursor + 1);
      if end == |p| {
        break;
      }
      r := r + {p[..end]};
      cursor := end;
    }
  }

  // ----- Collecting -----

  /** What the host workspace holds at a mount point. */
  datatype Host =
    | HostFile(data: seq<Byte>)
    | HostDir(children: seq<(Path, Host)>)
    | HostError

  /** An installed program: where, if anywhere, and its bytes or a compile error. */
  datatype Program = Program(installPath: Option<Path>, data: Result<seq<Byte>, string>)

  /** Each directory and each file lies in "/" or in a listed directory. */
  ghost predicate ParentClosed(dirs: set<Path>, files: seq<FsEntry>) {
    && (forall d :: d in dirs ==> ParentPath(d) == ROOT || ParentPath(d) in dirs)
    && (forall i :: 0 <= i < |files| ==>
       files[i].File? && (ParentPath(files[i].path) == ROOT || ParentPath(files[i].path) in dirs))
  }

  lemma AncestorsClosed(path: Path)
    requires path != [] && path[0] == SLASH
    ensures ParentPath(path) == ROOT || ParentPath(path) in Ancestors(path)
    ensures forall d :: d in Ancestors(path) ==> ParentPath(d) == ROOT || ParentPath(d) in Ancestors(path)
  {
    forall d | d in Ancestors(path) ensures ParentPath(d) == ROOT || ParentPath(d) in Ancestors(path) {
      var i :| 0 < i < |path| && path[i] == SLASH && d == path[..i];
      var j := LastSlash(d);
      if j > 0 {
        assert d[..j] == path[..j] && path[j] == d[j] == SLASH;
      }
    }
  }

  /** Files in the order met, and the directories listed for them. */
  datatype Collected = Collected(files: seq<FsEntry>, dirs: set<Path>)

  function Plus(a: Collected, b: Collected): Collected {
    Collected(a.files + b.files, a.dirs + b.dirs)
  }

  ghost function Then(a: Option<Collected>, b: Option<Collected>): Option<Collected> {
    if a.Some? && b.Some? then Some(Plus(a.value, b.value)) else None
  }

  const NOTHING := Collected([], {})

  /** What a host tree mounted at `guest` contributes: every file under its joined path, every directory,
      and every directory on the way; nothing if any part of it cannot be read. */
  ghost function OfHost(host: Host, guest: Path): Option<Collected>
    decreases host, 1
  {
    var g := NormalizeGuestPath(guest);
    match host
    case HostError => None
    case HostFile(data) => Some(Collected([File(g, data)], Ancestors(g)))
    case HostDir(children) => Then(Some(Collected([], Ancestors(g) + {g})), OfChildren(host, g, |children|))
  }

  /** The last `n` children of a directory */
  ghost function OfChildren(host: Host, g: Path, n: nat): Option<Collected>
    requires host.HostDir? && n <= |host.children|
    decreases host, 0, n
  {
    if n == 0 then Some(NOTHING)
    else
      var child := host.children[|host.children| - n];
      Then(OfHost(child.1, JoinGuestPath(g, child.0)), OfChildren(host, g, n - 1))
  }

  ghost function OfMounts(mounts: seq<(Host, Path)>): Option<Collected> {
    if mounts == [] then Some(NOTHING) else Then(OfHost(mounts[0].0, mounts[0].1), OfMounts(mounts[1..]))
  }

  ghost function OfProgram(p: Program): Option<Collected> {
    if p.installPath.None? then Some(NOTHING)
    else if p.data.Err? then None
    else
      var g := NormalizeGuestPath(p.installPath.value);
      Some(Collected([File(g, p.data.value)], Ancestors(g)))
  }

  ghost function OfPrograms(programs: seq<Program>): Option<Collected> {
    if programs == [] then Some(NOTHING) else Then(OfProgram(programs[0]), OfPrograms(programs[1..]))
  }

  lemma ThenJoins(a: Option<Collected>, b: Option<Collected>, c: Option<Collected>)
    ensures Then(Then(a, b), c) == Then(a, Then(b, c))
    ensures Then(a, Some(NOTHING)) == a && Then(Some(NOTHING), a) == a
  {
    if a.Some? {
      assert Plus(a.value, NOTHING) == a.value
             by { assert a.value.files + [] == a.value.files && a.value.dirs + {} == a.value.dirs; }
      assert Plus(NOTHING, a.value) == a.value
             by { assert [] + a.value.files == a.value.files && {} + a.value.dirs == a.value.dirs; }
      if b.Some? && c.Some? {
        assert a.value.files + b.value.files + c.value.files == a.value.files + (b.value.files + c.value.files);
        assert a.value.dirs + b.value.dirs + c.value.dirs == a.value.dirs + (b.value.dirs + c.value.dirs);
      }
    }
  }

  // ----- Parents are listed -----

  ghost predicate AllClosed(c: Option<Collected>) {
    c.Some? ==> ParentClosed(c.value.dirs, c.value.files)
  }

  lemma ThenClosed(a: Option<Collected>, b: Option<Collected>)
    requires AllClosed(a) && AllClosed(b)
    ensures AllClosed(Then(a, b))
  {
    hide ParentPath;
  }

  lemma NothingClosed()
    ensures AllClosed(Some(NOTHING))
  {
  }

  lemma OneClosed(g: Path, data: seq<Byte>)
    requires g != [] && g[0] == SLASH
    ensures AllClosed(Some(Collected([File(g, data)], Ancestors(g))))
            && AllClosed(Some(Collected([], Ancestors(g) + {g})))
  {
    AncestorsClosed(g);
    hide ParentPath, Ancestors;
  }

  /** Whatever a host tree contributes, the parent of each entry is among it. */
  lemma {:induction false} HostClosed(host: Host, guest: Path)
    ensures AllClosed(OfHost(host, guest))
    decreases host, 1
  {
    var g := NormalizeGuestPath(guest);
    hide AllClosed, Ancestors, NormalizeGuestPath;
    match host {
      case HostError => NoneClosed();
      case HostFile(data) => OneClosed(g, data);
      case HostDir(children) =>
        OneClosed(g, []);
        ChildrenClosed(host, g, |children|);
        ThenClosed(Some(Collected([], Ancestors(g) + {g})), OfChildren(host, g, |children|));
    }
  }

  lemma NoneClosed()
    ensures AllClosed(None)
  {
  }

  lemma {:induction false} ChildrenClosed(host: Host, g: Path, n: nat)
    requires host.HostDir? && n <= |host.children|
    ensures AllClosed(OfChildren(host, g, n))
    decreases host, 0, n
  {
    hide AllClosed, OfHost, Then;
    NothingClosed();
    if n > 0 {
      var child := host.children[|host.children| - n];
      HostClosed(child.1, JoinGuestPath(g, child.0));
      ChildrenClosed(host, g, n - 1);
      ThenClosed(OfHost(child.1, JoinGuestPath(g, child.0)), OfChildren(host, g, n - 1));
    }
  }

  lemma {:induction false} MountsClosed(mounts: seq<(Host, Path)>)
    ensures AllClosed(OfMounts(mounts))
  {
    hide AllClosed, OfHost, Then;
    NothingClosed();
    if mounts != [] {
      HostClosed(mounts[0].0, mounts[0].1);
      MountsClosed(mounts[1..]);
      ThenClosed(OfHost(mounts[0].0, mounts[0].1), OfMounts(mounts[1..]));
    }
  }

  lemma ProgramClosed(p: Program)
    ensures AllClosed(OfProgram(p))
  {
    NothingClosed();
    NoneClosed();
    hide AllClosed, Ancestors, NormalizeGuestPath;
    if p.installPath.Some? && p.data.Ok? { OneClosed(NormalizeGuestPath(p.installPath.value), p.data.value); }
  }

  lemma {:induction false} ProgramsClosed(programs: seq<Program>)
    ensures AllClosed(OfPrograms(programs))
  {
    hide AllClosed, OfProgram, Then;
    NothingClosed();
    if programs != [] {
      ProgramClosed(programs[0]);
      ProgramsClosed(programs[1..]);
      ThenClosed(OfProgram(programs[0]), OfPrograms(programs[1..]));
    }
  }

  // ----- The collectors as they run -----

  /** What a collector leaves of `was`: `more` added, or an error. */
  ghost predicate Adds(was: Collected, more: Option<Collected>, ok: bool, now: Collected) {
    (ok <==> more.Some?) && (ok ==> now == Plus(was, more.value))
  }

  lemma AddsThen(was: Collected, a: Option<Collected>, mid: Collected, b: Option<Collected>)
    requires Adds(was, a, true, mid)
    ensures forall ok, now :: Adds(mid, b, ok, now) ==> Adds(was, Then(a, b), ok, now)
  {
    ThenJoins(Some(was), a, b);
  }

  /** `collect_mount_entries` */
  method CollectMountEntries(host: Host, guest: Path, was: Collected) returns (ok: bool, now: Collected)
    ensures Adds(was, OfHost(host, guest), ok, now)
    decreases host, 1
  {
    var g := NormalizeGuestPath(guest);
    ok := true;
    NormalizeIdempotent(guest);
    hide NormalizeGuestPath, Ancestors, OfChildren;
    var dirs := AddParentDirs(g, was.dirs);
    now := was.(dirs := dirs);
    match host {
      case HostError => ok := false;
      case HostFile(data) => now := now.(files := now.files + [File(g, data)]);
      case HostDir(children) =>
        now := now.(dirs := now.dirs + {g});
        ghost var own := Some(Collected([], Ancestors(g) + {g}));
        assert was.files + [] == was.files;
        assert now == Plus(was, own.value);
        AddsThen(was, own, now, OfChildren(host, g, |children|));
        hide Adds, Then;
        ok, now := CollectChildren(host, g, now);
    }
  }

  /** Its loop over the children of a directory. */
  method CollectChildren(host: Host, g: Path, was: Collected) returns (ok: bool, now: Collected)
    requires host.HostDir?
    ensures Adds(was, OfChildren(host, g, |host.children|), ok, now)
    decreases host, 0
  {
    hide OfHost;
    ok, now := true, was;
    var children := host.children;
    for i := 0 to |children|
      invariant Then(Some(now), OfChildren(host, g, |children| - i)) == Then(Some(was), OfChildren(host, g, |children|))
    {
      var child := JoinGuestPath(g, children[i].0);
      ghost var before := now;
      ok, now := CollectMountEntries(children[i].1, child, now);
      ThenJoins(Some(before), OfHost(children[i].1, child), OfChildren(host, g, |children| - i - 1));
      if !ok {
        return;
      }
    }
    ThenJoins(Some(now), None, None);
  }

  /** `add_catalog_install` */
  method AddCatalogInstall(p: Program, was: Collected) returns (ok: bool, now: Collected)
    ensures Adds(was, OfProgram(p), ok, now)
  {
    ok, now := true, was;
    hide NormalizeGuestPath, Ancestors;
    if p.installPath.None? {
      ThenJoins(Some(was), None, None);
      return;
    }
    var dirs := AddParentDirs(p.installPath.value, was.dirs);
    if p.data.Err? {
      return false, was;
    }
    now := Collected(was.files + [File(NormalizeGuestPath(p.installPath.value), p.data.value)], dirs);
  }

  method CollectPrograms(programs: seq<Program>) returns (ok: bool, now: Collected)
    ensures Adds(NOTHING, OfPrograms(programs), ok, now)
  {
    hide OfProgram;
    ok, now := true, NOTHING;
    assert programs[0..] == programs;
    for i := 0 to |programs|
      invariant Then(Some(now), OfPrograms(programs[i..])) == Then(Some(NOTHING), OfPrograms(programs))
    {
      assert programs[i..][1..] == programs[i + 1..];
      ghost var before := now;
      ok, now := AddCatalogInstall(programs[i], now);
      ThenJoins(Some(before), OfProgram(programs[i]), OfPrograms(programs[i + 1..]));
      if !ok {
        return;
      }
    }
    ThenJoins(Some(now), None, None);
  }

  method CollectMounts(mounts: seq<(Host, Path)>, was: Collected) returns (ok: bool, now: Collected)
    ensures Adds(was, OfMounts(mounts), ok, now)
  {
    hide OfHost;
    ok, now := true, was;
    assert mounts[0..] == mounts;
    for i := 0 to |mounts|
      invariant Then(Some(now), OfMounts(mounts[i..])) == Then(Some(was), OfMounts(mounts))
    {
      assert mounts[i..][1..] == mounts[i + 1..];
      ghost var before := now;
      ok, now := CollectMountEntries(mounts[i].0, mounts[i].1, now);
      ThenJoins(Some(before), OfHost(mounts[i].0, mounts[i].1), OfMounts(mounts[i + 1..]));
      if !ok {
        return;
      }
    }
    ThenJoins(Some(now), None, None);
  }

  // ----- In path order -----

  predicate InPathOrder(es: seq<FsEntry>) {
    forall i :: 0 < i < |es| ==> LexLe(es[i - 1].path, es[i].path)
  }

  lemma {:induction false} PathTotal(a: Path, b: Path)
    ensures LexLe(a, b) || LexLe(b, a)
  {
    if a != [] && b != [] && a[0] == b[0] { PathTotal(a[1..], b[1..]); }
  }

  function InsertByPath(e: FsEntry, es: seq<FsEntry>): (r: seq<FsEntry>)
    ensures multiset(r) == multiset{e} + multiset(es) && r != [] && (r[0] == e || (es != [] && r[0] == es[0]))
  {
    if es == [] || LexLe(e.path, es[0].path) then [e] + es
    else
      assert es == [es[0]] + es[1..];
      [es[0]] + InsertByPath(e, es[1..])
  }

  lemma {:induction false} InsertOrders(e: FsEntry, es: seq<FsEntry>)
    requires InPathOrder(es)
    ensures InPathOrder(InsertByPath(e, es))
  {
    if es != [] && !LexLe(e.path, es[0].path) {
      PathTotal(e.path, es[0].path);
      hide LexLe;
      InsertOrders(e, es[1..]);
      var rest := InsertByPath(e, es[1..]);
      var all := [es[0]] + rest;
      forall i | 0 < i < |all| ensures LexLe(all[i - 1].path, all[i].path) {
        if i > 1 { assert all[i - 1] == rest[i - 2] && all[i] == rest[i - 1]; }
      }
    }
  }

  /** `sort_by` on the path */
  function ByPath(es: seq<FsEntry>): (r: seq<FsEntry>)
    ensures multiset(r) == multiset(es)
  {
    if es == [] then []
    else
      assert es == [es[0]] + es[1..];
      InsertByPath(es[0], ByPath(es[1..]))
  }

  lemma {:induction false} ByPathOrders(es: seq<FsEntry>)
    ensures InPathOrder(ByPath(es))
  {
    if es != [] {
      ByPathOrders(es[1..]);
      InsertOrders(es[0], ByPath(es[1..]));
    }
  }

  /** The entries with one path, in order. */
  function WithPath(es: seq<FsEntry>, path: Path): seq<FsEntry> {
    if es == [] then [] else (if es[0].path == path then [es[0]] else []) + WithPath(es[1..], path)
  }

  lemma {:induction false} SelfLe(path: Path)
    ensures LexLe(path, path)
  {
    if path != [] { SelfLe(path[1..]); }
  }

  lemma {:induction false} InsertStable(e: FsEntry, es: seq<FsEntry>, path: Path)
    ensures WithPath(InsertByPath(e, es), path) == (if e.path == path then [e] else []) + WithPath(es, path)
  {
    var r := InsertByPath(e, es);
    if es == [] || LexLe(e.path, es[0].path) {
      assert r[1..] == es;
    } else {
      InsertStable(e, es[1..], path);
      assert r[1..] == InsertByPath(e, es[1..]);
      SelfLe(path);
      hide LexLe;
    }
  }

  /** The sort keeps the order of entries with one path. */
  lemma {:induction false} ByPathStable(es: seq<FsEntry>, path: Path)
    ensures WithPath(ByPath(es), path) == WithPath(es, path)
  {
    if es != [] {
      ByPathStable(es[1..], path);
      InsertStable(es[0], ByPath(es[1..]), path);
      hide InsertByPath;
    }
  }

  method ListDirs(dirs: set<Path>) returns (out: seq<FsEntry>)
    ensures |out| == |dirs| && InPathOrder(out) && forall e :: e in out <==> e.Dir? && e.path in dirs
  {
    var list: seq<FsEntry> := [];
    var rest := dirs;
    while rest != {}
      invariant rest <= dirs && |list| + |rest| == |dirs|
      invariant forall e :: e in list <==> e.Dir? && e.path in dirs - rest
      decreases rest
    {
      var d :| d in rest;
      list := list + [Dir(d)];
      rest := rest - {d};
    }
    out := ByPath(list);
    ByPathOrders(list);
    hide ByPath, InPathOrder;
    assert forall e :: e in out <==> e in multiset(out);
    assert forall e :: e in list <==> e in multiset(list);
    assert |multiset(out)| == |multiset(list)|;
  }

  /** All that the programs and mounts contribute. */
  ghost function Everything(programs: seq<Program>, mounts: seq<(Host, Path)>): Option<Collected> {
    Then(OfPrograms(programs), OfMounts(mounts))
  }

  /** The directories, each once, in path order, then the files by the stable sort on paths. */
  ghost predicate Lists(entries: seq<FsEntry>, c: Collected) {
    |c.dirs| <= |entries| &&
    var ds, fs := entries[..|c.dirs|], entries[|c.dirs|..];
    && InPathOrder(ds) && (forall e :: e in ds <==> e.Dir? && e.path in c.dirs)
    && fs == ByPath(c.files) && InPathOrder(fs)
  }

  lemma EverythingClosed(programs: seq<Program>, mounts: seq<(Host, Path)>)
    ensures AllClosed(Everything(programs, mounts))
  {
    hide AllClosed, OfPrograms, OfMounts, Then;
    ProgramsClosed(programs);
    MountsClosed(mounts);
    ThenClosed(OfPrograms(programs), OfMounts(mounts));
  }

  /** `kernel_fs_entries`: the catalog, then the mounts. */
  method KernelFsEntries(programs: seq<Program>, mounts: seq<(Host, Path)>) returns (r: Option<seq<FsEntry>>)
    ensures r.Some? <==> Everything(programs, mounts).Some?
    ensures r.Some? ==> Lists(r.value, Everything(programs, mounts).value)
    ensures r.Some? ==> ParentsListed(r.value) && NeverFallsBack(r.value)
  {
    hide OfPrograms, OfMounts, InPathOrder, ByPath, NeverFallsBack;
    ThenJoins(OfPrograms(programs), None, None);
    var ok, c := CollectPrograms(programs);
    if !ok {
      return None;
    }
    ok, c := CollectMounts(mounts, c);
    if !ok {
      return None;
    }
    var ds := ListDirs(c.dirs);
    ByPathOrders(c.files);
    r := Some(ds + ByPath(c.files));
    assert r.value[..|c.dirs|] == ds && r.value[|c.dirs|..] == ByPath(c.files);
    EverythingClosed(programs, mounts);
    ListedParents(r.value, c);
    NoFallback(r.value);
  }

  lemma ListedParents(entries: seq<FsEntry>, c: Collected)
    requires Lists(entries, c) && ParentClosed(c.dirs, c.files)
    ensures ParentsListed(entries)
  {
    hide ParentPath, InPathOrder;
    var ds, fs := entries[..|c.dirs|], entries[|c.dirs|..];
    assert entries == ds + fs;
    forall e | e in entries ensures ParentPath(e.path) == ROOT || Dir(ParentPath(e.path)) in entries {
      if e in fs { assert e in multiset(fs) && e in c.files; }
      assert ParentPath(e.path) in c.dirs ==> Dir(ParentPath(e.path)) in ds;
    }
  }

  // ----- The builder's parent lookup -----

  /** Each entry lies in "/" or in a listed directory. */
  ghost predicate ParentsListed(entries: seq<FsEntry>) {
    forall e :: e in entries ==> ParentPath(e.path) == ROOT || Dir(ParentPath(e.path)) in entries
  }

  /** When the builder comes to an entry, its map already holds the path of the entry's parent, so the
      lookup's default inode is never used. */
  ghost predicate NeverFallsBack(entries: seq<FsEntry>) {
    var es := Sorted(entries);
    forall i :: 0 <= i < |es| ==> ParentPath(es[i].path) in PlanOf(es[..i]).inodeOf
  }

  lemma {:induction false} PathsPlaced(es: seq<FsEntry>)
    ensures ROOT in PlanOf(es).inodeOf && forall i :: 0 <= i < |es| ==> es[i].path in PlanOf(es).inodeOf
  {
    if es != [] {
      hide Place;
      var init, last := es[..|es| - 1], es[|es| - 1];
      assert PlanOf(es) == Place(PlanOf(init), last);
      hide PlanOf;
      PathsPlaced(init);
      PlacePlaces(PlanOf(init), last);
      forall i | 0 <= i < |es| ensures es[i].path in PlanOf(es).inodeOf {
        if i < |init| { assert es[i] == init[i]; }
      }
    }
  }

  lemma PlacePlaces(plan: Plan, e: FsEntry)
    requires plan.nodes != [] && ROOT in plan.inodeOf
    ensures e.path in Place(plan, e).inodeOf
    ensures forall p :: p in plan.inodeOf ==> p in Place(plan, e).inodeOf
  {
    hide ParentInode, NewNode, EndBlock;
  }

  lemma ParentPlaced(es: seq<FsEntry>, i: nat)
    requires Ranked(es) && ParentsListed(es) && i < |es|
    ensures ParentPath(es[i].path) in PlanOf(es[..i]).inodeOf
  {
    hide ParentPath, PlanOf, Ranked;
    var p, init := ParentPath(es[i].path), es[..i];
    PathsPlaced(init);
    assert es[i] in es;
    if p != ROOT {
      var j :| 0 <= j < |es| && es[j] == Dir(p);
      ParentEarlier(es, j, i);
      assert init[j] == es[j];
    }
  }

  /** Directories come first and shorter paths first, so a listed parent is placed before its entry:
      the lookup never falls back, whatever the paths, duplicates and limits. */
  lemma NoFallback(entries: seq<FsEntry>)
    requires ParentsListed(entries)
    ensures NeverFallsBack(entries)
  {
    hide ParentPath, PlanOf, Sorted, Ranked;
    var es := Sorted(entries);
    SortedKeeps(entries);
    assert ParentsListed(es);
    forall i | 0 <= i < |es| ensures ParentPath(es[i].path) in PlanOf(es[..i]).inodeOf {
      ParentPlaced(es, i);
    }
  }
}
