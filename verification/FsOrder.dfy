/** The order in which the builder takes the entries. */
module FsOrder {
  import opened Common
  import opened FsLayout
  import opened FsImage
  import opened FsBuild
  import opened GuestPaths

  /** `a` ends where `b` goes on, or has the smaller byte where they first differ. */
  ghost predicate Precedes(a: Path, b: Path, k: nat) {
    k <= |a| && k <= |b| && a[..k] == b[..k] && (k == |a| || (k < |b| && a[k] < b[k]))
  }

  lemma {:induction false} LexExactly(a: Path, b: Path)
    ensures LexLe(a, b) <==> exists k: nat :: Precedes(a, b, k)
  {
    if a == [] {
      assert Precedes(a, b, 0);
    } else if b != [] && a[0] == b[0] {
      LexExactly(a[1..], b[1..]);
      if k: nat :| Precedes(a[1..], b[1..], k) {
        assert a[..k + 1] == [a[0]] + a[1..][..k] && b[..k + 1] == [b[0]] + b[1..][..k];
        assert Precedes(a, b, k + 1);
      }
      if k: nat :| Precedes(a, b, k) {
        assert k > 0;
        assert a[1..][..k - 1] == a[..k][1..] && b[1..][..k - 1] == b[..k][1..];
        assert Precedes(a[1..], b[1..], k - 1);
      }
    } else if b != [] {
      if a[0] < b[0] { assert Precedes(a, b, 0); }
      if k: nat :| Precedes(a, b, k) {
        if k > 0 { assert a[..k][0] == b[..k][0]; }
      }
    }
  }

  /** Directories before files, shorter paths before longer ones, then in byte order. */
  ghost predicate Before(a: FsEntry, b: FsEntry) {
    || (a.Dir? && b.File?)
    || ((a.Dir? <==> b.Dir?) && (|a.path| < |b.path| || (|a.path| == |b.path| && LexLe(a.path, b.path))))
  }

  ghost predicate InOrder(es: seq<FsEntry>) {
    forall i :: 0 < i < |es| ==> Before(es[i - 1], es[i])
  }

  lemma KeyBefore(a: FsEntry, b: FsEntry)
    ensures KeyLe(a, b) ==> Before(a, b)
    ensures !KeyLe(a, b) ==> Before(b, a)
  {
    PathTotal(a.path, b.path);
    hide LexLe;
  }

  lemma {:induction false} InsertInOrder(e: FsEntry, es: seq<FsEntry>)
    requires InOrder(es)
    ensures InOrder(Insert(e, es)) && Insert(e, es) != []
    ensures Insert(e, es)[0] == e || (es != [] && Insert(e, es)[0] == es[0])
  {
    if es != [] {
      KeyBefore(e, es[0]);
      hide KeyLe, Before;
      if KeyLe(e, es[0]) {
        var all := [e] + es;
        forall i | 0 < i < |all| ensures Before(all[i - 1], all[i]) {
          if i > 1 { assert all[i - 1] == es[i - 2] && all[i] == es[i - 1]; }
        }
      } else {
        InsertInOrder(e, es[1..]);
        var rest := Insert(e, es[1..]);
        var all := [es[0]] + rest;
        forall i | 0 < i < |all| ensures Before(all[i - 1], all[i]) {
          if i > 1 {
            assert all[i - 1] == rest[i - 2] && all[i] == rest[i - 1];
          } else if rest[0] != e {
            assert es[1] == es[1..][0];
          }
        }
      }
    }
  }

  /** The builder takes the entries, all of them, directories first, shorter paths first, and those of one
      length in byte order. */
  lemma {:induction false} SortedInOrder(es: seq<FsEntry>)
    ensures InOrder(Sorted(es)) && multiset(Sorted(es)) == multiset(es)
  {
    SortedCounts(es);
    hide Before;
    if es != [] {
      SortedInOrder(es[1..]);
      InsertInOrder(es[0], Sorted(es[1..]));
    }
  }
}
