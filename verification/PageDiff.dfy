/**
 Page deltas between two byte images (`changed_pages`, `apply_pages`).

 `Changed(base, cur)` lists the 4096-byte pages of `cur` that have to be stored to get from
 `base` to `cur`; the tail page may be short and an absent base page counts as zeros.
 */
module PageDiff {
  import opened Common

  const PAGE: nat := 4096

  datatype PageWrite = PageWrite(page: nat, bytes: seq<Byte>)

  function PageEnd(len: nat, k: nat): (end: nat)
    requires k * PAGE < len
    ensures k * PAGE < end <= len && end <= (k + 1) * PAGE
  {
    Min((k + 1) * PAGE, len)
  }

  function PageOf(buf: seq<Byte>, k: nat): seq<Byte>
    requires k * PAGE < |buf|
  {
    buf[k * PAGE..PageEnd(|buf|, k)]
  }

  /** Does page `k` of `cur` have to be stored when `base` is already known? */
  predicate Differs(base: seq<Byte>, cur: seq<Byte>, k: nat)
    requires k * PAGE < |cur|
  {
    var lo, hi := k * PAGE, PageEnd(|cur|, k);
    if hi <= |base| then base[lo..hi] != cur[lo..hi]
    else exists i :: lo <= i < hi && cur[i] != 0
  }

  function ChangedFrom(base: seq<Byte>, cur: seq<Byte>, k: nat): seq<PageWrite>
    decreases |cur| - k * PAGE
  {
    if k * PAGE >= |cur| then []
    else if Differs(base, cur, k) then [PageWrite(k, PageOf(cur, k))] + ChangedFrom(base, cur, k + 1)
    else ChangedFrom(base, cur, k + 1)
  }

  function Changed(base: seq<Byte>, cur: seq<Byte>): seq<PageWrite> {
    ChangedFrom(base, cur, 0)
  }

  function ApplyPage(buf: seq<Byte>, w: PageWrite): (r: seq<Byte>)
    ensures |r| == |buf|
    ensures forall i :: 0 <= i < |buf| ==>
              r[i] == if w.page * PAGE <= i < w.page * PAGE + |w.bytes| then w.bytes[i - w.page * PAGE] else buf[i]
  {
    var start := w.page * PAGE;
    if start < |buf| then
      var end := Min(start + |w.bytes|, |buf|);
      buf[..start] + w.bytes[..end - start] + buf[end..]
    else
      buf
  }

  function ApplyAll(buf: seq<Byte>, pages: seq<PageWrite>): (r: seq<Byte>)
    ensures |r| == |buf|
    decreases |pages|
  {
    if pages == [] then buf else ApplyAll(ApplyPage(buf, pages[0]), pages[1..])
  }

  /** The stored pages are exactly the pages that differ, each with its current contents. */
  lemma {:induction false} ChangedExactly(base: seq<Byte>, cur: seq<Byte>, k: nat, w: PageWrite)
    ensures w in ChangedFrom(base, cur, k) <==>
            k <= w.page && w.page * PAGE < |cur| && Differs(base, cur, w.page) && w.bytes == PageOf(cur, w.page)
    decreases |cur| - k * PAGE
  {
    if k * PAGE < |cur| {
      ChangedExactly(base, cur, k + 1, w);
    }
  }

  /** A page is stored exactly when one of its bytes differs from the base's or, where the base does not cover
      the page, is not zero. */
  lemma StoredExactly(base: seq<Byte>, cur: seq<Byte>, k: nat)
    requires 4096 * k < |cur|
    ensures var end := if 4096 * k + 4096 <= |cur| then 4096 * k + 4096 else |cur|;
            (exists w :: w in Changed(base, cur) && w.page == k) <==>
            exists i :: 4096 * k <= i < end && cur[i] != if end <= |base| then base[i] else 0
  {
    var w, end := PageWrite(k, PageOf(cur, k)), if 4096 * k + 4096 <= |cur| then 4096 * k + 4096 else |cur|;
    ChangedExactly(base, cur, 0, w);
    forall v | v in Changed(base, cur) && v.page == k ensures Differs(base, cur, k) { ChangedExactly(base, cur, 0, v); }
    assert PageEnd(|cur|, k) == end;
    if end <= |base| {
      var a, b := base[4096 * k..end], cur[4096 * k..end];
      assert a != b <==> exists i :: 4096 * k <= i < end && cur[i] != base[i] by {
        if a != b {
          var j :| 0 <= j < |a| && a[j] != b[j];
          assert cur[4096 * k + j] != base[4096 * k + j];
        }
        forall i | 4096 * k <= i < end ensures cur[i] != base[i] ==> a != b {
          assert b[i - 4096 * k] == cur[i] && a[i - 4096 * k] == base[i];
        }
      }
    }
  }

  /** Byte `i` lies on a page of `cur` that is not stored. */
  ghost predicate Omitted(base: seq<Byte>, cur: seq<Byte>, i: nat)
    requires i < |cur|
  {
    !Differs(base, cur, i / PAGE)
  }

  /** `buf` holds `cur` on every page below `k` and on every page left out. */
  ghost predicate Agrees(buf: seq<Byte>, base: seq<Byte>, cur: seq<Byte>, k: nat) {
    |buf| == |cur| &&
    forall i :: 0 <= i < |cur| && (i < k * PAGE || Omitted(base, cur, i)) ==> buf[i] == cur[i]
  }

  lemma AgreesStep(buf: seq<Byte>, base: seq<Byte>, cur: seq<Byte>, k: nat)
    requires k * PAGE < |cur| && Agrees(buf, base, cur, k)
    ensures Agrees(if Differs(base, cur, k) then ApplyPage(buf, PageWrite(k, PageOf(cur, k))) else buf,
                   base, cur, k + 1)
  {
    var next := if Differs(base, cur, k) then ApplyPage(buf, PageWrite(k, PageOf(cur, k))) else buf;
    forall i | 0 <= i < |cur| && (i < (k + 1) * PAGE || Omitted(base, cur, i)) ensures next[i] == cur[i] {
      if k * PAGE <= i < (k + 1) * PAGE {
        assert i / PAGE == k;
      }
    }
  }

  /** Replaying the stored pages over any buffer that already agrees with `cur` on the pages
      left out yields `cur`. */
  lemma {:induction false} ApplyChangedFrom(buf: seq<Byte>, base: seq<Byte>, cur: seq<Byte>, k: nat)
    requires Agrees(buf, base, cur, k)
    ensures ApplyAll(buf, ChangedFrom(base, cur, k)) == cur
    decreases |cur| - k * PAGE
  {
    if k * PAGE >= |cur| {
      assert buf == cur;
    } else {
      AgreesStep(buf, base, cur, k);
      var w, tail := PageWrite(k, PageOf(cur, k)), ChangedFrom(base, cur, k + 1);
      ApplyChangedFrom(if Differs(base, cur, k) then ApplyPage(buf, w) else buf, base, cur, k + 1);
      assert ([w] + tail)[1..] == tail;
    }
  }

  /** A delta against an equally long base replays to the current image. */
  lemma DeltaRoundTrip(base: seq<Byte>, cur: seq<Byte>)
    requires |base| == |cur|
    ensures ApplyAll(base, Changed(base, cur)) == cur
  {
    forall i | 0 <= i < |cur| && Omitted(base, cur, i) ensures base[i] == cur[i] {
      var k := i / PAGE;
      assert PageOf(base, k)[i - k * PAGE] == PageOf(cur, k)[i - k * PAGE];
    }
    ApplyChangedFrom(base, base, cur, 0);
  }

  /** A keyframe (diff against nothing) replays over zeros to the current image. */
  lemma KeyframeRoundTrip(cur: seq<Byte>)
    ensures ApplyAll(Zeros(|cur|), Changed([], cur)) == cur
  {
    ApplyChangedFrom(Zeros(|cur|), [], cur, 0);
  }

  lemma {:induction false} ApplyAllSnoc(buf: seq<Byte>, pages: seq<PageWrite>, n: nat)
    requires n < |pages|
    ensures ApplyAll(buf, pages[..n + 1]) == ApplyPage(ApplyAll(buf, pages[..n]), pages[n])
    decreases n
  {
    if n == 0 {
      assert pages[..1] == [pages[0]];
    } else {
      assert pages[..n + 1][1..] == pages[1..][..n];
      assert pages[..n][1..] == pages[1..][..n - 1];
      ApplyAllSnoc(ApplyPage(buf, pages[0]), pages[1..], n - 1);
    }
  }

  /** `changed_pages` */
  method ChangedPages(base: seq<Byte>, cur: seq<Byte>) returns (out: seq<PageWrite>)
    ensures out == Changed(base, cur)
  {
    out := [];
    var offset, page: nat := 0, 0;
    while offset < |cur|
      invariant offset == Min(page * PAGE, |cur|)
      invariant out + ChangedFrom(base, cur, page) == Changed(base, cur)
      decreases |cur| - offset
    {
      var end := Min(offset + PAGE, |cur|);
      var curPage := cur[offset..end];
      var differs := if end <= |base| then base[offset..end] != curPage
                     else exists i :: offset <= i < end && cur[i] != 0;
      assert differs == Differs(base, cur, page) && curPage == PageOf(cur, page);
      hide Differs, PageOf;
      if differs {
        out := out + [PageWrite(page, curPage)];
      }
      offset, page := end, page + 1;
    }
  }

  /** Copies one stored page into the buffer (`copy_from_slice`). */
  method CopyPage(buf: array<Byte>, w: PageWrite)
    modifies buf
    ensures buf[..] == ApplyPage(old(buf[..]), w)
  {
    var start := w.page * PAGE;
    if start < buf.Length {
      var end := Min(start + |w.bytes|, buf.Length);
      for i := start to end
        invariant forall j :: 0 <= j < buf.Length ==>
                    buf[j] == if start <= j < i then w.bytes[j - start] else old(buf[j])
      {
        buf[i] := w.bytes[i - start];
      }
    }
    assert buf[..] == ApplyPage(old(buf[..]), w);
  }

  /** `apply_pages`, in place on the buffer */
  method ApplyPages(buf: array<Byte>, pages: seq<PageWrite>)
    modifies buf
    ensures buf[..] == ApplyAll(old(buf[..]), pages)
  {
    ghost var before := buf[..];
    for n := 0 to |pages|
      invariant buf[..] == ApplyAll(before, pages[..n])
    {
      CopyPage(buf, pages[n]);
      ApplyAllSnoc(before, pages, n);
    }
    assert pages[..|pages|] == pages;
  }
}
