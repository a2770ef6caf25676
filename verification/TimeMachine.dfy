/**
 The time-travel history (`TimeMachine`): two image logs, the light snapshots and the retired
 counts kept in step, a capture throttle, a rewind that only takes effect at the next capture,
 and an interval that doubles as old frames are evicted.

 A snapshot is its light part together with its two bulk images; reattaching the images that
 were taken off gives the snapshot back.
 */
module TimeMachine {
  import opened Common
  import opened RamLog

  const MAX_INTERVAL_GROWTH: nat := 64

  datatype Snapshot<+L> = Snapshot(light: L, ram: Image, fb: Image)

  datatype Machine<+L> = Machine(
    ram: Log, fb: Log, lights: seq<L>, retired: seq<nat>, lastRetired: Option<nat>,
    interval: nat, baseInterval: nat, evictedSinceGrowth: nat, maxFrames: nat,
    pending: Option<nat>, enabled: bool)

  function NewMachine<L>(interval: nat, stride: nat, maxFrames: nat): Machine<L> {
    Machine(New(stride), New(stride), [], [], None, Max(interval, 1), Max(interval, 1), 0, Max(maxFrames, 2), None,
      false)
  }

  function Take<T>(s: seq<T>, n: nat): seq<T> {
    if n < |s| then s[..n] else s
  }

  function Rest<T>(s: seq<T>): seq<T> {
    if s == [] then [] else s[1..]
  }

  function Emptied<L>(m: Machine<L>): Machine<L> {
    m.(ram := Cleared(m.ram), fb := Cleared(m.fb), lights := [], retired := [], lastRetired := None,
    interval := m.baseInterval, evictedSinceGrowth := 0, pending := None)
  }

  function WithEnabled<L>(m: Machine<L>, on: bool): Machine<L> {
    if on then m.(enabled := true) else Emptied(m.(enabled := false))
  }

  predicate CaptureDue<L>(m: Machine<L>, retired: nat) {
    m.enabled && (m.lastRetired.None? || Max(retired - m.lastRetired.value, 0) >= m.interval)
  }

  function Rewound<L>(m: Machine<L>, i: nat): Machine<L> {
    if i >= |m.lights| then m
    else m.(lastRetired := if i < |m.retired| then Some(m.retired[i]) else None, pending := Some(i))
  }

  function FutureDropped<L>(m: Machine<L>): Machine<L> {
    match m.pending
    case None => m
    case Some(i) =>
      m.(ram := Truncated(m.ram, i), fb := Truncated(m.fb, i),
      lights := Take(m.lights, i + 1), retired := Take(m.retired, i + 1), pending := None)
  }

  function Appended<L>(m: Machine<L>, snap: Snapshot<L>, retired: nat): Machine<L> {
    m.(ram := Pushed(m.ram, snap.ram), fb := Pushed(m.fb, snap.fb), lights := m.lights + [snap.light],
    retired := m.retired + [retired], lastRetired := Some(retired))
  }

  function Grown<L>(m: Machine<L>): Machine<L> {
    if m.evictedSinceGrowth + 1 >= m.maxFrames / 2 then
      m.(evictedSinceGrowth := 0, interval := Min(m.interval * 2, m.baseInterval * MAX_INTERVAL_GROWTH))
    else
      m.(evictedSinceGrowth := m.evictedSinceGrowth + 1)
  }

  function OldestEvicted<L>(m: Machine<L>): Machine<L> {
    Grown(m.(ram := Evicted(m.ram), fb := Evicted(m.fb), lights := Rest(m.lights), retired := Rest(m.retired)))
  }

  function ToCapacity<L>(m: Machine<L>): Machine<L>
    decreases |m.lights|
  {
    if |m.lights| > m.maxFrames then ToCapacity(OldestEvicted(m)) else m
  }

  function Captured<L>(m: Machine<L>, snap: Snapshot<L>, retired: nat): Machine<L> {
    ToCapacity(Appended(FutureDropped(m), snap, retired))
  }

  function SnapshotAt<L>(m: Machine<L>, i: nat): Option<Snapshot<L>> {
    match (Reconstruct(m.ram.frames, i), Reconstruct(m.fb.frames, i))
    case (Some(ram), Some(fb)) => if i < |m.lights| then Some(Snapshot(m.lights[i], ram, fb)) else None
    case _ => None
  }

  // ----- The plain history -----

  datatype Frame<+L> = Frame(snap: Snapshot<L>, retired: nat)

  /** The surviving frames, the rewind point, and the evictions since the last clear. */
  datatype History<+L> = History(frames: seq<Frame<L>>, pending: Option<nat>, evicted: nat)

  datatype Op<+L> =
    | Capture(snap: Snapshot<L>, retired: nat)
    | RewindTo(i: nat)
    | Clear
    | SetEnabled(on: bool)

  /** A capture keeps frames 0..i of a pending rewind to i, appends, and drops from the front
      what exceeds the capacity; nothing else loses a frame except clearing. */
  function HistoryStep<L>(h: History<L>, max: nat, op: Op<L>): History<L> {
    match op
    case Capture(snap, retired) =>
      var kept := if h.pending.Some? then Take(h.frames, h.pending.value + 1) else h.frames;
      var all := kept + [Frame(snap, retired)];
      var excess := Max(|all| - max, 0);
      History(all[excess..], None, h.evicted + excess)
    case RewindTo(i) => if i < |h.frames| then h.(pending := Some(i)) else h
    case Clear => History([], None, 0)
    case SetEnabled(on) => if on then h else History([], None, 0)
  }

  function Step<L>(m: Machine<L>, op: Op<L>): Machine<L> {
    match op
    case Capture(snap, retired) => Captured(m, snap, retired)
    case RewindTo(i) => Rewound(m, i)
    case Clear => Emptied(m)
    case SetEnabled(on) => WithEnabled(m, on)
  }

  function Run<L>(m: Machine<L>, ops: seq<Op<L>>): Machine<L>
    decreases |ops|
  {
    if ops == [] then m else Run(Step(m, ops[0]), ops[1..])
  }

  function HistoryRun<L>(h: History<L>, max: nat, ops: seq<Op<L>>): History<L>
    decreases |ops|
  {
    if ops == [] then h else HistoryRun(HistoryStep(h, max, ops[0]), max, ops[1..])
  }

  // ----- Invariants -----

  ghost predicate InStep<L>(m: Machine<L>) {
    |m.ram.frames| == |m.fb.frames| == |m.lights| == |m.retired|
  }

  /** The logs in step, and the throttle's reference point: the newest frame, or the frame rewound to. */
  ghost predicate Core<L>(m: Machine<L>) {
    && Inv(m.ram) && Inv(m.fb) && InStep(m)
    && 2 <= m.maxFrames && 1 <= m.baseInterval
    && (m.pending.Some? ==> m.pending.value < |m.lights|)
    && m.lastRetired == (if m.pending.Some? then Some(m.retired[m.pending.value])
                         else if m.retired == [] then None
                         else Some(m.retired[|m.retired| - 1]))
  }

  /** What every operation keeps, whatever is captured. */
  ghost predicate Shape<L>(m: Machine<L>) {
    Core(m) && |m.lights| <= m.maxFrames
  }

  /** The throttle after `evicted` evictions: doubled once per half ring, at most six times. */
  ghost predicate Throttled<L>(m: Machine<L>, evicted: nat)
    requires 2 <= m.maxFrames
  {
    && m.evictedSinceGrowth == evicted % (m.maxFrames / 2)
    && m.interval == m.baseInterval * Pow2(Min(6, evicted / (m.maxFrames / 2)))
  }

  ghost predicate Matches<L>(m: Machine<L>, h: History<L>) {
    && |h.frames| == |m.lights| == |m.retired| && h.pending == m.pending
    && (forall i :: 0 <= i < |h.frames| ==> h.frames[i].retired == m.retired[i])
  }

  /** The bookkeeping agrees with the plain history, whatever is captured. */
  ghost predicate Tracks<L>(m: Machine<L>, h: History<L>) {
    Shape(m) && Matches(m, h)
  }

  ghost predicate Viewable<L>(m: Machine<L>) {
    Rooted(m.ram.frames) && Rooted(m.fb.frames) && InStep(m)
  }

  ghost function FrameAt<L>(m: Machine<L>, i: nat): (f: Frame<L>)
    requires Viewable(m) && i < |m.lights|
    ensures SnapshotAt(m, i) == Some(f.snap)
  {
    Frame(Snapshot(m.lights[i], Images(m.ram.frames)[i], Images(m.fb.frames)[i]), m.retired[i])
  }

  /** The frames the machine can restore. */
  ghost function View<L>(m: Machine<L>): (v: seq<Frame<L>>)
    requires Viewable(m)
    ensures |v| == |m.lights| && forall i :: 0 <= i < |v| ==> v[i] == FrameAt(m, i)
  {
    seq(|m.lights|, i requires 0 <= i < |m.lights| => FrameAt(m, i))
  }

  ghost predicate BothSynced<L>(m: Machine<L>) {
    Synced(m.ram) && Synced(m.fb)
  }

  // ----- The throttle -----

  lemma NextDivision(n: nat, d: nat)
    requires 0 < d
    ensures if n % d + 1 == d then (n + 1) / d == n / d + 1 && (n + 1) % d == 0
            else (n + 1) / d == n / d && (n + 1) % d == n % d + 1
  {
    if n % d + 1 == d {
      assert n + 1 == d * (n / d + 1);
      DivisionIs(n + 1, d, n / d + 1, 0);
    } else {
      DivisionIs(n + 1, d, n / d, n % d + 1);
    }
  }

  lemma {:induction false} Pow2Bound(g: nat)
    ensures 1 <= Pow2(Min(6, g)) <= 64
    ensures Pow2(Min(6, g + 1)) == Min(2 * Pow2(Min(6, g)), 64)
  {
    assert Pow2(6) == 64;
  }

  lemma GrowthFollows<L>(m: Machine<L>, evicted: nat)
    requires 2 <= m.maxFrames && Throttled(m, evicted)
    ensures Throttled(Grown(m), evicted + 1)
  {
    var half := m.maxFrames / 2;
    var g := evicted / half;
    NextDivision(evicted, half);
    Pow2Bound(g);
    var p := Pow2(Min(6, g));
    assert Min(m.baseInterval * p * 2, m.baseInterval * 64) == m.baseInterval * Min(2 * p, 64) by {
      if 2 * p <= 64 {
        assert m.baseInterval * (2 * p) <= m.baseInterval * 64;
      } else {
        assert m.baseInterval * (2 * p) >= m.baseInterval * 64;
      }
    }
  }

  /** The interval never falls below the base and never exceeds 64 times it, so doubling it stays
      below 2^64 for every base below 2^57. */
  lemma IntervalBounded<L>(m: Machine<L>, evicted: nat)
    requires 2 <= m.maxFrames && Throttled(m, evicted)
    ensures m.baseInterval <= m.interval <= MAX_INTERVAL_GROWTH * m.baseInterval
  {
    Pow2Bound(evicted / (m.maxFrames / 2));
  }

  // ----- One capture -----

  /** Both images of `snap` fit the logs they are pushed onto. */
  ghost predicate CaptureFits<L>(m: Machine<L>, snap: Snapshot<L>) {
    var t := FutureDropped(m);
    Fits(t.ram, snap.ram) && Fits(t.fb, snap.fb)
  }

  ghost function Kept<L>(h: History<L>): seq<Frame<L>> {
    if h.pending.Some? then Take(h.frames, h.pending.value + 1) else h.frames
  }

  lemma DropFutureFields<L>(m: Machine<L>)
    requires Shape(m) && m.pending.Some?
    ensures var i, t := m.pending.value, FutureDropped(m);
            && Inv(t.ram) && Inv(t.fb) && |t.ram.frames| == |t.fb.frames| == i + 1
            && t.lights == m.lights[..i + 1] && t.retired == m.retired[..i + 1]
  {
    TruncateTakes(m.ram, m.pending.value);
    TruncateTakes(m.fb, m.pending.value);
  }

  lemma DropFutureTracks<L>(m: Machine<L>, h: History<L>)
    requires Tracks(m, h)
    ensures Tracks(FutureDropped(m), h.(frames := Kept(h), pending := None))
  {
    if m.pending.Some? { DropFutureFields(m); }
    hide Truncated, Inv;
  }

  lemma DropFutureViews<L>(m: Machine<L>, h: History<L>)
    requires Tracks(m, h) && BothSynced(m) && View(m) == h.frames
    ensures Viewable(FutureDropped(m)) && View(FutureDropped(m)) == Kept(h)
    ensures BothSynced(FutureDropped(m))
  {
    if m.pending.Some? {
      var t, i := FutureDropped(m), m.pending.value;
      TruncateTakes(m.ram, i);
      TruncateTakes(m.fb, i);
      forall j | 0 <= j <= i ensures FrameAt(t, j) == FrameAt(m, j) {
      }
      assert View(t) == View(m)[..i + 1];
    }
  }

  /** Appending to a machine with no rewind pending, before anything is evicted. */
  lemma AppendCore<L>(m: Machine<L>, snap: Snapshot<L>, retired: nat)
    requires Core(m) && m.pending.None?
    ensures Core(Appended(m, snap, retired)) && |Appended(m, snap, retired).lights| == |m.lights| + 1
  {
    PushKeepsInv(m.ram, snap.ram);
    PushKeepsInv(m.fb, snap.fb);
    hide Inv;
  }

  lemma AppendViews<L>(m: Machine<L>, h: History<L>, snap: Snapshot<L>, retired: nat)
    requires Tracks(m, h) && m.pending.None? && BothSynced(m) && View(m) == h.frames
    requires Core(Appended(m, snap, retired))
    ensures var a, f := Appended(m, snap, retired), Fits(m.ram, snap.ram) && Fits(m.fb, snap.fb);
            && View(a)[..|h.frames|] == h.frames
            && (f <==> View(a)[|h.frames|] == Frame(snap, retired))
            && (f ==> BothSynced(a))
  {
    PushAppends(m.ram, snap.ram);
    PushAppends(m.fb, snap.fb);
    var a, n := Appended(m, snap, retired), |h.frames|;
    forall i | 0 <= i < n ensures View(a)[i] == View(m)[i] {
      assert Images(a.ram.frames)[i] == Images(a.ram.frames)[..n][i] == Images(m.ram.frames)[i];
      assert Images(a.fb.frames)[i] == Images(a.fb.frames)[..n][i] == Images(m.fb.frames)[i];
    }
    assert View(a)[..n] == View(m);
  }

  lemma EvictCore<L>(m: Machine<L>)
    requires Core(m) && m.pending.None? && 2 <= |m.lights|
    ensures Core(OldestEvicted(m)) && |OldestEvicted(m).lights| == |m.lights| - 1
  {
    EvictDrops(m.ram);
    EvictDrops(m.fb);
    hide Inv;
  }

  lemma EvictViews<L>(m: Machine<L>)
    requires Core(m) && m.pending.None? && 2 <= |m.lights| && Core(OldestEvicted(m))
    ensures View(OldestEvicted(m)) == View(m)[1..]
    ensures BothSynced(m) ==> BothSynced(OldestEvicted(m))
  {
    EvictDrops(m.ram);
    EvictDrops(m.fb);
    assert View(OldestEvicted(m)) == View(m)[1..];
  }

  /** One capture exceeds the capacity by at most one frame. */
  lemma CapacityStep<L>(m: Machine<L>)
    requires |m.lights| <= m.maxFrames + 1
    ensures ToCapacity(m) == if |m.lights| > m.maxFrames then OldestEvicted(m) else m
  {
  }

  /** The machine and the plain history before eviction. */
  lemma AppendTracks<L>(m: Machine<L>, h: History<L>, snap: Snapshot<L>, retired: nat)
    requires Tracks(m, h)
    ensures var a := Appended(FutureDropped(m), snap, retired);
            && Core(a) && Matches(a, History(Kept(h) + [Frame(snap, retired)], None, h.evicted))
            && |a.lights| <= a.maxFrames + 1 && a.maxFrames == m.maxFrames && a.baseInterval == m.baseInterval
  {
    DropFutureTracks(m, h);
    hide Kept;
    AppendCore(FutureDropped(m), snap, retired);
    hide Core;
  }

  lemma EvictMatches<L>(a: Machine<L>, g: History<L>, evicted: nat)
    requires Matches(a, g) && g.frames != []
    ensures Matches(OldestEvicted(a), History(g.frames[1..], g.pending, evicted))
  {
  }

  lemma HistoryCapture<L>(h: History<L>, max: nat, snap: Snapshot<L>, retired: nat)
    requires |Kept(h)| <= max
    ensures var all, g := Kept(h) + [Frame(snap, retired)], HistoryStep(h, max, Capture(snap, retired));
            && g.frames == (if |all| > max then all[1..] else all) && g.pending == None
            && g.evicted == h.evicted + (if |all| > max then 1 else 0)
  {
  }

  /** A capture tracks the plain history whatever it captures. */
  lemma CaptureTracks<L>(m: Machine<L>, h: History<L>, snap: Snapshot<L>, retired: nat)
    requires Tracks(m, h)
    ensures Tracks(Captured(m, snap, retired), HistoryStep(h, m.maxFrames, Capture(snap, retired)))
    ensures Captured(m, snap, retired).maxFrames == m.maxFrames
    ensures Captured(m, snap, retired).baseInterval == m.baseInterval
  {
    var a, all := Appended(FutureDropped(m), snap, retired), History(Kept(h) + [Frame(snap, retired)], None, h.evicted);
    AppendTracks(m, h, snap, retired);
    assert |all.frames| == |a.lights|;
    hide Core, Appended, FutureDropped, Kept, HistoryStep, ToCapacity;
    CapacityStep(a);
    assert 2 <= a.maxFrames by { CoreCapacity(a); }
    HistoryCapture(h, m.maxFrames, snap, retired);
    if |a.lights| > a.maxFrames {
      EvictCore(a);
      EvictMatches(a, all, h.evicted + 1);
    }
  }

  lemma CoreCapacity<L>(m: Machine<L>)
    requires Core(m)
    ensures 2 <= m.maxFrames
  {
  }

  lemma LastDecides<T>(v: seq<T>, k: seq<T>, x: T)
    requires |v| == |k| + 1 && v[..|k|] == k
    ensures v == k + [x] <==> v[|k|] == x
    ensures k != [] ==> (v[1..] == (k + [x])[1..] <==> v[|k|] == x)
  {
    assert v == k + [v[|k|]];
    assert (k + [x])[|k|] == x;
    if k != [] {
      assert v[1..][|k| - 1] == v[|k|];
      assert (k + [x])[1..][|k| - 1] == x;
    }
  }

  /** The capture before eviction: frames 0..i of a pending rewind, then the new frame. */
  lemma CaptureAppendViews<L>(m: Machine<L>, h: History<L>, snap: Snapshot<L>, retired: nat)
    requires Tracks(m, h) && BothSynced(m) && View(m) == h.frames
    ensures var a, f := Appended(FutureDropped(m), snap, retired), Frame(snap, retired);
            && Core(a) && |a.lights| == |Kept(h)| + 1 <= a.maxFrames + 1
            && View(a)[..|Kept(h)|] == Kept(h)
            && (CaptureFits(m, snap) <==> View(a)[|Kept(h)|] == f)
            && (CaptureFits(m, snap) ==> BothSynced(a))
  {
    var t, k := FutureDropped(m), h.(frames := Kept(h), pending := None);
    AppendTracks(m, h, snap, retired);
    DropFutureTracks(m, h);
    DropFutureViews(m, h);
    AppendViews(t, k, snap, retired);
    hide Inv, Synced;
  }

  /** A capture extends the stored snapshots as the plain history does exactly when it fits. */
  lemma CaptureViews<L>(m: Machine<L>, h: History<L>, snap: Snapshot<L>, retired: nat)
    requires Tracks(m, h) && BothSynced(m) && View(m) == h.frames
    ensures Viewable(Captured(m, snap, retired))
    ensures CaptureFits(m, snap) <==>
            View(Captured(m, snap, retired)) == HistoryStep(h, m.maxFrames, Capture(snap, retired)).frames
    ensures CaptureFits(m, snap) ==> BothSynced(Captured(m, snap, retired))
  {
    var a := Appended(FutureDropped(m), snap, retired);
    assert a.maxFrames == m.maxFrames && a.pending.None? && 2 <= m.maxFrames;
    CaptureAppendViews(m, h, snap, retired);
    hide Tracks, FutureDropped, Appended, CaptureFits, BothSynced, HistoryStep, Kept;
    HistoryCapture(h, m.maxFrames, snap, retired);
    CapacityStep(a);
    LastDecides(View(a), Kept(h), Frame(snap, retired));
    if |a.lights| > a.maxFrames {
      EvictCore(a);
      EvictViews(a);
    }
  }

  lemma CaptureThrottles<L>(m: Machine<L>, h: History<L>, snap: Snapshot<L>, retired: nat)
    requires Tracks(m, h) && Throttled(m, h.evicted)
    ensures Captured(m, snap, retired).maxFrames == m.maxFrames
    ensures Throttled(Captured(m, snap, retired), HistoryStep(h, m.maxFrames, Capture(snap, retired)).evicted)
  {
    var a := Appended(FutureDropped(m), snap, retired);
    CapacityStep(a);
    hide Truncated, Pushed, Evicted, Inv;
    if |a.lights| > a.maxFrames {
      var b := a.(ram := Evicted(a.ram), fb := Evicted(a.fb), lights := Rest(a.lights), retired := Rest(a.retired));
      GrowthFollows(b, h.evicted);
    }
  }

  // ----- Every run -----

  ghost predicate OpFits<L>(m: Machine<L>, op: Op<L>) {
    op.Capture? ==> CaptureFits(m, op.snap)
  }

  ghost predicate AllFit<L>(m: Machine<L>, ops: seq<Op<L>>)
    decreases |ops|
  {
    ops == [] || (OpFits(m, ops[0]) && AllFit(Step(m, ops[0]), ops[1..]))
  }

  /** After every prefix of the run the machine restores exactly the plain history's frames. */
  ghost predicate Faithful<L>(m: Machine<L>, h: History<L>, max: nat, ops: seq<Op<L>>)
    decreases |ops|
  {
    && Shape(m) && View(m) == h.frames
    && (ops == [] || Faithful(Step(m, ops[0]), HistoryStep(h, max, ops[0]), max, ops[1..]))
  }

  lemma StepTracks<L>(m: Machine<L>, h: History<L>, op: Op<L>)
    requires Tracks(m, h)
    ensures Tracks(Step(m, op), HistoryStep(h, m.maxFrames, op))
    ensures Step(m, op).maxFrames == m.maxFrames && Step(m, op).baseInterval == m.baseInterval
  {
    if op.Capture? { CaptureTracks(m, h, op.snap, op.retired); }
  }

  lemma StepThrottles<L>(m: Machine<L>, h: History<L>, op: Op<L>)
    requires Tracks(m, h) && Throttled(m, h.evicted)
    ensures Step(m, op).maxFrames == m.maxFrames
    ensures Throttled(Step(m, op), HistoryStep(h, m.maxFrames, op).evicted)
  {
    match op
    case Capture(snap, retired) => CaptureThrottles(m, h, snap, retired);
    case RewindTo(i) =>
    case Clear => DivisionIs(0, m.maxFrames / 2, 0, 0);
    case SetEnabled(on) => DivisionIs(0, m.maxFrames / 2, 0, 0);
  }

  lemma StepViews<L>(m: Machine<L>, h: History<L>, op: Op<L>)
    requires Tracks(m, h) && BothSynced(m) && View(m) == h.frames
    ensures Viewable(Step(m, op))
    ensures OpFits(m, op) <==> View(Step(m, op)) == HistoryStep(h, m.maxFrames, op).frames
    ensures OpFits(m, op) ==> BothSynced(Step(m, op))
  {
    match op
    case Capture(snap, retired) => CaptureViews(m, h, snap, retired);
    case RewindTo(i) => assert View(Rewound(m, i)) == View(m);
    case Clear =>
    case SetEnabled(on) => assert on ==> View(WithEnabled(m, on)) == View(m);
  }

  /** Whatever is captured: the four logs stay in step and within capacity, retired counts are those
      of the surviving frames, and the interval is fixed by the evictions since the last clear. */
  lemma {:induction false} RunTracks<L>(m: Machine<L>, h: History<L>, ops: seq<Op<L>>)
    requires Tracks(m, h) && Throttled(m, h.evicted)
    ensures Tracks(Run(m, ops), HistoryRun(h, m.maxFrames, ops))
    ensures Throttled(Run(m, ops), HistoryRun(h, m.maxFrames, ops).evicted)
    ensures Run(m, ops).maxFrames == m.maxFrames && Run(m, ops).baseInterval == m.baseInterval
    decreases |ops|
  {
    if ops != [] {
      StepTracks(m, h, ops[0]);
      StepThrottles(m, h, ops[0]);
      RunTracks(Step(m, ops[0]), HistoryStep(h, m.maxFrames, ops[0]), ops[1..]);
    }
  }

  lemma {:induction false} RunRestores<L>(m: Machine<L>, h: History<L>, ops: seq<Op<L>>)
    requires Tracks(m, h) && BothSynced(m) && View(m) == h.frames
    ensures AllFit(m, ops) <==> Faithful(m, h, m.maxFrames, ops)
    ensures AllFit(m, ops) ==> Viewable(Run(m, ops)) && View(Run(m, ops)) == HistoryRun(h, m.maxFrames, ops).frames
    decreases |ops|
  {
    if ops != [] {
      StepTracks(m, h, ops[0]);
      StepViews(m, h, ops[0]);
      if OpFits(m, ops[0]) {
        RunRestores(Step(m, ops[0]), HistoryStep(h, m.maxFrames, ops[0]), ops[1..]);
      }
    }
  }

  lemma NewTracks<L>(interval: nat, stride: nat, maxFrames: nat)
    ensures var m := NewMachine<L>(interval, stride, maxFrames);
            Tracks(m, History([], None, 0)) && Throttled(m, 0) && BothSynced(m) && View(m) == []
  {
    DivisionIs(0, Max(maxFrames, 2) / 2, 0, 0);
  }

  /** Main theorem: over every interleaving of captures, rewinds, clears and toggles, a new machine
      restores at every moment exactly the snapshots a plain history holds if and only if each
      captured image fits its log. */
  lemma MachineRestoresHistory<L>(interval: nat, stride: nat, maxFrames: nat, ops: seq<Op<L>>, i: nat)
    ensures var m, h := NewMachine<L>(interval, stride, maxFrames), History([], None, 0);
            && (AllFit(m, ops) <==> Faithful(m, h, Max(maxFrames, 2), ops))
            && (AllFit(m, ops) ==>
                  var frames := HistoryRun(h, Max(maxFrames, 2), ops).frames;
                  SnapshotAt(Run(m, ops), i) == if i < |frames| then Some(frames[i].snap) else None)
  {
    NewTracks<L>(interval, stride, maxFrames);
    var m, h := NewMachine<L>(interval, stride, maxFrames), History([], None, 0);
    RunRestores(m, h, ops);
    if AllFit(m, ops) && i < |View(Run(m, ops))| {
      assert View(Run(m, ops))[i] == FrameAt(Run(m, ops), i);
    }
  }

  ghost predicate Sized<L>(snap: Snapshot<L>, ramLen: nat, fbLen: nat) {
    |snap.ram| == ramLen && |snap.fb| == fbLen
  }

  ghost predicate AllSized<L>(h: History<L>, ramLen: nat, fbLen: nat) {
    forall i :: 0 <= i < |h.frames| ==> Sized(h.frames[i].snap, ramLen, fbLen)
  }

  ghost predicate OpsSized<L>(ops: seq<Op<L>>, ramLen: nat, fbLen: nat) {
    forall i :: 0 <= i < |ops| && ops[i].Capture? ==> Sized(ops[i].snap, ramLen, fbLen)
  }

  lemma NewestSized<L>(t: Machine<L>, ramLen: nat, fbLen: nat)
    requires Viewable(t) && BothSynced(t) && t.lights != [] && Sized(View(t)[|t.lights| - 1].snap, ramLen, fbLen)
    ensures |t.ram.prev| == ramLen && |t.fb.prev| == fbLen
  {
    assert View(t)[|t.lights| - 1] == FrameAt(t, |t.lights| - 1);
  }

  lemma SizedFits<L>(m: Machine<L>, h: History<L>, snap: Snapshot<L>, ramLen: nat, fbLen: nat)
    requires Tracks(m, h) && BothSynced(m) && View(m) == h.frames
    requires AllSized(h, ramLen, fbLen) && Sized(snap, ramLen, fbLen)
    ensures CaptureFits(m, snap)
  {
    DropFutureViews(m, h);
    hide Tracks, FutureDropped, BothSynced;
    var t := FutureDropped(m);
    if t.lights != [] {
      assert View(t)[|t.lights| - 1] == h.frames[|t.lights| - 1];
      NewestSized(t, ramLen, fbLen);
    }
  }

  lemma StepSized<L>(h: History<L>, max: nat, op: Op<L>, ramLen: nat, fbLen: nat)
    requires AllSized(h, ramLen, fbLen) && OpsSized([op], ramLen, fbLen)
    ensures AllSized(HistoryStep(h, max, op), ramLen, fbLen)
  {
    assert [op][0] == op;
  }

  /** Capturing images of one size, as one virtual machine does, is enough to fit. */
  lemma {:induction false} UniformCapturesFit<L>(m: Machine<L>, h: History<L>, ops: seq<Op<L>>, ramLen: nat, fbLen: nat)
    requires Tracks(m, h) && BothSynced(m) && View(m) == h.frames
    requires AllSized(h, ramLen, fbLen) && OpsSized(ops, ramLen, fbLen)
    ensures AllFit(m, ops)
    decreases |ops|
  {
    if ops != [] {
      var op := ops[0];
      if op.Capture? { SizedFits(m, h, op.snap, ramLen, fbLen); }
      StepTracks(m, h, op);
      StepViews(m, h, op);
      StepSized(h, m.maxFrames, op, ramLen, fbLen);
      assert OpsSized(ops[1..], ramLen, fbLen);
      UniformCapturesFit(Step(m, op), HistoryStep(h, m.maxFrames, op), ops[1..], ramLen, fbLen);
    }
  }

  /** The interval after any run from new, by the number of evictions since the last clear. */
  lemma IntervalAfterRun<L>(interval: nat, stride: nat, maxFrames: nat, ops: seq<Op<L>>)
    ensures var r := Run(NewMachine<L>(interval, stride, maxFrames), ops);
            var evicted := HistoryRun(History([], None, 0), Max(maxFrames, 2), ops).evicted;
            && |r.ram.frames| == |r.fb.frames| == |r.lights| == |r.retired| <= Max(maxFrames, 2)
            && r.interval == Max(interval, 1) * Pow2(Min(6, evicted / (Max(maxFrames, 2) / 2)))
  {
    NewTracks<L>(interval, stride, maxFrames);
    RunTracks(NewMachine<L>(interval, stride, maxFrames), History([], None, 0), ops);
  }

  // ----- Spacing of gated captures -----

  /** Captures happen only when one is due. */
  predicate Gated<L>(m: Machine<L>, ops: seq<Op<L>>)
    decreases |ops|
  {
    ops == [] || ((ops[0].Capture? ==> CaptureDue(m, ops[0].retired)) && Gated(Step(m, ops[0]), ops[1..]))
  }

  ghost predicate Spaced(retired: seq<nat>, gap: nat) {
    forall i :: 0 < i < |retired| ==> retired[i - 1] + gap <= retired[i]
  }

  lemma SpacedAppend(t: seq<nat>, r: nat, gap: nat)
    requires Spaced(t, gap) && (t != [] ==> t[|t| - 1] + gap <= r)
    ensures Spaced(t + [r], gap) && Spaced((t + [r])[1..], gap)
  {
  }

  lemma CaptureKeepsSpacing<L>(m: Machine<L>, h: History<L>, snap: Snapshot<L>, retired: nat)
    requires Tracks(m, h) && Throttled(m, h.evicted) && Spaced(m.retired, m.baseInterval) && CaptureDue(m, retired)
    ensures Spaced(Captured(m, snap, retired).retired, m.baseInterval)
  {
    IntervalBounded(m, h.evicted);
    hide Inv, Throttled, Truncated, Pushed, Evicted, Reconstruct;
    var t := FutureDropped(m).retired;
    assert t == if m.pending.Some? then m.retired[..m.pending.value + 1] else m.retired;
    assert t != [] ==> t[|t| - 1] + m.baseInterval <= retired;
    hide Shape, Tracks, FutureDropped;
    SpacedAppend(t, retired, m.baseInterval);
    CapacityStep(Appended(FutureDropped(m), snap, retired));
  }

  lemma {:induction false} GatedRunSpaced<L>(m: Machine<L>, h: History<L>, ops: seq<Op<L>>)
    requires Tracks(m, h) && Throttled(m, h.evicted) && Spaced(m.retired, m.baseInterval) && Gated(m, ops)
    ensures Spaced(Run(m, ops).retired, m.baseInterval)
    decreases |ops|
  {
    if ops != [] {
      StepTracks(m, h, ops[0]);
      StepThrottles(m, h, ops[0]);
      if ops[0].Capture? {
        CaptureKeepsSpacing(m, h, ops[0].snap, ops[0].retired);
      }
      GatedRunSpaced(Step(m, ops[0]), HistoryStep(h, m.maxFrames, ops[0]), ops[1..]);
    }
  }

  /** In a gated run from new, retained retired counts strictly increase with gaps of at least the
      base interval, across any rewinds. */
  lemma GatedCapturesSpaced<L>(interval: nat, stride: nat, maxFrames: nat, ops: seq<Op<L>>, i: nat)
    requires Gated(NewMachine<L>(interval, stride, maxFrames), ops)
    requires 0 < i < |Run(NewMachine<L>(interval, stride, maxFrames), ops).retired|
    ensures var r := Run(NewMachine<L>(interval, stride, maxFrames), ops).retired;
            r[i - 1] < r[i] && r[i - 1] + interval <= r[i]
  {
    NewTracks<L>(interval, stride, maxFrames);
    GatedRunSpaced(NewMachine<L>(interval, stride, maxFrames), History([], None, 0), ops);
  }

  // ----- When a capture is due -----

  /** The last toggle, or `on` if there was none. */
  function EnabledAfter<L>(on: bool, ops: seq<Op<L>>): bool
    decreases |ops|
  {
    if ops == [] then on else EnabledAfter(if ops[0].SetEnabled? then ops[0].on else on, ops[1..])
  }

  lemma {:induction false} CapacityEnabled<L>(m: Machine<L>)
    ensures ToCapacity(m).enabled == m.enabled
    decreases |m.lights|
  {
    hide Evicted;
    if |m.lights| > m.maxFrames { CapacityEnabled(OldestEvicted(m)); }
  }

  lemma {:induction false} RunEnabled<L>(m: Machine<L>, ops: seq<Op<L>>)
    ensures Run(m, ops).enabled == EnabledAfter(m.enabled, ops)
    decreases |ops|
  {
    hide Truncated, Pushed, ToCapacity;
    if ops != [] {
      if ops[0].Capture? { CapacityEnabled(Appended(FutureDropped(m), ops[0].snap, ops[0].retired)); }
      RunEnabled(Step(m, ops[0]), ops[1..]);
    }
  }

  /** The retired count of the newest frame, or of the frame rewound to. */
  function Latest<L>(h: History<L>): nat
    requires h.frames != []
  {
    if h.pending.Some? && h.pending.value < |h.frames| then h.frames[h.pending.value].retired
    else h.frames[|h.frames| - 1].retired
  }

  /** After any run from new a capture is due exactly when the last toggle was on and there is no frame, or
      the interval, doubled per half ring of evictions, has passed since the newest frame or the frame
      rewound to. */
  lemma DueExactly<L>(interval: nat, stride: nat, maxFrames: nat, ops: seq<Op<L>>, r: nat)
    ensures var m, max := Run(NewMachine<L>(interval, stride, maxFrames), ops), Max(maxFrames, 2);
            var h := HistoryRun(History([], None, 0), max, ops);
            CaptureDue(m, r) <==>
            && EnabledAfter(false, ops)
            && (h.frames == [] || r >= Latest(h) + Max(interval, 1) * Pow2(Min(6, h.evicted / (max / 2))))
  {
    var m := NewMachine<L>(interval, stride, maxFrames);
    NewTracks<L>(interval, stride, maxFrames);
    RunTracks(m, History([], None, 0), ops);
    RunEnabled(m, ops);
    IntervalBounded(Run(m, ops), HistoryRun(History([], None, 0), m.maxFrames, ops).evicted);
    hide Run, HistoryRun, Inv;
  }

  // ----- The object -----

  class TimeMachine<L> {
    const ram: RamLog
    const fb: RamLog
    var lights: seq<L>
    var retired: seq<nat>
    var lastRetired: Option<nat>
    var interval: nat
    const baseInterval: nat
    var evictedSinceGrowth: nat
    const maxFrames: nat
    var pendingTruncate: Option<nat>
    var enabled: bool

    ghost function State(): Machine<L>
      reads this, ram, fb
    {
      Machine(ram.State(), fb.State(), lights, retired, lastRetired, interval, baseInterval,
              evictedSinceGrowth, maxFrames, pendingTruncate, enabled)
    }

    ghost predicate Valid()
      reads this, ram, fb
    {
      ram != fb
    }

    constructor (interval: nat, stride: nat, maxFrames: nat)
      ensures Valid() && fresh(ram) && fresh(fb)
      ensures State() == NewMachine<L>(interval, stride, maxFrames)
    {
      ram := new RamLog(stride);
      fb := new RamLog(stride);
      lights, retired, lastRetired := [], [], None;
      this.interval, baseInterval, evictedSinceGrowth := Max(interval, 1), Max(interval, 1), 0;
      this.maxFrames, pendingTruncate, enabled := Max(maxFrames, 2), None, false;
    }

    method Clear()
      requires Valid()
      modifies this, ram, fb
      ensures Valid() && State() == Emptied(old(State()))
    {
      ram.Clear();
      fb.Clear();
      lights, retired, lastRetired := [], [], None;
      interval, evictedSinceGrowth, pendingTruncate := baseInterval, 0, None;
    }

    method SetEnabled(on: bool)
      requires Valid()
      modifies this, ram, fb
      ensures Valid() && State() == WithEnabled(old(State()), on)
    {
      enabled := on;
      if !on {
        Clear();
      }
    }

    method ShouldCapture(count: nat) returns (due: bool)
      ensures due == CaptureDue(State(), count)
    {
      if !enabled {
        return false;
      }
      match lastRetired
      case None => due := true;
      case Some(last) => due := Max(count - last, 0) >= interval;
    }

    method RewindTo(i: nat)
      requires Valid()
      modifies this
      ensures Valid() && State() == Rewound(old(State()), i)
    {
      if i >= |lights| {
        return;
      }
      lastRetired := if i < |retired| then Some(retired[i]) else None;
      pendingTruncate := Some(i);
    }

    method Capture(snap: Snapshot<L>, count: nat)
      requires Valid()
      modifies this, ram, fb
      ensures Valid() && State() == Captured(old(State()), snap, count)
    {
      hide Truncated, Pushed, Evicted, Cleared;
      if pendingTruncate.Some? {
        var i := pendingTruncate.value;
        pendingTruncate := None;
        ram.TruncateAfter(i);
        fb.TruncateAfter(i);
        lights, retired := Take(lights, i + 1), Take(retired, i + 1);
      }
      assert State() == FutureDropped(old(State()));
      ram.Push(snap.ram);
      fb.Push(snap.fb);
      lights, retired := lights + [snap.light], retired + [count];
      lastRetired := Some(count);
      while |lights| > maxFrames
        invariant ToCapacity(State()) == Captured(old(State()), snap, count)
        decreases |lights|
      {
        ram.EvictFront();
        fb.EvictFront();
        lights, retired := Rest(lights), Rest(retired);
        GrowIntervalOnEviction();
      }
    }

    method GrowIntervalOnEviction()
      modifies this
      ensures State() == Grown(old(State()))
    {
      evictedSinceGrowth := evictedSinceGrowth + 1;
      if evictedSinceGrowth >= maxFrames / 2 {
        evictedSinceGrowth := 0;
        interval := Min(interval * 2, baseInterval * MAX_INTERVAL_GROWTH);
      }
    }

    method Restore(i: nat) returns (snap: Option<Snapshot<L>>)
      ensures snap == SnapshotAt(State(), i)
    {
      var r := ram.Replay(i);
      if r.None? {
        return None;
      }
      var f := fb.Replay(i);
      if f.None? {
        return None;
      }
      if i >= |lights| {
        return None;
      }
      snap := Some(Snapshot(lights[i], r.value, f.value));
    }
  }
}
