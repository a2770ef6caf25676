/**
 The delta-compressed image log (`RamLog`).

 Frames are keyframes (non-zero pages of one image) or deltas (pages changed since the previous
 frame). The state functions below are what the class at the end computes; the theorems say that,
 over every run of operations, the log stands for a plain list of images.
 */
module RamLog {
  import opened Common
  import opened PageDiff

  type Image = seq<Byte>

  datatype RamStore =
    | Keyframe(len: nat, pages: seq<PageWrite>)
    | Delta(pages: seq<PageWrite>)

  datatype Log = Log(frames: seq<RamStore>, prev: Image, sinceKeyframe: nat, stride: nat)

  function New(stride: nat): Log {
    Log([], [], 0, Max(stride, 1))
  }

  /** Frame `i` as a full image: replay from the nearest keyframe at or before `i`. */
  function Reconstruct(frames: seq<RamStore>, i: nat): Option<Image> {
    if i >= |frames| then None
    else match frames[i]
      case Keyframe(len, pages) => Some(ApplyAll(Zeros(len), pages))
      case Delta(pages) =>
        if i == 0 then None
        else match Reconstruct(frames, i - 1)
          case None => None
          case Some(buf) => Some(ApplyAll(buf, pages))
  }

  /** Deltas between frame `i` and its keyframe. */
  function KeyDistance(frames: seq<RamStore>, i: nat): nat
    requires i < |frames|
  {
    if frames[i].Keyframe? || i == 0 then 0 else 1 + KeyDistance(frames, i - 1)
  }

  function Encode(ram: Image): RamStore {
    Keyframe(|ram|, Changed([], ram))
  }

  /** `push` stores a keyframe here rather than a delta. */
  predicate KeyframeDue(log: Log) {
    log.frames == [] || log.sinceKeyframe >= log.stride
  }

  function Pushed(log: Log, ram: Image): Log {
    if KeyframeDue(log) then
      Log(log.frames + [Encode(ram)], ram, 0, log.stride)
    else
      Log(log.frames + [Delta(Changed(log.prev, ram))], ram, log.sinceKeyframe + 1, log.stride)
  }

  function Truncated(log: Log, i: nat): Log {
    if i + 1 >= |log.frames| then log
    else
      var frames := log.frames[..i + 1];
      var prev := match Reconstruct(frames, i) case Some(b) => b case None => [];
      Log(frames, prev, KeyDistance(frames, i), log.stride)
  }

  function Evicted(log: Log): Log {
    if |log.frames| < 2 then
      log.(frames := [])
    else
      var front := if log.frames[1].Delta? then
                     match Reconstruct(log.frames, 1)
                     case Some(full) => Encode(full)
                     case None => log.frames[1]
                   else log.frames[1];
      log.(frames := [front] + log.frames[2..])
  }

  function Cleared(log: Log): Log {
    Log([], [], 0, log.stride)
  }

  // ----- Invariants -----

  /** No surviving delta is orphaned: the front frame is a keyframe. */
  ghost predicate Rooted(frames: seq<RamStore>) {
    frames != [] ==> frames[0].Keyframe?
  }

  ghost predicate DistanceBounded(frames: seq<RamStore>, stride: nat) {
    forall i :: 0 <= i < |frames| ==> KeyDistance(frames, i) <= stride
  }

  /** What every operation keeps, whatever images are pushed. `sinceKeyframe` may over-count. */
  ghost predicate Inv(log: Log) {
    && log.stride >= 1
    && Rooted(log.frames)
    && DistanceBounded(log.frames, log.stride)
    && log.sinceKeyframe <= log.stride
    && (log.frames != [] ==> KeyDistance(log.frames, |log.frames| - 1) <= log.sinceKeyframe)
  }

  /** The delta base is the newest frame's image. */
  ghost predicate Synced(log: Log) {
    log.frames != [] ==> Reconstruct(log.frames, |log.frames| - 1) == Some(log.prev)
  }

  lemma {:induction false} RootedReconstructs(frames: seq<RamStore>, i: nat)
    requires Rooted(frames) && i < |frames|
    ensures Reconstruct(frames, i).Some?
  {
    if i > 0 { RootedReconstructs(frames, i - 1); }
  }

  ghost function ImageAt(frames: seq<RamStore>, i: nat): Image
    requires Rooted(frames) && i < |frames|
    ensures Reconstruct(frames, i) == Some(ImageAt(frames, i))
  {
    RootedReconstructs(frames, i);
    Reconstruct(frames, i).value
  }

  /** The list of images the log stands for. */
  ghost function Images(frames: seq<RamStore>): (imgs: seq<Image>)
    requires Rooted(frames)
    ensures |imgs| == |frames|
    ensures forall i :: 0 <= i < |imgs| ==> Reconstruct(frames, i) == Some(imgs[i])
  {
    seq(|frames|, i requires 0 <= i < |frames| => ImageAt(frames, i))
  }

  // ----- How the operations act on frames -----

  /** Frames up to `i` only depend on the frames up to `i`. */
  lemma {:induction false} PrefixDetermines(a: seq<RamStore>, b: seq<RamStore>, i: nat)
    requires i < |a| && i < |b| && a[..i + 1] == b[..i + 1]
    ensures Reconstruct(a, i) == Reconstruct(b, i)
    ensures KeyDistance(a, i) == KeyDistance(b, i)
  {
    assert a[i] == a[..i + 1][i] == b[i];
    if i > 0 {
      assert a[..i] == a[..i + 1][..i] == b[..i];
      PrefixDetermines(a, b, i - 1);
    }
  }

  /** Replacing the two oldest frames by a keyframe of the second shifts every frame down by one. */
  lemma {:induction false} PromotionShifts(a: seq<RamStore>, b: seq<RamStore>, i: nat)
    requires |a| >= 2 && |b| == |a| - 1 && i < |b|
    requires b[0].Keyframe? && Reconstruct(b, 0) == Reconstruct(a, 1)
    requires b[1..] == a[2..]
    ensures Reconstruct(b, i) == Reconstruct(a, i + 1)
    ensures KeyDistance(b, i) <= KeyDistance(a, i + 1)
  {
    if i > 0 {
      assert b[i] == b[1..][i - 1] == a[i + 1];
      PromotionShifts(a, b, i - 1);
    }
  }

  // ----- One operation at a time -----

  /** Pushed images always have the length of the delta base unless a keyframe is due. */
  predicate Fits(log: Log, ram: Image) {
    KeyframeDue(log) || |ram| == |log.prev|
  }

  lemma {:induction false} ReplayKeepsLength(frames: seq<RamStore>, i: nat)
    requires 0 < i < |frames| && frames[i].Delta?
    requires Reconstruct(frames, i).Some?
    ensures Reconstruct(frames, i - 1).Some?
    ensures |Reconstruct(frames, i).value| == |Reconstruct(frames, i - 1).value|
  {
  }

  lemma PushKeepsInv(log: Log, ram: Image)
    requires Inv(log)
    ensures Inv(Pushed(log, ram))
  {
    var r := Pushed(log, ram);
    forall i | 0 <= i < |log.frames| ensures KeyDistance(r.frames, i) == KeyDistance(log.frames, i) {
      PrefixDetermines(r.frames, log.frames, i);
    }
  }

  lemma PushKeepsImages(log: Log, ram: Image)
    requires Inv(log) && Inv(Pushed(log, ram))
    ensures Images(Pushed(log, ram).frames)[..|log.frames|] == Images(log.frames)
  {
    var r := Pushed(log, ram);
    forall i | 0 <= i < |log.frames| ensures Reconstruct(r.frames, i) == Reconstruct(log.frames, i) {
      PrefixDetermines(r.frames, log.frames, i);
    }
  }

  lemma NewestReplays(log: Log, ram: Image)
    requires Inv(log) && Synced(log)
    ensures Fits(log, ram) <==> Reconstruct(Pushed(log, ram).frames, |log.frames|) == Some(ram)
  {
    var r, n := Pushed(log, ram), |log.frames|;
    if KeyframeDue(log) {
      KeyframeRoundTrip(ram);
    } else {
      PrefixDetermines(r.frames, log.frames, n - 1);
      if |ram| == |log.prev| { DeltaRoundTrip(log.prev, ram); }
    }
  }

  /** `push` appends the image exactly when the image fits, and otherwise stores one that replays
      to something else. */
  lemma PushAppends(log: Log, ram: Image)
    requires Inv(log) && Synced(log)
    ensures Inv(Pushed(log, ram))
    ensures Images(Pushed(log, ram).frames)[..|log.frames|] == Images(log.frames)
    ensures Fits(log, ram) <==> Images(Pushed(log, ram).frames)[|log.frames|] == ram
    ensures Fits(log, ram) <==> Images(Pushed(log, ram).frames) == Images(log.frames) + [ram]
    ensures Fits(log, ram) <==> Synced(Pushed(log, ram))
  {
    PushKeepsInv(log, ram);
    PushKeepsImages(log, ram);
    NewestReplays(log, ram);
    var r, n := Pushed(log, ram), |log.frames|;
    hide Fits, Reconstruct, DistanceBounded, KeyDistance;
    assert Images(r.frames) == Images(r.frames)[..n] + [Images(r.frames)[n]];
  }

  lemma TruncateTakes(log: Log, i: nat)
    requires Inv(log)
    ensures Inv(Truncated(log, i))
    ensures Images(Truncated(log, i).frames) == if i + 1 < |log.frames| then Images(log.frames)[..i + 1]
            else Images(log.frames)
    ensures i + 1 < |log.frames| || Synced(log) ==> Synced(Truncated(log, i))
  {
    if i + 1 < |log.frames| {
      var r := Truncated(log, i);
      forall j | 0 <= j <= i
        ensures Reconstruct(r.frames, j) == Reconstruct(log.frames, j)
        ensures KeyDistance(r.frames, j) == KeyDistance(log.frames, j)
      {
        assert r.frames[..j + 1] == log.frames[..j + 1];
        PrefixDetermines(r.frames, log.frames, j);
      }
      assert Images(r.frames) == Images(log.frames)[..i + 1];
    }
  }

  lemma EvictDrops(log: Log)
    requires Inv(log)
    ensures Inv(Evicted(log))
    ensures Images(Evicted(log).frames) == if |log.frames| < 2 then [] else Images(log.frames)[1..]
    ensures Synced(log) ==> Synced(Evicted(log))
  {
    if |log.frames| >= 2 {
      var r := Evicted(log);
      RootedReconstructs(log.frames, 1);
      KeyframeRoundTrip(Reconstruct(log.frames, 1).value);
      forall i | 0 <= i < |r.frames|
        ensures Reconstruct(r.frames, i) == Reconstruct(log.frames, i + 1)
        ensures KeyDistance(r.frames, i) <= KeyDistance(log.frames, i + 1)
      {
        PromotionShifts(log.frames, r.frames, i);
      }
      assert Images(r.frames) == Images(log.frames)[1..];
    }
  }

  // ----- Every run -----

  datatype Op = Push(ram: Image) | TruncateAfter(i: nat) | EvictFront | Clear

  function Step(log: Log, op: Op): Log {
    match op
    case Push(ram) => Pushed(log, ram)
    case TruncateAfter(i) => Truncated(log, i)
    case EvictFront => Evicted(log)
    case Clear => Cleared(log)
  }

  /** The same operation on a plain list: append, take, drop the first, empty. */
  function ListStep(list: seq<Image>, op: Op): seq<Image> {
    match op
    case Push(ram) => list + [ram]
    case TruncateAfter(i) => if i + 1 < |list| then list[..i + 1] else list
    case EvictFront => if list == [] then [] else list[1..]
    case Clear => []
  }

  function Run(log: Log, ops: seq<Op>): Log
    decreases |ops|
  {
    if ops == [] then log else Run(Step(log, ops[0]), ops[1..])
  }

  function ListRun(list: seq<Image>, ops: seq<Op>): seq<Image>
    decreases |ops|
  {
    if ops == [] then list else ListRun(ListStep(list, ops[0]), ops[1..])
  }

  predicate OpFits(log: Log, op: Op) {
    op.Push? ==> Fits(log, op.ram)
  }

  /** Every pushed image fits the log it is pushed onto. */
  predicate AllFit(log: Log, ops: seq<Op>)
    decreases |ops|
  {
    ops == [] || (OpFits(log, ops[0]) && AllFit(Step(log, ops[0]), ops[1..]))
  }

  /** After every prefix of the run the log stands for the list. */
  ghost predicate Faithful(log: Log, list: seq<Image>, ops: seq<Op>)
    decreases |ops|
  {
    && Rooted(log.frames) && Images(log.frames) == list
    && (ops == [] || Faithful(Step(log, ops[0]), ListStep(list, ops[0]), ops[1..]))
  }

  lemma StepKeepsInv(log: Log, op: Op)
    requires Inv(log)
    ensures Inv(Step(log, op))
  {
    match op
    case Push(ram) => PushKeepsInv(log, ram);
    case TruncateAfter(i) => TruncateTakes(log, i);
    case EvictFront => EvictDrops(log);
    case Clear =>
  }

  lemma StepRefines(log: Log, op: Op)
    requires Inv(log) && Synced(log)
    ensures Inv(Step(log, op))
    ensures OpFits(log, op) <==> Images(Step(log, op).frames) == ListStep(Images(log.frames), op)
    ensures OpFits(log, op) ==> Synced(Step(log, op))
  {
    match op
    case Push(ram) => PushAppends(log, ram);
    case TruncateAfter(i) => TruncateTakes(log, i);
    case EvictFront => EvictDrops(log);
    case Clear => assert Images([]) == [];
  }

  /** The structural invariant holds in every reachable state, whatever was pushed. */
  lemma {:induction false} RunKeepsInv(log: Log, ops: seq<Op>)
    requires Inv(log)
    ensures Inv(Run(log, ops))
    decreases |ops|
  {
    if ops != [] {
      StepKeepsInv(log, ops[0]);
      RunKeepsInv(Step(log, ops[0]), ops[1..]);
    }
  }

  lemma {:induction false} RunRefines(log: Log, ops: seq<Op>)
    requires Inv(log) && Synced(log)
    ensures AllFit(log, ops) <==> Faithful(log, Images(log.frames), ops)
    ensures AllFit(log, ops) ==> var r := Run(log, ops);
            Inv(r) && Synced(r) && Images(r.frames) == ListRun(Images(log.frames), ops)
    decreases |ops|
  {
    if ops != [] {
      StepRefines(log, ops[0]);
      if OpFits(log, ops[0]) {
        RunRefines(Step(log, ops[0]), ops[1..]);
      }
    }
  }

  /** Main theorem: a log started empty behaves as a plain list of images over a whole run exactly
      when each pushed image fits; then `reconstruct` reads back that list. */
  lemma LogRefinesList(stride: nat, ops: seq<Op>, i: nat)
    ensures AllFit(New(stride), ops) <==> Faithful(New(stride), [], ops)
    ensures AllFit(New(stride), ops) ==>
              var list := ListRun([], ops);
              Reconstruct(Run(New(stride), ops).frames, i) == if i < |list| then Some(list[i]) else None
  {
    assert Images([]) == [];
    RunRefines(New(stride), ops);
  }

  /** In every reachable state the front is a keyframe and no frame is more than `stride` deltas
      from its keyframe. */
  lemma KeyframesStayClose(stride: nat, ops: seq<Op>)
    ensures var log := Run(New(stride), ops);
            && Inv(log) && (log.frames != [] ==> log.frames[0].Keyframe?)
            && forall i :: 0 <= i < |log.frames| ==> KeyDistance(log.frames, i) <= if stride < 1 then 1 else stride
  {
    RunKeepsInv(New(stride), ops);
    StrideKept(New(stride), ops);
  }

  lemma {:induction false} StrideKept(log: Log, ops: seq<Op>)
    ensures Run(log, ops).stride == log.stride
    decreases |ops|
  {
    if ops != [] { StrideKept(Step(log, ops[0]), ops[1..]); }
  }

  /** A run of pushes. */
  ghost predicate OnlyPushes(ops: seq<Op>) {
    forall i :: 0 <= i < |ops| ==> ops[i].Push?
  }

  /** The counter is the distance of the newest frame from the last multiple of stride + 1. */
  ghost predicate OnSchedule(log: Log) {
    1 <= log.stride && (log.frames != [] ==> log.sinceKeyframe == (|log.frames| - 1) % (log.stride + 1))
  }

  lemma PushOnSchedule(log: Log, ram: Image)
    requires OnSchedule(log)
    ensures var next, n := Pushed(log, ram), |log.frames|;
            && OnSchedule(next) && next.stride == log.stride
            && |next.frames| == n + 1 && next.frames[..n] == log.frames
            && (next.frames[n].Keyframe? <==> n % (log.stride + 1) == 0)
  {
    hide Changed;
    var n, p := |log.frames|, log.stride + 1;
    if n > 0 {
      assert n == p * ((n - 1) / p) + ((n - 1) % p + 1);
      ModIs(n, p, (n - 1) / p, (n - 1) % p + 1);
    } else {
      ModIs(0, p, 0, 0);
    }
  }

  lemma {:induction false} ScheduleFrom(log: Log, ops: seq<Op>)
    requires OnlyPushes(ops) && OnSchedule(log)
    ensures var frames := Run(log, ops).frames;
            && |frames| == |log.frames| + |ops| && frames[..|log.frames|] == log.frames
            && forall i :: |log.frames| <= i < |frames| ==> (frames[i].Keyframe? <==> i % (log.stride + 1) == 0)
    decreases |ops|
  {
    if ops != [] {
      PushOnSchedule(log, ops[0].ram);
      hide OnSchedule, Pushed;
      var next, n := Step(log, ops[0]), |log.frames|;
      ScheduleFrom(next, ops[1..]);
      var frames := Run(next, ops[1..]).frames;
      assert frames[n] == frames[..n + 1][n] == next.frames[n];
      assert frames[..n] == frames[..n + 1][..n];
    }
  }

  lemma ModIs(n: nat, p: nat, q: nat, r: nat)
    requires 0 < p && n == p * q + r && r <= p
    ensures n % p == if r == p then 0 else r
  {
    if r < p {
      DivisionIs(n, p, q, r);
    } else {
      assert n == p * (q + 1) + 0;
      DivisionIs(n, p, q + 1, 0);
    }
  }

  /** With pushes alone every (stride + 1)-st frame is a keyframe, and only those. */
  lemma KeyframeSchedule(stride: nat, ops: seq<Op>, i: nat)
    requires OnlyPushes(ops) && i < |ops|
    ensures var frames, s := Run(New(stride), ops).frames, if stride < 1 then 1 else stride;
            |frames| == |ops| && (frames[i].Keyframe? <==> i % (s + 1) == 0)
  {
    ScheduleFrom(New(stride), ops);
  }

  /** After a truncation the next push stores a delta exactly when its frame stays within the stride of the
      keyframe before it. */
  lemma PushAfterTruncate(log: Log, i: nat, ram: Image)
    requires Inv(log) && i + 1 < |log.frames|
    ensures var frames := Pushed(Truncated(log, i), ram).frames;
            |frames| == i + 2 && (frames[i + 1].Delta? <==> KeyDistance(log.frames, i) < log.stride)
  {
    PrefixDetermines(log.frames[..i + 1], log.frames, i);
    hide Reconstruct, Changed;
  }

  /** Pushing images of one length is enough to fit. */
  lemma {:induction false} UniformFits(log: Log, ops: seq<Op>, len: nat)
    requires Inv(log) && Synced(log)
    requires log.frames != [] ==> forall img :: img in Images(log.frames) ==> |img| == len
    requires forall op :: op in ops && op.Push? ==> |op.ram| == len
    ensures AllFit(log, ops)
    decreases |ops|
  {
    if ops != [] {
      if log.frames != [] {
        assert log.prev == Images(log.frames)[|log.frames| - 1];
        assert log.prev in Images(log.frames);
      }
      StepRefines(log, ops[0]);
      var next := Step(log, ops[0]);
      assert forall img :: img in ListStep(Images(log.frames), ops[0]) ==> img in Images(log.frames) || |img| == len;
      UniformFits(next, ops[1..], len);
    }
  }

  /** A shorter second image is stored as a delta and replays too long. */
  lemma LengthChangeIsLost()
    ensures var ops := [Push([7, 7]), Push([9])];
            Run(New(8), ops).frames != [] && Reconstruct(Run(New(8), ops).frames, 1) != Some([9])
  {
    var ops := [Push([7, 7]), Push([9])];
    var first := Step(New(8), ops[0]);
    assert Images([]) == [];
    StepRefines(New(8), ops[0]);
    PushAppends(first, [9]);
    assert !Fits(first, [9]);
    assert ops[1..] == [Push([9])] && ops[1..][1..] == [];
    assert Run(New(8), ops) == Pushed(first, [9]);
    assert Images(first.frames)[..] == [] + [[7, 7]];
    var r := Pushed(first, [9]);
    ReplayKeepsLength(r.frames, 1);
    PrefixDetermines(r.frames, first.frames, 0);
  }

  // ----- The object -----

  class RamLog {
    var frames: seq<RamStore>
    var prev: seq<Byte>
    var sinceKeyframe: nat
    var keyframeStride: nat

    ghost function State(): Log
      reads this
    {
      Log(frames, prev, sinceKeyframe, keyframeStride)
    }

    constructor (stride: nat)
      ensures State() == New(stride)
    {
      frames, prev, sinceKeyframe, keyframeStride := [], [], 0, Max(stride, 1);
    }

    method Clear()
      modifies this
      ensures State() == Cleared(old(State()))
    {
      frames, prev, sinceKeyframe := [], [], 0;
    }

    method Push(ram: seq<Byte>)
      modifies this
      ensures State() == Pushed(old(State()), ram)
    {
      var store: RamStore;
      if frames == [] || sinceKeyframe >= keyframeStride {
        sinceKeyframe := 0;
        var pages := ChangedPages([], ram);
        store := Keyframe(|ram|, pages);
      } else {
        sinceKeyframe := sinceKeyframe + 1;
        var pages := ChangedPages(prev, ram);
        store := Delta(pages);
      }
      prev := ram;
      frames := frames + [store];
    }

    /** Walks back to the keyframe, then replays forward into one buffer. */
    method Replay(i: nat) returns (r: Option<seq<Byte>>)
      ensures r == Reconstruct(frames, i)
    {
      if i >= |frames| {
        return None;
      }
      var key := i;
      while !frames[key].Keyframe?
        invariant 0 <= key <= i
        invariant forall j :: key < j <= i ==> frames[j].Delta?
        decreases key
      {
        if key == 0 {
          OrphanIsLost(frames, i);
          return None;
        }
        key := key - 1;
      }
      var len := frames[key].len;
      var buf := new Byte[len](_ => 0);
      assert buf[..] == Zeros(len);
      ApplyPages(buf, frames[key].pages);
      for n := key + 1 to i + 1
        invariant Reconstruct(frames, n - 1) == Some(buf[..])
      {
        if frames[n].Delta? {
          ApplyPages(buf, frames[n].pages);
        }
      }
      r := Some(buf[..]);
    }

    method TruncateAfter(i: nat)
      modifies this
      ensures State() == Truncated(old(State()), i)
    {
      if i + 1 >= |frames| {
        return;
      }
      frames := frames[..i + 1];
      var newest := Replay(i);
      prev := match newest case Some(b) => b case None => [];
      var key := |frames| - 1;
      while key > 0 && !frames[key].Keyframe?
        invariant 0 <= key <= i
        invariant i - key + KeyDistance(frames, key) == KeyDistance(frames, i)
      {
        key := key - 1;
      }
      sinceKeyframe := |frames| - 1 - key;
    }

    method EvictFront()
      modifies this
      ensures State() == Evicted(old(State()))
    {
      if |frames| < 2 {
        frames := [];
        return;
      }
      if frames[1].Delta? {
        var full := Replay(1);
        if full.Some? {
          var pages := ChangedPages([], full.value);
          frames := frames[1 := Keyframe(|full.value|, pages)];
        }
      }
      frames := frames[1..];
    }
  }

  /** A chain of deltas with no keyframe under it cannot be replayed. */
  lemma {:induction false} OrphanIsLost(frames: seq<RamStore>, i: nat)
    requires i < |frames| && forall j :: 0 <= j <= i ==> frames[j].Delta?
    ensures Reconstruct(frames, i) == None
  {
    if i > 0 { OrphanIsLost(frames, i - 1); }
  }
}
