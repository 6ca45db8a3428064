/**
 * The frame and phase logic of `drawStone`, with the clock injected as the
 * sequence of readings `Date.now()` returns, one per call, and the GPU upload
 * recorded as a `Draw` event holding the uploaded per-cell radii.
 */
module Animation {
  import opened Wrappers

  /** `INTERVAL`: the length of each phase, in milliseconds. */
  const Interval: int := 500

  /** What `drawStone` hands to the outside world, in order. */
  datatype Event =
    | Draw(frame: seq<real>)     // one uniform upload and full-screen draw
    | Refresh(state: seq<real>)  // one call of `updateLeaves` with this argument

  /** The overlay style of one leaf. */
  datatype LeafState = Hidden | Dark | Light

  /** `updateLeaves` for one cell: shown dark for a positive, light for a negative value. */
  function LeafOf(v: real): (l: LeafState)
    ensures l == Dark <==> v > 0.0
    ensures l == Light <==> v < 0.0
    ensures l == Hidden <==> v == 0.0
  {
    if v != 0.0 then (if v > 0.0 then Dark else Light) else Hidden
  }

  /**
   * The overlay `updateLeaves(state)` leaves behind on a board of n cells; a
   * cell past the end of `state` reads `undefined`, which is falsy.
   */
  function Overlay(state: seq<real>, n: nat): (leaves: seq<LeafState>)
    ensures |leaves| == n
    ensures forall i :: 0 <= i < n ==> (leaves[i] == Dark <==> i < |state| && state[i] > 0.0)
    ensures forall i :: 0 <= i < n ==> (leaves[i] == Light <==> i < |state| && state[i] < 0.0)
    ensures forall i :: 0 <= i < n ==> (leaves[i] == Hidden <==> i >= |state| || state[i] == 0.0)
  {
    seq(n, i requires 0 <= i < n => if i < |state| then LeafOf(state[i]) else Hidden)
  }

  /** Each leaf depends on its own cell only. */
  lemma OverlayIsPointwise(s1: seq<real>, s2: seq<real>, n: nat, i: nat)
    requires i < n && i < |s1| && i < |s2| && s1[i] == s2[i]
    ensures Overlay(s1, n)[i] == Overlay(s2, n)[i]
  {
  }

  /** `Math.min(interval / INTERVAL, 1.0)`. */
  function GrowFactor(t: int): (f: real)
    ensures f <= 1.0
    ensures t >= Interval ==> f == 1.0
    ensures t >= 0 ==> f >= 0.0
  {
    var q := t as real / Interval as real;
    if q < 1.0 then q else 1.0
  }

  /** `Math.max((INTERVAL - interval) / INTERVAL, 0.0)`. */
  function DeclineFactor(t: int): (f: real)
    ensures f >= 0.0
    ensures t >= Interval ==> f == 0.0
    ensures t >= 0 ==> f <= 1.0
  {
    var q := (Interval - t) as real / Interval as real;
    if q > 0.0 then q else 0.0
  }

  lemma GrowFactorMonotone(t1: int, t2: int)
    requires t1 <= t2
    ensures GrowFactor(t1) <= GrowFactor(t2)
  {
  }

  lemma DeclineFactorMonotone(t1: int, t2: int)
    requires t1 <= t2
    ensures DeclineFactor(t1) >= DeclineFactor(t2)
  {
  }

  /**
   * The three kinds of frame `drawStone` draws: the immediate draw when there
   * is no added stone, a grow tick, and a decline tick.
   */
  datatype Phase = Still | Grow(addIndex: int) | Decline(removeIndices: seq<int>)

  /** The cells whose radius a phase animates. */
  predicate Moving(p: Phase, i: int) {
    match p
    case Still => false
    case Grow(a) => i == a
    case Decline(rs) => i in rs
  }

  function Factor(p: Phase, t: int): real {
    match p
    case Still => 1.0
    case Grow(_) => GrowFactor(t)
    case Decline(_) => DeclineFactor(t)
  }

  /** The radius multiplier of cell i at elapsed time t. */
  function Radius(p: Phase, ss: real, t: int, i: int): real {
    if Moving(p, i) then ss * Factor(p, t) else ss
  }

  /** The data a tick at elapsed time t uploads. */
  function FrameAt(p: Phase, b: seq<real>, ss: real, t: int): seq<real> {
    seq(|b|, i requires 0 <= i < |b| => b[i] * Radius(p, ss, t, i))
  }

  function FramesAt(p: Phase, b: seq<real>, ss: real, ts: seq<int>): seq<seq<real>> {
    seq(|ts|, j requires 0 <= j < |ts| => FrameAt(p, b, ss, ts[j]))
  }

  function Draws(frames: seq<seq<real>>): seq<Event> {
    seq(|frames|, j requires 0 <= j < |frames| => Draw(frames[j]))
  }

  /**
   * One tick: fill a fresh buffer of |b| entries, entry i being `b[i]` times
   * the radius of cell i.
   */
  method ComputeFrame(p: Phase, b: seq<real>, ss: real, t: int) returns (frame: seq<real>)
    ensures |frame| == |b|
    ensures forall i :: 0 <= i < |b| ==> frame[i] == b[i] * Radius(p, ss, t, i)
    ensures frame == FrameAt(p, b, ss, t)
  {
    var data := new real[|b|];
    var moving := ss * Factor(p, t);
    for i := 0 to |b|
      invariant forall j :: 0 <= j < i ==> data[j] == b[j] * Radius(p, ss, t, j)
    {
      data[i] := b[i] * (if Moving(p, i) then moving else ss);
    }
    frame := data[..];
    assert forall i :: 0 <= i < |b| ==> frame[i] == FrameAt(p, b, ss, t)[i];
  }

  /** A phase has finished once it has drawn a tick later than `INTERVAL`. */
  predicate Finished(ts: seq<int>) {
    |ts| > 0 && ts[|ts| - 1] > Interval
  }

  /**
   * The elapsed times of the ticks a phase started at `start` draws when its
   * ticks read `clock[from..]`: each tick draws, then continues iff its
   * elapsed time is at most `INTERVAL`.
   */
  function Ticks(clock: seq<int>, start: int, from: nat): seq<int>
    requires from <= |clock|
    decreases |clock| - from
  {
    if from == |clock| then []
    else
      var t := clock[from] - start;
      if t <= Interval then [t] + Ticks(clock, start, from + 1) else [t]
  }

  /**
   * A phase that reads `clock[from..]` draws one frame per reading it takes,
   * at least one if there is a reading left; every frame but the last is
   * within the interval, and unless the last is past it, the readings ran out.
   */
  lemma {:induction false} TicksSpec(clock: seq<int>, start: int, from: nat)
    requires from <= |clock|
    ensures var ts := Ticks(clock, start, from);
      && |ts| <= |clock| - from
      && (from < |clock| ==> |ts| >= 1)
      && (forall j :: 0 <= j < |ts| ==> ts[j] == clock[from + j] - start)
      && (forall j :: 0 <= j < |ts| - 1 ==> ts[j] <= Interval)
      && (Finished(ts) || from + |ts| == |clock|)
    decreases |clock| - from
  {
    if from < |clock| && clock[from] - start <= Interval {
      TicksSpec(clock, start, from + 1);
    }
  }

  /** With readings that never go back, the elapsed times never go back. */
  lemma TicksNonDecreasing(clock: seq<int>, start: int, from: nat, j1: nat, j2: nat)
    requires from <= |clock|
    requires forall m, n :: 0 <= m <= n < |clock| ==> clock[m] <= clock[n]
    requires j1 <= j2 < |Ticks(clock, start, from)|
    ensures Ticks(clock, start, from)[j1] <= Ticks(clock, start, from)[j2]
  {
    TicksSpec(clock, start, from);
  }

  /** The frames one phase draws, the index of the next clock reading, and whether it finished. */
  datatype Run = Run(frames: seq<seq<real>>, next: nat, done: bool)

  /** A phase whose start time is `clock[k]`. */
  function PhaseRun(p: Phase, b: seq<real>, ss: real, clock: seq<int>, k: nat): (r: Run)
    ensures k >= |clock| ==> r.frames == [] && !r.done
    ensures k < |clock| ==> r.next == k + 1 + |r.frames| <= |clock|
  {
    if k >= |clock| then Run([], k, false)
    else
      var ts := Ticks(clock, clock[k], k + 1);
      TicksSpec(clock, clock[k], k + 1);
      Run(FramesAt(p, b, ss, ts), k + 1 + |ts|, Finished(ts))
  }

  /**
   * The `grow` closure and its re-arming through `requestAnimationFrame`
   * (and the same for `decline`): read the start time, then draw a frame per
   * tick until one is drawn later than `INTERVAL`.
   */
  method RunPhase(p: Phase, b: seq<real>, ss: real, clock: seq<int>, k: nat)
    returns (frames: seq<seq<real>>, next: nat, done: bool)
    ensures Run(frames, next, done) == PhaseRun(p, b, ss, clock, k)
  {
    if k >= |clock| {
      return [], k, false;
    }
    var start := clock[k];
    next := k + 1;
    frames := [];
    done := false;
    ghost var ts: seq<int> := [];
    while !done && next < |clock|
      invariant k + 1 <= next <= |clock|
      invariant next == k + 1 + |ts|
      invariant frames == FramesAt(p, b, ss, ts)
      invariant done == Finished(ts)
      invariant done ==> Ticks(clock, start, k + 1) == ts
      invariant !done ==> Ticks(clock, start, k + 1) == ts + Ticks(clock, start, next)
      decreases |clock| - next
    {
      var interval := clock[next] - start;
      TicksAdvance(clock, start, k + 1, next, ts);
      var frame := ComputeFrame(p, b, ss, interval);
      FramesAtSnoc(p, b, ss, ts, interval);
      frames := frames + [frame];
      ts := ts + [interval];
      next := next + 1;
      done := interval > Interval;
    }
    if !done {
      assert Ticks(clock, start, next) == [];
      assert ts + [] == ts;
    }
    TicksSpec(clock, start, k + 1);
  }

  /** One tick of `Ticks`: draw at `clock[next]`, then continue iff within the interval. */
  lemma TicksAdvance(clock: seq<int>, start: int, from: nat, next: nat, ts: seq<int>)
    requires from <= next < |clock|
    requires Ticks(clock, start, from) == ts + Ticks(clock, start, next)
    ensures var t := clock[next] - start;
      && (t <= Interval ==> Ticks(clock, start, from) == (ts + [t]) + Ticks(clock, start, next + 1))
      && (t > Interval ==> Ticks(clock, start, from) == ts + [t])
  {
    var t := clock[next] - start;
    var rest := Ticks(clock, start, next + 1);
    assert ts + ([t] + rest) == (ts + [t]) + rest;
  }

  lemma FramesAtSnoc(p: Phase, b: seq<real>, ss: real, ts: seq<int>, t: int)
    ensures FramesAt(p, b, ss, ts + [t]) == FramesAt(p, b, ss, ts) + [FrameAt(p, b, ss, t)]
  {
  }

  /**
   * Frame j of a phase started at `clock[k]` is drawn at elapsed time
   * `clock[k + 1 + j] - clock[k]`; it re-arms iff that time is within the
   * interval, so only the last frame of a finished phase lies past it.
   */
  lemma PhaseRunFrame(p: Phase, b: seq<real>, ss: real, clock: seq<int>, k: nat, j: nat)
    requires j < |PhaseRun(p, b, ss, clock, k).frames|
    ensures var r := PhaseRun(p, b, ss, clock, k);
      && k + 1 + j < |clock|
      && var t := clock[k + 1 + j] - clock[k];
      && r.frames[j] == FrameAt(p, b, ss, t)
      && (j + 1 < |r.frames| ==> t <= Interval)
      && (j + 1 == |r.frames| && r.done ==> t > Interval)
  {
    var ts := Ticks(clock, clock[k], k + 1);
    TicksSpec(clock, clock[k], k + 1);
    assert ts[j] == clock[k + 1 + j] - clock[k];
  }

  /** A finished grow phase ends on a frame that shows the added stone at full size. */
  lemma GrowEndsAtFullSize(b: seq<real>, ss: real, a: int, clock: seq<int>, k: nat)
    requires 0 <= a < |b|
    requires PhaseRun(Grow(a), b, ss, clock, k).done
    ensures var r := PhaseRun(Grow(a), b, ss, clock, k);
      && 1 <= |r.frames|
      && |r.frames[|r.frames| - 1]| == |b|
      && r.frames[|r.frames| - 1][a] == b[a] * ss
  {
    var r := PhaseRun(Grow(a), b, ss, clock, k);
    var j := |r.frames| - 1;
    PhaseRunFrame(Grow(a), b, ss, clock, k, j);
    GrowFrameEntries(b, ss, a, clock[k + 1 + j] - clock[k]);
  }

  /** A finished decline phase ends on a frame that shows every removed stone at radius 0. */
  lemma DeclineEndsAtZero(b: seq<real>, ss: real, rs: seq<int>, clock: seq<int>, k: nat, i: int)
    requires 0 <= i < |b| && i in rs
    requires PhaseRun(Decline(rs), b, ss, clock, k).done
    ensures var r := PhaseRun(Decline(rs), b, ss, clock, k);
      && 1 <= |r.frames|
      && |r.frames[|r.frames| - 1]| == |b|
      && r.frames[|r.frames| - 1][i] == 0.0
  {
    var r := PhaseRun(Decline(rs), b, ss, clock, k);
    var j := |r.frames| - 1;
    PhaseRunFrame(Decline(rs), b, ss, clock, k, j);
    DeclineFrameEntries(b, ss, rs, clock[k + 1 + j] - clock[k]);
  }

  /** What the working copy holds at a removed cell. */
  function RecolourValue(color: real, addIndex: Option<int>, removeIndices: seq<int>): real {
    if addIndex.Some? && addIndex.value in removeIndices then color else -color
  }

  function Recolour(s: seq<real>, color: real, addIndex: Option<int>, removeIndices: seq<int>): seq<real> {
    seq(|s|, i requires 0 <= i < |s| =>
      if i in removeIndices then RecolourValue(color, addIndex, removeIndices) else s[i])
  }

  /**
   * `b = boardState.slice()` followed by the loop writing every removed index:
   * `color` if the added index is among the removed ones, `-color` otherwise.
   * A negative index names a property of the JS array, not an element, so it
   * changes no entry.
   */
  method WorkingCopy(s: seq<real>, color: real, addIndex: Option<int>, removeIndices: seq<int>)
    returns (b: seq<real>)
    requires forall e :: e in removeIndices ==> e < |s|
    ensures |b| == |s|
    ensures forall i :: 0 <= i < |s| && i !in removeIndices ==> b[i] == s[i]
    ensures addIndex.Some? && addIndex.value in removeIndices ==>
      forall i :: 0 <= i < |s| && i in removeIndices ==> b[i] == color
    ensures !(addIndex.Some? && addIndex.value in removeIndices) ==>
      forall i :: 0 <= i < |s| && i in removeIndices ==> b[i] == -color
    ensures b == Recolour(s, color, addIndex, removeIndices)
  {
    b := s;
    var c := if addIndex.Some? && addIndex.value in removeIndices then color else -color;
    for n := 0 to |removeIndices|
      invariant |b| == |s|
      invariant forall i :: 0 <= i < |s| ==> b[i] == if i in removeIndices[..n] then c else s[i]
    {
      var e := removeIndices[n];
      assert e in removeIndices;
      if 0 <= e {
        b := b[e := c];
      }
      assert removeIndices[..n + 1] == removeIndices[..n] + [e];
    }
    assert removeIndices[..|removeIndices|] == removeIndices;
  }

  /** The grow phase, or the single immediate frame when no stone was added. */
  function GrowRun(b: seq<real>, ss: real, addIndex: Option<int>, clock: seq<int>): Run {
    match addIndex
    case None => Run([FrameAt(Still, b, ss, 0)], 0, true)
    case Some(a) => PhaseRun(Grow(a), b, ss, clock, 0)
  }

  /** The events one `drawStone` call produces, and whether it resolved. */
  datatype Outcome = Outcome(trace: seq<Event>, completed: bool)

  /**
   * The schedule of `drawStone`: the grow phase (or the immediate draw), then
   * `updateLeaves` with the caller's snapshot, then the decline phase when
   * there are removed indices. A phase whose clock readings run out leaves
   * the call pending: `completed` is false.
   */
  function Timeline(s: seq<real>, color: real, addIndex: Option<int>, removeIndices: seq<int>,
                    clock: seq<int>, ss: real): Outcome
  {
    var b := Recolour(s, color, addIndex, removeIndices);
    var g := GrowRun(b, ss, addIndex, clock);
    if !g.done then Outcome(Draws(g.frames), false)
    else if |removeIndices| == 0 then Outcome(Draws(g.frames) + [Refresh(s)], true)
    else
      var d := PhaseRun(Decline(removeIndices), b, ss, clock, g.next);
      Outcome(Draws(g.frames) + [Refresh(s)] + Draws(d.frames), d.done)
  }

  /** The number of `updateLeaves` calls in a trace. */
  function RefreshCount(trace: seq<Event>): nat {
    if |trace| == 0 then 0
    else (if trace[0].Refresh? then 1 else 0) + RefreshCount(trace[1..])
  }

  lemma {:induction false} RefreshCountAppend(a: seq<Event>, b: seq<Event>)
    ensures RefreshCount(a + b) == RefreshCount(a) + RefreshCount(b)
  {
    if |a| > 0 {
      assert (a + b)[0] == a[0];
      assert (a + b)[1..] == a[1..] + b;
      RefreshCountAppend(a[1..], b);
    } else {
      assert a + b == b;
    }
  }

  lemma {:induction false} RefreshCountDraws(frames: seq<seq<real>>)
    ensures RefreshCount(Draws(frames)) == 0
  {
    if |frames| > 0 {
      assert Draws(frames)[1..] == Draws(frames[1..]);
      RefreshCountDraws(frames[1..]);
    }
  }

  /**
   * `updateLeaves` runs exactly once once the grow phase (or immediate draw)
   * is over, and never before: with the caller's own snapshot, right after
   * the last grow frame. A call completes only if it got that far, and the
   * trace holds nothing but the grow frames, the refresh and the decline frames.
   */
  lemma TimelineRefreshesOnce(s: seq<real>, color: real, addIndex: Option<int>,
                              removeIndices: seq<int>, clock: seq<int>, ss: real)
    ensures var g := GrowRun(Recolour(s, color, addIndex, removeIndices), ss, addIndex, clock);
      var o := Timeline(s, color, addIndex, removeIndices, clock, ss);
      && RefreshCount(o.trace) == (if g.done then 1 else 0)
      && (o.completed ==> g.done)
      && (forall j :: 0 <= j < |g.frames| ==> j < |o.trace| && o.trace[j] == Draw(g.frames[j]))
      && (g.done ==> |g.frames| < |o.trace| && o.trace[|g.frames|] == Refresh(s))
      && |o.trace| == |g.frames| + (if g.done then 1 + (if |removeIndices| > 0 then
           |PhaseRun(Decline(removeIndices), Recolour(s, color, addIndex, removeIndices), ss, clock, g.next).frames|
           else 0) else 0)
  {
    var b := Recolour(s, color, addIndex, removeIndices);
    var g := GrowRun(b, ss, addIndex, clock);
    RefreshCountDraws(g.frames);
    if g.done {
      RefreshCountAppend(Draws(g.frames), [Refresh(s)]);
      assert RefreshCount([Refresh(s)]) == 1 by {
        assert [Refresh(s)][1..] == [];
      }
      if |removeIndices| > 0 {
        var d := PhaseRun(Decline(removeIndices), b, ss, clock, g.next);
        RefreshCountDraws(d.frames);
        RefreshCountAppend(Draws(g.frames) + [Refresh(s)], Draws(d.frames));
      }
    }
  }

  /**
   * A grow tick uploads every cell at full radius except the added one, which
   * is scaled by `min(t/500, 1)`; past the interval the added stone is at full size.
   */
  lemma GrowFrameEntries(b: seq<real>, ss: real, a: int, t: int)
    ensures var f := FrameAt(Grow(a), b, ss, t);
      && |f| == |b|
      && (forall i :: 0 <= i < |b| && i != a ==> f[i] == b[i] * ss)
      && (0 <= a < |b| ==> f[a] == b[a] * (ss * GrowFactor(t)))
      && (0 <= a < |b| && t >= Interval ==> f[a] == b[a] * ss)
  {
  }

  /**
   * A decline tick uploads the removed cells scaled by `max((500 - t)/500, 0)`
   * and every other cell at full radius; past the interval removed cells are at 0.
   */
  lemma DeclineFrameEntries(b: seq<real>, ss: real, rs: seq<int>, t: int)
    ensures var f := FrameAt(Decline(rs), b, ss, t);
      && |f| == |b|
      && (forall i :: 0 <= i < |b| && i !in rs ==> f[i] == b[i] * ss)
      && (forall i :: 0 <= i < |b| && i in rs ==> f[i] == b[i] * (ss * DeclineFactor(t)))
      && (t >= Interval ==> forall i :: 0 <= i < |b| && i in rs ==> f[i] == 0.0)
  {
  }

  /**
   * Grow frame j (of an added stone at `a`) is the grow tick at t, the time
   * since the phase began; every frame but the last has t <= 500, and when the
   * phase finishes its last frame has t > 500.
   */
  lemma TimelineGrowFrames(s: seq<real>, color: real, a: int, removeIndices: seq<int>,
                           clock: seq<int>, ss: real, j: nat)
    requires j < |GrowRun(Recolour(s, color, Some(a), removeIndices), ss, Some(a), clock).frames|
    ensures var b := Recolour(s, color, Some(a), removeIndices);
      var g := GrowRun(b, ss, Some(a), clock);
      var o := Timeline(s, color, Some(a), removeIndices, clock, ss);
      var t := clock[j + 1] - clock[0];
      && j < |o.trace|
      && o.trace[j] == Draw(FrameAt(Grow(a), b, ss, t))
      && (j + 1 < |g.frames| ==> t <= Interval)
      && (j + 1 == |g.frames| && g.done ==> t > Interval)
  {
    var b := Recolour(s, color, Some(a), removeIndices);
    TimelineRefreshesOnce(s, color, Some(a), removeIndices, clock, ss);
    PhaseRunFrame(Grow(a), b, ss, clock, 0, j);
  }

  /** With no added stone, one frame at full radius is drawn, then the overlay is refreshed. */
  lemma TimelineImmediateDraw(s: seq<real>, color: real, removeIndices: seq<int>,
                              clock: seq<int>, ss: real)
    ensures var b := Recolour(s, color, None, removeIndices);
      var o := Timeline(s, color, None, removeIndices, clock, ss);
      && 2 <= |o.trace|
      && o.trace[0].Draw? && |o.trace[0].frame| == |s|
      && (forall i :: 0 <= i < |s| ==> o.trace[0].frame[i] == b[i] * ss)
      && o.trace[1] == Refresh(s)
  {
    TimelineRefreshesOnce(s, color, None, removeIndices, clock, ss);
  }

  /** Without removed indices nothing follows the overlay refresh, and the call completes. */
  lemma TimelineNoDeclineWithoutRemovals(s: seq<real>, color: real, addIndex: Option<int>,
                                         clock: seq<int>, ss: real)
    ensures var g := GrowRun(Recolour(s, color, addIndex, []), ss, addIndex, clock);
      var o := Timeline(s, color, addIndex, [], clock, ss);
      g.done ==> o.completed && |o.trace| == |g.frames| + 1
  {
  }

  /**
   * After the refresh, decline frame j is the decline tick at t, the time
   * since the decline began; every frame but the last has t <= 500, and when
   * the call completes its last frame has t > 500.
   */
  lemma TimelineDeclineFrames(s: seq<real>, color: real, addIndex: Option<int>,
                              removeIndices: seq<int>, clock: seq<int>, ss: real, j: nat)
    requires |removeIndices| > 0
    requires var g := GrowRun(Recolour(s, color, addIndex, removeIndices), ss, addIndex, clock);
      g.done && j < |PhaseRun(Decline(removeIndices), Recolour(s, color, addIndex, removeIndices), ss, clock, g.next).frames|
    ensures var b := Recolour(s, color, addIndex, removeIndices);
      var g := GrowRun(b, ss, addIndex, clock);
      var d := PhaseRun(Decline(removeIndices), b, ss, clock, g.next);
      var o := Timeline(s, color, addIndex, removeIndices, clock, ss);
      var e := |g.frames| + 1 + j;
      var t := clock[g.next + 1 + j] - clock[g.next];
      && e < |o.trace|
      && o.trace[e] == Draw(FrameAt(Decline(removeIndices), b, ss, t))
      && (j + 1 < |d.frames| ==> t <= Interval)
      && (j + 1 == |d.frames| && o.completed ==> t > Interval)
  {
    var b := Recolour(s, color, addIndex, removeIndices);
    var g := GrowRun(b, ss, addIndex, clock);
    var d := PhaseRun(Decline(removeIndices), b, ss, clock, g.next);
    var pre := Draws(g.frames) + [Refresh(s)];
    assert Timeline(s, color, addIndex, removeIndices, clock, ss).trace == pre + Draws(d.frames);
    assert (pre + Draws(d.frames))[|pre| + j] == Draws(d.frames)[j];
    PhaseRunFrame(Decline(removeIndices), b, ss, clock, g.next, j);
  }
}
