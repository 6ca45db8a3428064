/**
 * The older single-phase renderer `PuyoGoBoard`: `addStone` grows the new
 * stone by a fixed step each animation frame until it would exceed the
 * nominal radius. Frames are returned instead of uploaded.
 */
module PuyoGo {
  import opened Geometry

  /** `deltaStone = stoneSize * 0.02`: the growth per frame. */
  function Delta(ss: real): real {
    ss * 0.02
  }

  /** The value of `newStone` while frame n (counting from 0) is drawn. */
  function StoneAt(ss: real, n: nat): real {
    (n + 1) as real * Delta(ss)
  }

  /** The first frame draws the new stone at a fiftieth of full size; each later frame adds exactly one step. */
  lemma StoneAtSteps(ss: real, n: nat)
    ensures StoneAt(ss, 0) == ss / 50.0
    ensures StoneAt(ss, n + 1) == StoneAt(ss, n) + Delta(ss)
    ensures ss > 0.0 ==> StoneAt(ss, n) < StoneAt(ss, n + 1)
  {
  }

  /** For a positive radius, the stone is within full size exactly during the first 50 frames. */
  lemma StoneAtWithinSize(ss: real, n: nat)
    requires ss > 0.0
    ensures StoneAt(ss, n) <= ss <==> n < 50
  {
    assert StoneAt(ss, n) == (n + 1) as real * ss / 50.0;
    if n < 50 {
      assert (n + 1) as real * ss <= 50.0 * ss;
    } else {
      assert (n + 1) as real * ss > 50.0 * ss;
    }
  }

  /** As written: after frame n, `addStone` schedules another iff `newStone <= stoneSize`. */
  predicate Reschedules(ss: real, n: nat) {
    StoneAt(ss, n + 1) <= ss
  }

  /**
   * With a zero radius (a canvas of zero width or height) the step is 0, so
   * the test `newStone <= stoneSize` holds after every frame: frames are
   * scheduled forever.
   */
  lemma ZeroSizeReschedulesForever(n: nat)
    ensures Reschedules(0.0, n)
  {
  }

  /** Corrected: schedule another frame only while the stone actually grows. */
  predicate ReschedulesGuarded(ss: real, n: nat) {
    Reschedules(ss, n) && Delta(ss) > 0.0
  }

  /**
   * The corrected test agrees with the source whenever the radius is
   * positive, and it stops after at most 50 frames for every radius.
   */
  lemma ReschedulesGuardedBounded(ss: real, n: nat)
    ensures ss > 0.0 ==> (ReschedulesGuarded(ss, n) <==> Reschedules(ss, n))
    ensures ReschedulesGuarded(ss, n) ==> n < 49
  {
    if ReschedulesGuarded(ss, n) {
      StoneAtWithinSize(ss, n + 1);
    }
  }

  /** One frame of `step`: the cell at `index` scaled by `stone`, every other cell by `ss`. */
  function Frame(b: seq<real>, ss: real, index: int, stone: real): seq<real> {
    seq(|b|, i requires 0 <= i < |b| => b[i] * (if i == index then stone else ss))
  }

  /** The first `count` frames `addStone` draws. */
  function Frames(b: seq<real>, ss: real, index: int, count: nat): seq<seq<real>> {
    seq(count, n requires 0 <= n < count => Frame(b, ss, index, StoneAt(ss, n)))
  }

  /** How many frames `addStone` draws once the zero-step guard is in place. */
  function FrameCount(ss: real): nat {
    if ss > 0.0 then 50 else 1
  }

  lemma FramesSnoc(b: seq<real>, ss: real, index: int, count: nat)
    ensures Frames(b, ss, index, count + 1) == Frames(b, ss, index, count) + [Frame(b, ss, index, StoneAt(ss, count))]
  {
  }

  /**
   * What each frame shows: every cell other than `index` at full radius,
   * the new stone at radius `StoneAt(ss, n)`, which for a positive radius
   * never exceeds full size and reaches it in the last frame.
   */
  lemma FramesEntries(b: seq<real>, ss: real, index: int, n: nat, i: nat)
    requires n < FrameCount(ss) && i < |b|
    ensures |Frames(b, ss, index, FrameCount(ss))| == FrameCount(ss)
    ensures |Frames(b, ss, index, FrameCount(ss))[n]| == |b|
    ensures i != index ==> Frames(b, ss, index, FrameCount(ss))[n][i] == b[i] * ss
    ensures i == index ==> Frames(b, ss, index, FrameCount(ss))[n][i] == b[i] * StoneAt(ss, n)
    ensures ss > 0.0 ==> StoneAt(ss, n) <= ss
    ensures ss > 0.0 && n == FrameCount(ss) - 1 ==> StoneAt(ss, n) == ss
  {
    if ss > 0.0 {
      StoneAtWithinSize(ss, n);
    }
  }

  class PuyoGoBoard {
    const stoneSize: real

    constructor (boardWidth: int, boardHeight: int, width: int, height: int)
      requires boardWidth >= 1 && boardHeight >= 1
      ensures stoneSize == StoneSize(width, height, boardWidth, boardHeight)
    {
      stoneSize := StoneSize(width, height, boardWidth, boardHeight);
    }

    /** One `step`: fills a fresh buffer of `boardState.Length` radii. */
    method Step(boardState: array<real>, index: int, newStone: real) returns (frame: seq<real>)
      ensures frame == Frame(boardState[..], stoneSize, index, newStone)
    {
      var data := new real[boardState.Length];
      for i := 0 to boardState.Length
        invariant forall j :: 0 <= j < i ==> data[j] == boardState[j] * (if j == index then newStone else stoneSize)
      {
        data[i] := boardState[i] * (if i == index then newStone else stoneSize);
      }
      frame := data[..];
      assert forall j :: 0 <= j < |frame| ==> frame[j] == Frame(boardState[..], stoneSize, index, newStone)[j];
    }

    /**
     * `addStone(boardState, index)`, with the step loop stopping once the
     * stone stops growing: a positive radius gives exactly 50 frames, any
     * other radius a single frame, and frame n is `Frame` at radius
     * `StoneAt(stoneSize, n)`. `boardState` is only read.
     */
    method AddStone(boardState: array<real>, index: int) returns (frames: seq<seq<real>>)
      ensures |frames| == FrameCount(stoneSize)
      ensures frames == Frames(boardState[..], stoneSize, index, |frames|)
    {
      var deltaStone := stoneSize * 0.02;
      var newStone := deltaStone;
      frames := [];
      var scheduled := true;
      while scheduled
        invariant newStone == StoneAt(stoneSize, |frames|)
        invariant frames == Frames(boardState[..], stoneSize, index, |frames|)
        invariant |frames| <= 50
        invariant stoneSize <= 0.0 ==> |frames| <= 1
        invariant scheduled ==> |frames| < 50
        invariant scheduled && |frames| > 0 ==> Delta(stoneSize) > 0.0
        invariant !scheduled ==> |frames| >= 1 && !ReschedulesGuarded(stoneSize, |frames| - 1)
        decreases 50 - |frames|
      {
        ghost var n := |frames|;
        var frame := Step(boardState, index, newStone);
        FramesSnoc(boardState[..], stoneSize, index, n);
        frames := frames + [frame];
        newStone := newStone + deltaStone;
        StoneAtSteps(stoneSize, n);
        scheduled := newStone <= stoneSize && deltaStone > 0.0;
        ReschedulesGuardedBounded(stoneSize, n);
      }
      if stoneSize > 0.0 {
        StoneAtWithinSize(stoneSize, |frames|);
      }
    }
  }
}
