/**
 * The Skia canvas underneath the emulator, reduced to what the emulator
 * relies on: a transform, a clip, and a stack of (transform, clip) snapshots
 * that a native save pushes and a native restore pops, restoring both
 * aspects together. The clip is the sequence of clip operations applied at
 * the current level; Skia's region algebra is not part of this model.
 */
module Skia {
  import opened Basics
  import opened Geometry

  /** What a native save records and the matching restore reinstates. */
  datatype Snapshot = Snapshot(matrix: Matrix, clip: seq<Clip>)

  datatype CanvasState = CanvasState(matrix: Matrix, clip: seq<Clip>, saved: seq<Snapshot>)

  /** SkCanvas::getSaveCount: one at the base level, one more per outstanding save. */
  function SaveCount(c: CanvasState): (n: int)
    ensures n >= 1
  {
    |c.saved| + 1
  }

  function AfterSave(c: CanvasState): CanvasState {
    c.(saved := c.saved + [Snapshot(c.matrix, c.clip)])
  }

  /** A restore at the base level does nothing (Skia ignores the underflow). */
  function AfterRestore(c: CanvasState): CanvasState {
    if c.saved == [] then c
    else
      var top := Last(c.saved);
      CanvasState(top.matrix, top.clip, c.saved[..|c.saved| - 1])
  }

  function AfterSetMatrix(c: CanvasState, m: Matrix): CanvasState {
    c.(matrix := m)
  }

  /** A clip operation is taken in the coordinate space of the current matrix. */
  function AfterClip(c: CanvasState, shape: Shape, op: ClipOp): CanvasState {
    c.(clip := c.clip + [Clip(shape, op, c.matrix)])
  }

  /**
   * Clipping `c` by each of `clips` in turn, by shape and operator, as a clip
   * visitor that forwards every operation to a canvas does.
   */
  function AfterClips(c: CanvasState, clips: seq<Clip>): CanvasState
    decreases |clips|
  {
    if clips == [] then c
    else
      var last := Last(clips);
      AfterClip(AfterClips(c, clips[..|clips| - 1]), last.shape, last.op)
  }

  /** The clip operations `clips` issued again, in order, under the matrix `m`. */
  function Reissued(clips: seq<Clip>, m: Matrix): (r: seq<Clip>)
    ensures |r| == |clips|
    ensures forall i :: 0 <= i < |r| ==> r[i] == clips[i].(matrix := m)
    decreases |clips|
  {
    if clips == [] then []
    else Reissued(clips[..|clips| - 1], m) + [Last(clips).(matrix := m)]
  }

  /**
   * Replaying clip operations leaves the matrix and the saves alone and
   * appends the operations, each one taken under the canvas's matrix.
   */
  lemma {:induction false} AfterClipsAppendsReissued(c: CanvasState, clips: seq<Clip>)
    ensures AfterClips(c, clips) == c.(clip := c.clip + Reissued(clips, c.matrix))
    decreases |clips|
  {
    if clips != [] {
      var init := clips[..|clips| - 1];
      AfterClipsAppendsReissued(c, init);
      assert (c.clip + Reissued(init, c.matrix)) + [Last(clips).(matrix := c.matrix)]
          == c.clip + Reissued(clips, c.matrix);
    }
  }

  /**
   * Re-issuing gives back the very same operations exactly when every one of
   * them was taken under the matrix they are re-issued under.
   */
  lemma ReissuedIsIdentity(clips: seq<Clip>, m: Matrix)
    ensures Reissued(clips, m) == clips <==> forall i :: 0 <= i < |clips| ==> clips[i].matrix == m
  {
    if Reissued(clips, m) == clips {
      forall i | 0 <= i < |clips|
        ensures clips[i].matrix == m
      {
        assert Reissued(clips, m)[i] == clips[i];
      }
    }
  }

  /**
   * The clip in effect at save level `level`: the current clip for the
   * current level, otherwise the one the save that left that level recorded.
   */
  ghost function ClipAt(c: CanvasState, level: int): seq<Clip>
    requires 1 <= level <= SaveCount(c)
  {
    if level == SaveCount(c) then c.clip else c.saved[level - 1].clip
  }

  class SkCanvas {
    var matrix: Matrix
    var clip: seq<Clip>
    var saved: seq<Snapshot>
    /** Whether a clip sequence describes an empty region (Skia's region algebra). */
    const clipIsEmpty: seq<Clip> -> bool

    ghost function State(): CanvasState
      reads this
    {
      CanvasState(matrix, clip, saved)
    }

    constructor (initial: Matrix, emptiness: seq<Clip> -> bool)
      ensures State() == CanvasState(initial, [], []) && clipIsEmpty == emptiness
    {
      matrix, clip, saved := initial, [], [];
      clipIsEmpty := emptiness;
    }

    function GetSaveCount(): (n: int)
      reads this
      ensures n == SaveCount(State())
    {
      |saved| + 1
    }

    function GetTotalMatrix(): (m: Matrix)
      reads this
      ensures m == State().matrix
    {
      matrix
    }

    function IsClipEmpty(): bool
      reads this
    {
      clipIsEmpty(clip)
    }

    /** Returns the save count from before the save. */
    method Save() returns (count: int)
      modifies this
      ensures State() == AfterSave(old(State()))
      ensures count == SaveCount(old(State()))
    {
      count := |saved| + 1;
      saved := saved + [Snapshot(matrix, clip)];
    }

    method Restore()
      modifies this
      ensures State() == AfterRestore(old(State()))
    {
      if saved != [] {
        var top := saved[|saved| - 1];
        matrix, clip := top.matrix, top.clip;
        saved := saved[..|saved| - 1];
      }
    }

    method SetMatrix(m: Matrix)
      modifies this
      ensures State() == AfterSetMatrix(old(State()), m)
    {
      matrix := m;
    }

    /**
     * replayClips with a visitor that clips `dst` by the shape and operator
     * of each of this canvas's clip operations in turn; `dst` takes each of
     * them under its own current matrix.
     */
    method ReplayClips(dst: SkCanvas)
      requires dst != this
      modifies dst
      ensures dst.State() == AfterClips(old(dst.State()), clip)
      ensures dst.State() == old(dst.State()).(clip := old(dst.clip) + Reissued(clip, old(dst.matrix)))
    {
      for i := 0 to |clip|
        invariant dst.State() == AfterClips(old(dst.State()), clip[..i])
      {
        var next := clip[i];
        assert clip[..i + 1][..i] == clip[..i];
        match next.shape
        case RectShape(r) => dst.ClipRect(r, next.op);
        case RRectShape(rr) => dst.ClipRRect(rr, next.op);
        case PathShape(p) => dst.ClipPath(p, next.op);
      }
      assert clip[..|clip|] == clip;
      AfterClipsAppendsReissued(old(dst.State()), clip);
    }

    method ClipRect(r: Rect, op: ClipOp)
      modifies this
      ensures State() == AfterClip(old(State()), RectShape(r), op)
    {
      clip := clip + [Clip(RectShape(r), op, matrix)];
    }

    method ClipRRect(rr: RRect, op: ClipOp)
      modifies this
      ensures State() == AfterClip(old(State()), RRectShape(rr), op)
    {
      clip := clip + [Clip(RRectShape(rr), op, matrix)];
    }

    method ClipPath(p: Path, op: ClipOp)
      modifies this
      ensures State() == AfterClip(old(State()), PathShape(p), op)
    {
      clip := clip + [Clip(PathShape(p), op, matrix)];
    }
  }
}
