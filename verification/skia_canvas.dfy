/**
 * The framework canvas over a Skia canvas, restricted to its state
 * operations: save and restore with the legacy partial-save flags, clips,
 * and re-pointing at another Skia canvas. Each method changes the fields the
 * way the C++ does, and its postcondition ties the new state to the
 * corresponding function of module PartialSave.
 */
module HwuiCanvas {
  import opened Basics
  import opened Geometry
  import SaveFlags
  import Skia
  import PartialSave

  /** Clip::apply: make the recorded matrix current, then clip with the recorded shape. */
  method ApplyClip(clip: Clip, canvas: Skia.SkCanvas)
    modifies canvas
    ensures canvas.State() == PartialSave.ApplyClip(old(canvas.State()), clip)
  {
    canvas.SetMatrix(clip.matrix);
    match clip.shape
    case RectShape(r) => canvas.ClipRect(r, clip.op);
    case RRectShape(rr) => canvas.ClipRRect(rr, clip.op);
    case PathShape(p) => canvas.ClipPath(p, clip.op);
  }

  class SkiaCanvas {
    var canvas: Skia.SkCanvas
    /** Records of partial saves, the top one last. */
    var saveStack: seq<PartialSave.SaveRec>
    /** Clips to replay after a restore. */
    var clipStack: seq<Clip>
    var highContrastText: bool

    ghost function State(): PartialSave.EmulatorState
      reads this, canvas
    {
      PartialSave.EmulatorState(canvas.State(), saveStack, clipStack)
    }

    ghost predicate Valid()
      reads this, canvas
    {
      PartialSave.Coherent(State())
    }

    constructor (skiaCanvas: Skia.SkCanvas)
      ensures Valid() && canvas == skiaCanvas
      ensures saveStack == [] && clipStack == [] && !highContrastText
    {
      canvas := skiaCanvas;
      saveStack, clipStack := [], [];
      highContrastText := false;
    }

    /**
     * Points the canvas at another Skia canvas and drops the save records.
     * The clip log is left as it is.
     */
    method Reset(skiaCanvas: Skia.SkCanvas)
      modifies this
      ensures Valid() && canvas == skiaCanvas
      ensures saveStack == [] && clipStack == old(clipStack) && !highContrastText
    {
      if canvas != skiaCanvas {
        canvas := skiaCanvas;
      }
      saveStack := [];
      highContrastText := false;
    }

    /**
     * Moves to a new Skia canvas for a new bitmap and drops the save records;
     * the clip log is left as it is. Unless the bitmap is null, the new
     * canvas takes the old one's matrix and then every clip operation of the
     * old one, by shape and operator, under that matrix. `initial` and
     * `emptiness` describe the canvas Skia makes for the bitmap.
     */
    method SetBitmap(bitmapIsNull: bool, initial: Matrix, emptiness: seq<Clip> -> bool)
      modifies this
      ensures Valid() && fresh(canvas) && canvas.clipIsEmpty == emptiness
      ensures canvas.State() ==
                if bitmapIsNull then Skia.CanvasState(initial, [], [])
                else Skia.CanvasState(old(canvas.matrix), Skia.Reissued(old(canvas.clip), old(canvas.matrix)), [])
      ensures saveStack == [] && clipStack == old(clipStack) && highContrastText == old(highContrastText)
    {
      var newCanvas := new Skia.SkCanvas(initial, emptiness);
      if !bitmapIsNull {
        // the new canvas takes the old matrix; the old clip operations are then issued on it
        newCanvas.SetMatrix(canvas.GetTotalMatrix());
        canvas.ReplayClips(newCanvas);
      }
      canvas := newCanvas;
      saveStack := [];
    }

    function GetSaveCount(): (n: int)
      reads this, canvas
      ensures n == Skia.SaveCount(State().canvas)
    {
      canvas.GetSaveCount()
    }

    function CurrentSaveRec(): (r: Option<PartialSave.SaveRec>)
      reads this, canvas
      ensures r == PartialSave.CurrentSaveRec(State())
    {
      var rec := if saveStack == [] then None else Some(saveStack[|saveStack| - 1]);
      var currentSaveCount := canvas.GetSaveCount();
      if rec.Some? && rec.value.saveCount == currentSaveCount then rec else None
    }

    /** Returns what the native save returns: the save count from before the save. */
    method Save(flags: SaveFlags.Flags) returns (count: int)
      requires Valid()
      modifies this, canvas
      ensures Valid() && canvas == old(canvas)
      ensures State() == PartialSave.Save(old(State()), flags)
      ensures count == old(GetSaveCount())
      ensures highContrastText == old(highContrastText)
    {
      ghost var before := State();
      count := canvas.Save();
      RecordPartialSave(flags);
      PartialSave.SaveKeepsCoherence(before, flags);
    }

    method RecordPartialSave(flags: SaveFlags.Flags)
      modifies this`saveStack
      ensures State() == PartialSave.RecordPartialSave(old(State()), flags)
    {
      var f := flags & SaveFlags.MatrixClip;
      if f == SaveFlags.MatrixClip {
        return;
      }
      saveStack := saveStack + [PartialSave.SaveRec(canvas.GetSaveCount(), f, |clipStack|)];
    }

    method RecordClip(shape: Shape, op: ClipOp)
      modifies this`clipStack
      ensures State() == PartialSave.RecordClip(old(State()), shape, op)
    {
      var rec := CurrentSaveRec();
      if rec.Some? && rec.value.saveFlags & SaveFlags.Clip == 0 {
        clipStack := clipStack + [Clip(shape, op, canvas.GetTotalMatrix())];
      }
    }

    /** Replays the log from `clipStartIndex`, restores the matrix, and drops the entries unless still needed. */
    method ApplyPersistentClips(clipStartIndex: nat)
      requires clipStartIndex <= |clipStack|
      modifies this, canvas
      ensures canvas == old(canvas) && highContrastText == old(highContrastText)
      ensures State() == PartialSave.ApplyPersistentClips(old(State()), clipStartIndex)
    {
      var saveMatrix := canvas.GetTotalMatrix();
      var i := clipStartIndex;
      while i < |clipStack|
        invariant clipStartIndex <= i <= |clipStack|
        invariant canvas == old(canvas) && highContrastText == old(highContrastText)
        invariant saveStack == old(saveStack) && clipStack == old(clipStack)
        invariant canvas.State() == PartialSave.Replay(old(canvas.State()), clipStack[clipStartIndex..i])
      {
        PartialSave.ReplayStep(old(canvas.State()), clipStack, clipStartIndex, i);
        ApplyClip(clipStack[i], canvas);
        i := i + 1;
      }
      assert clipStack[clipStartIndex..i] == clipStack[clipStartIndex..];
      canvas.SetMatrix(saveMatrix);
      var rec := CurrentSaveRec();
      if rec.None? || rec.value.saveFlags & SaveFlags.Clip != 0 {
        clipStack := clipStack[..clipStartIndex];
      }
    }

    method Restore()
      requires Valid()
      modifies this, canvas
      ensures Valid() && canvas == old(canvas) && highContrastText == old(highContrastText)
      ensures State() == PartialSave.Restore(old(State()))
    {
      ghost var before := State();
      PartialSave.RestoreKeepsCoherence(before);
      var rec := CurrentSaveRec();
      if rec.None? {
        // No record for this level: only the native restore.
        canvas.Restore();
        return;
      }

      var preserveMatrix := rec.value.saveFlags & SaveFlags.Matrix == 0;
      var preserveClip := rec.value.saveFlags & SaveFlags.Clip == 0;
      var savedMatrix := canvas.GetTotalMatrix();
      var clipIndex := rec.value.clipIndex;

      canvas.Restore();
      saveStack := saveStack[..|saveStack| - 1];

      if preserveMatrix {
        canvas.SetMatrix(savedMatrix);
      }
      assert State() == PartialSave.Popped(before, rec.value);
      if preserveClip {
        ApplyPersistentClips(clipIndex);
      }
    }

    /** Restores until the save count is at most `restoreCount`. */
    method RestoreToCount(restoreCount: int)
      requires Valid() && restoreCount >= 1
      modifies this, canvas
      ensures Valid() && canvas == old(canvas) && highContrastText == old(highContrastText)
      ensures State() == PartialSave.RestoreToCount(old(State()), restoreCount)
    {
      while canvas.GetSaveCount() > restoreCount
        invariant Valid() && canvas == old(canvas) && highContrastText == old(highContrastText)
        invariant PartialSave.RestoreToCount(State(), restoreCount) == PartialSave.RestoreToCount(old(State()), restoreCount)
        decreases canvas.GetSaveCount()
      {
        PartialSave.RestoreOneLevel(State());
        Restore();
      }
    }

    /** Returns whether the clip is non-empty afterwards. */
    method ClipRect(rect: Rect, op: ClipOp) returns (nonEmpty: bool)
      requires Valid()
      modifies this, canvas
      ensures Valid() && canvas == old(canvas) && highContrastText == old(highContrastText)
      ensures State() == PartialSave.ClipShape(old(State()), RectShape(rect), op)
      ensures nonEmpty == !canvas.clipIsEmpty(canvas.clip)
    {
      PartialSave.ClipShapeKeepsCoherence(State(), RectShape(rect), op);
      RecordClip(RectShape(rect), op);
      canvas.ClipRect(rect, op);
      nonEmpty := !canvas.IsClipEmpty();
    }

    /**
     * `asRRect` is what SkPath::isRRect reports for `path`: a path that is a
     * rounded rectangle is clipped, and recorded, as one.
     */
    method ClipPath(path: Path, asRRect: Option<RRect>, op: ClipOp) returns (nonEmpty: bool)
      requires Valid()
      modifies this, canvas
      ensures Valid() && canvas == old(canvas) && highContrastText == old(highContrastText)
      ensures State() == PartialSave.ClipShape(old(State()), if asRRect.Some? then RRectShape(asRRect.value) else PathShape(path), op)
      ensures nonEmpty == !canvas.clipIsEmpty(canvas.clip)
    {
      if asRRect.Some? {
        PartialSave.ClipShapeKeepsCoherence(State(), RRectShape(asRRect.value), op);
        RecordClip(RRectShape(asRRect.value), op);
        canvas.ClipRRect(asRRect.value, op);
      } else {
        PartialSave.ClipShapeKeepsCoherence(State(), PathShape(path), op);
        RecordClip(PathShape(path), op);
        canvas.ClipPath(path, op);
      }
      nonEmpty := !canvas.IsClipEmpty();
    }

    method SetMatrix(m: Matrix)
      requires Valid()
      modifies canvas
      ensures Valid() && State() == PartialSave.SetMatrix(old(State()), m)
    {
      PartialSave.SetMatrixKeepsCoherence(State(), m);
      canvas.SetMatrix(m);
    }
  }
}
