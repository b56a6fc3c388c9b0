/**
 * The partial-save emulator of the framework's Skia-backed canvas, as a
 * state machine over values. Skia's own save/restore always restores the
 * matrix and the clip together; the emulator keeps a stack of records for
 * saves that leave out the Matrix or the Clip flag, and a log of clip
 * operations that must be replayed after the native restore has erased them.
 *
 * The functions here say what each operation of the emulator does; the class
 * HwuiCanvas.SkiaCanvas carries them out step by step.
 */
module PartialSave {
  import opened Basics
  import opened Geometry
  import SaveFlags
  import Skia

  /**
   * A record of one partial save: the save count after the native save, the
   * Matrix/Clip bits of its flags, and the length of the clip log at the time.
   */
  datatype SaveRec = SaveRec(saveCount: int, saveFlags: SaveFlags.Flags, clipIndex: nat)

  datatype EmulatorState = EmulatorState(canvas: Skia.CanvasState, saveStack: seq<SaveRec>, clipStack: seq<Clip>)

  // ---------------------------------------------------------------------------
  // The invariant the emulator keeps
  // ---------------------------------------------------------------------------

  /**
   * Records are partial saves taken at increasing save levels, each above the
   * base level and none above the current one, and their clip-log positions
   * never decrease and stay inside the log.
   */
  ghost predicate RecordsOrdered(ss: seq<SaveRec>, count: int, logLength: nat) {
    && (forall i :: 0 <= i < |ss| ==>
          2 <= ss[i].saveCount <= count && ss[i].clipIndex <= logLength && SaveFlags.IsPartial(ss[i].saveFlags))
    && (forall i, j :: 0 <= i < j < |ss| ==>
          ss[i].saveCount < ss[j].saveCount && ss[i].clipIndex <= ss[j].clipIndex)
  }

  /** Where the clip-log entries of record `i` end: at the next record's start, or at the end of the log. */
  function SegmentEnd(ss: seq<SaveRec>, logLength: nat, i: nat): nat
    requires i < |ss|
  {
    if i + 1 < |ss| then ss[i + 1].clipIndex else logLength
  }

  /** The clip-log entries recorded while record `i` was the current one. */
  ghost function Segment(e: EmulatorState, i: nat): seq<Clip>
    requires RecordsOrdered(e.saveStack, Skia.SaveCount(e.canvas), |e.clipStack|)
    requires i < |e.saveStack|
  {
    e.clipStack[e.saveStack[i].clipIndex..SegmentEnd(e.saveStack, |e.clipStack|, i)]
  }

  /**
   * A clip-persisting record's log entries are exactly the clips added at its
   * level since its save; any other record has no entries of its own.
   */
  ghost predicate SegmentReplays(e: EmulatorState, i: nat)
    requires RecordsOrdered(e.saveStack, Skia.SaveCount(e.canvas), |e.clipStack|)
    requires i < |e.saveStack|
  {
    var rec := e.saveStack[i];
    if SaveFlags.PreservesClip(rec.saveFlags) then
      Skia.ClipAt(e.canvas, rec.saveCount) == Skia.ClipAt(e.canvas, rec.saveCount - 1) + Segment(e, i)
    else
      Segment(e, i) == []
  }

  ghost predicate Coherent(e: EmulatorState) {
    && RecordsOrdered(e.saveStack, Skia.SaveCount(e.canvas), |e.clipStack|)
    && forall i :: 0 <= i < |e.saveStack| ==> SegmentReplays(e, i)
  }

  // ---------------------------------------------------------------------------
  // Operations
  // ---------------------------------------------------------------------------

  /** The record of the current save level, if the current level has one. */
  function CurrentSaveRec(e: EmulatorState): (r: Option<SaveRec>)
    ensures r.Some? ==> r.value in e.saveStack && r.value.saveCount == Skia.SaveCount(e.canvas)
  {
    if e.saveStack != [] && Last(e.saveStack).saveCount == Skia.SaveCount(e.canvas) then Some(Last(e.saveStack))
    else None
  }

  /** Whether clips issued now must survive the restore of the current level. */
  predicate ClipPersists(e: EmulatorState) {
    var rec := CurrentSaveRec(e);
    rec.Some? && SaveFlags.PreservesClip(rec.value.saveFlags)
  }

  /**
   * Pushes a record only for a partial save; the record carries just the
   * Matrix and Clip bits, so every record on the stack is partial.
   */
  function RecordPartialSave(e: EmulatorState, flags: SaveFlags.Flags): (r: EmulatorState)
    ensures !SaveFlags.IsPartial(flags & SaveFlags.MatrixClip) ==> r == e
    ensures SaveFlags.IsPartial(flags & SaveFlags.MatrixClip) ==>
              r == e.(saveStack := e.saveStack + [SaveRec(Skia.SaveCount(e.canvas), flags & SaveFlags.MatrixClip, |e.clipStack|)])
  {
    var f := flags & SaveFlags.MatrixClip;
    if f == SaveFlags.MatrixClip then e
    else e.(saveStack := e.saveStack + [SaveRec(Skia.SaveCount(e.canvas), f, |e.clipStack|)])
  }

  /**
   * A native save, and a record when the save is partial. The record holds
   * the save count after the save, the flags' Matrix/Clip bits and the log length.
   */
  function Save(e: EmulatorState, flags: SaveFlags.Flags): (r: EmulatorState)
    ensures r.canvas == Skia.AfterSave(e.canvas) && r.clipStack == e.clipStack
    ensures Skia.SaveCount(r.canvas) == Skia.SaveCount(e.canvas) + 1
    ensures flags & SaveFlags.MatrixClip == SaveFlags.MatrixClip ==> r.saveStack == e.saveStack
    ensures flags & SaveFlags.MatrixClip != SaveFlags.MatrixClip ==>
              r.saveStack == e.saveStack + [SaveRec(Skia.SaveCount(e.canvas) + 1, flags & SaveFlags.MatrixClip, |e.clipStack|)]
  {
    RecordPartialSave(e.(canvas := Skia.AfterSave(e.canvas)), flags)
  }

  /**
   * Logs a clip operation when the current level has a record that lacks the
   * Clip bit; otherwise leaves the log alone.
   */
  function RecordClip(e: EmulatorState, shape: Shape, op: ClipOp): (r: EmulatorState)
    ensures r.canvas == e.canvas && r.saveStack == e.saveStack
    ensures r.clipStack == if ClipPersists(e) then e.clipStack + [Clip(shape, op, e.canvas.matrix)] else e.clipStack
  {
    match CurrentSaveRec(e)
    case Some(rec) =>
      if SaveFlags.PreservesClip(rec.saveFlags) then e.(clipStack := e.clipStack + [Clip(shape, op, e.canvas.matrix)])
      else e
    case None => e
  }

  /** clipRect and clipPath: record first, then clip the canvas. */
  function ClipShape(e: EmulatorState, shape: Shape, op: ClipOp): (r: EmulatorState)
    ensures r.canvas.clip == e.canvas.clip + [Clip(shape, op, e.canvas.matrix)]
    ensures r.canvas.matrix == e.canvas.matrix && r.canvas.saved == e.canvas.saved
    ensures r.saveStack == e.saveStack
    ensures r.clipStack == RecordClip(e, shape, op).clipStack
  {
    var e1 := RecordClip(e, shape, op);
    e1.(canvas := Skia.AfterClip(e1.canvas, shape, op))
  }

  function SetMatrix(e: EmulatorState, m: Matrix): (r: EmulatorState)
    ensures r.canvas.matrix == m && r.canvas.clip == e.canvas.clip && r.canvas.saved == e.canvas.saved
    ensures r.saveStack == e.saveStack && r.clipStack == e.clipStack
  {
    e.(canvas := Skia.AfterSetMatrix(e.canvas, m))
  }

  /** Clip::apply: set the recorded matrix, then clip with the recorded shape and operator. */
  function ApplyClip(c: Skia.CanvasState, clip: Clip): (r: Skia.CanvasState)
    ensures r.clip == c.clip + [clip]
    ensures r.matrix == clip.matrix && r.saved == c.saved
  {
    Skia.AfterClip(Skia.AfterSetMatrix(c, clip.matrix), clip.shape, clip.op)
  }

  /** Applies `clips` in order. */
  function Replay(c: Skia.CanvasState, clips: seq<Clip>): (r: Skia.CanvasState)
    ensures r.clip == c.clip + clips && r.saved == c.saved
    ensures r.matrix == if clips == [] then c.matrix else Last(clips).matrix
    decreases |clips|
  {
    if clips == [] then c else ApplyClip(Replay(c, clips[..|clips| - 1]), Last(clips))
  }

  /** Replaying one more entry of the log applies that entry to the replay so far. */
  lemma ReplayStep(c: Skia.CanvasState, log: seq<Clip>, from: nat, i: nat)
    requires from <= i < |log|
    ensures Replay(c, log[from..i + 1]) == ApplyClip(Replay(c, log[from..i]), log[i])
  {
    assert log[from..i + 1][..i - from] == log[from..i];
  }

  /**
   * Replays the log from `clipStartIndex` on, then puts the matrix back, and
   * drops the replayed entries unless the level now current also persists clips.
   */
  function ApplyPersistentClips(e: EmulatorState, clipStartIndex: nat): (r: EmulatorState)
    requires clipStartIndex <= |e.clipStack|
    ensures r.canvas.clip == e.canvas.clip + e.clipStack[clipStartIndex..]
    ensures r.canvas.matrix == e.canvas.matrix && r.canvas.saved == e.canvas.saved
    ensures r.saveStack == e.saveStack
    ensures r.clipStack == if ClipPersists(e) then e.clipStack else e.clipStack[..clipStartIndex]
  {
    var saveMatrix := e.canvas.matrix;
    var e1 := e.(canvas := Skia.AfterSetMatrix(Replay(e.canvas, e.clipStack[clipStartIndex..]), saveMatrix));
    var rec := CurrentSaveRec(e1);
    if rec.None? || !SaveFlags.PreservesClip(rec.value.saveFlags) then e1.(clipStack := e.clipStack[..clipStartIndex])
    else e1
  }

  /**
   * Restore: without a record for the current level, just the native restore.
   * With one: the native restore, the record popped, the matrix from before
   * the restore put back if the Matrix bit is absent, and the logged clips
   * replayed if the Clip bit is absent.
   */
  function Restore(e: EmulatorState): (r: EmulatorState)
    requires Coherent(e)
    ensures CurrentSaveRec(e).None? ==> r == e.(canvas := Skia.AfterRestore(e.canvas))
    ensures CurrentSaveRec(e).Some? ==>
              && Skia.SaveCount(r.canvas) == Skia.SaveCount(e.canvas) - 1
              && r.canvas.saved == Skia.AfterRestore(e.canvas).saved
              && r.saveStack == e.saveStack[..|e.saveStack| - 1]
    ensures CurrentSaveRec(e).Some? && SaveFlags.PreservesMatrix(CurrentSaveRec(e).value.saveFlags) ==>
              r.canvas.matrix == e.canvas.matrix
    ensures CurrentSaveRec(e).Some? && !SaveFlags.PreservesMatrix(CurrentSaveRec(e).value.saveFlags) ==>
              r.canvas.matrix == Skia.AfterRestore(e.canvas).matrix
  {
    match CurrentSaveRec(e)
    case None => e.(canvas := Skia.AfterRestore(e.canvas))
    case Some(rec) =>
      assert rec == e.saveStack[|e.saveStack| - 1];
      var e1 := Popped(e, rec);
      if SaveFlags.PreservesClip(rec.saveFlags) then ApplyPersistentClips(e1, rec.clipIndex) else e1
  }

  /** The native restore, the record popped, and the matrix put back if the record lacks the Matrix bit. */
  function Popped(e: EmulatorState, rec: SaveRec): EmulatorState
    requires e.saveStack != []
  {
    var restored := Skia.AfterRestore(e.canvas);
    var c := if SaveFlags.PreservesMatrix(rec.saveFlags) then Skia.AfterSetMatrix(restored, e.canvas.matrix) else restored;
    EmulatorState(c, e.saveStack[..|e.saveStack| - 1], e.clipStack)
  }

  /** Restores one level at a time while the save count exceeds `restoreCount`. */
  function RestoreToCount(e: EmulatorState, restoreCount: int): (r: EmulatorState)
    requires Coherent(e) && restoreCount >= 1
    ensures Coherent(r)
    ensures Skia.SaveCount(r.canvas) == if Skia.SaveCount(e.canvas) > restoreCount then restoreCount else Skia.SaveCount(e.canvas)
    ensures Skia.SaveCount(e.canvas) <= restoreCount ==> r == e
    decreases Skia.SaveCount(e.canvas)
  {
    if Skia.SaveCount(e.canvas) > restoreCount then
      RestoreKeepsCoherence(e);
      RestoreOneLevel(e);
      RestoreToCount(Restore(e), restoreCount)
    else e
  }

  // ---------------------------------------------------------------------------
  // The canvas's clip at lower levels under native operations
  // ---------------------------------------------------------------------------

  lemma ClipAtAfterSave(c: Skia.CanvasState)
    ensures forall l :: 1 <= l <= Skia.SaveCount(c) ==> Skia.ClipAt(Skia.AfterSave(c), l) == Skia.ClipAt(c, l)
    ensures Skia.ClipAt(Skia.AfterSave(c), Skia.SaveCount(c) + 1) == c.clip
  {
  }

  lemma ClipAtAfterRestore(c: Skia.CanvasState)
    requires c.saved != []
    ensures Skia.SaveCount(Skia.AfterRestore(c)) == Skia.SaveCount(c) - 1
    ensures forall l :: 1 <= l < Skia.SaveCount(c) ==> Skia.ClipAt(Skia.AfterRestore(c), l) == Skia.ClipAt(c, l)
  {
  }

  // ---------------------------------------------------------------------------
  // Every operation keeps the invariant
  // ---------------------------------------------------------------------------

  lemma SaveKeepsCoherence(e: EmulatorState, flags: SaveFlags.Flags)
    requires Coherent(e)
    ensures Coherent(Save(e, flags))
  {
    var e1 := e.(canvas := Skia.AfterSave(e.canvas));
    NativeSaveKeepsCoherence(e);
    if SaveFlags.IsPartial(flags & SaveFlags.MatrixClip) {
      PushRecordKeepsCoherence(e1, flags & SaveFlags.MatrixClip);
    }
  }

  /** A native save leaves every record's segment and the clips below the current level alone. */
  lemma NativeSaveKeepsCoherence(e: EmulatorState)
    requires Coherent(e)
    ensures Coherent(e.(canvas := Skia.AfterSave(e.canvas)))
    ensures forall i :: 0 <= i < |e.saveStack| ==> e.saveStack[i].saveCount < Skia.SaveCount(Skia.AfterSave(e.canvas))
    ensures Skia.ClipAt(Skia.AfterSave(e.canvas), Skia.SaveCount(e.canvas) + 1) == Skia.ClipAt(Skia.AfterSave(e.canvas), Skia.SaveCount(e.canvas))
  {
    var e1 := e.(canvas := Skia.AfterSave(e.canvas));
    ClipAtAfterSave(e.canvas);
    forall i | 0 <= i < |e1.saveStack|
      ensures SegmentReplays(e1, i)
    {
      assert SegmentReplays(e, i);
      assert Segment(e1, i) == Segment(e, i);
    }
  }

  /**
   * A partial record pushed right after a native save, at a level above
   * every record and at the end of the log, has an empty segment.
   */
  lemma PushRecordKeepsCoherence(e: EmulatorState, f: SaveFlags.Flags)
    requires Coherent(e) && SaveFlags.IsPartial(f) && Skia.SaveCount(e.canvas) >= 2
    requires forall i :: 0 <= i < |e.saveStack| ==> e.saveStack[i].saveCount < Skia.SaveCount(e.canvas)
    requires Skia.ClipAt(e.canvas, Skia.SaveCount(e.canvas)) == Skia.ClipAt(e.canvas, Skia.SaveCount(e.canvas) - 1)
    ensures Coherent(e.(saveStack := e.saveStack + [SaveRec(Skia.SaveCount(e.canvas), f, |e.clipStack|)]))
  {
    var r := e.(saveStack := e.saveStack + [SaveRec(Skia.SaveCount(e.canvas), f, |e.clipStack|)]);
    var n := |e.saveStack|;
    assert RecordsOrdered(r.saveStack, Skia.SaveCount(r.canvas), |r.clipStack|);
    forall i | 0 <= i < n
      ensures SegmentReplays(r, i)
    {
      assert SegmentReplays(e, i);
      assert Segment(r, i) == Segment(e, i);
      SegmentReplaysTransfer(e, r, i);
    }
    assert Segment(r, n) == [];
  }

  lemma ClipShapeKeepsCoherence(e: EmulatorState, shape: Shape, op: ClipOp)
    requires Coherent(e)
    ensures Coherent(ClipShape(e, shape, op))
  {
    var r := ClipShape(e, shape, op);
    var n := Skia.SaveCount(e.canvas);
    var entry := Clip(shape, op, e.canvas.matrix);
    forall i | 0 <= i < |r.saveStack|
      ensures SegmentReplays(r, i)
    {
      assert SegmentReplays(e, i);
      var rec := e.saveStack[i];
      if ClipPersists(e) && i == |e.saveStack| - 1 {
        assert Segment(r, i) == Segment(e, i) + [entry];
      } else {
        if i + 1 < |e.saveStack| {
          assert Segment(r, i) == Segment(e, i);
        } else if ClipPersists(e) {
        } else {
          assert Segment(r, i) == Segment(e, i);
        }
      }
    }
  }

  lemma SetMatrixKeepsCoherence(e: EmulatorState, m: Matrix)
    requires Coherent(e)
    ensures Coherent(SetMatrix(e, m))
  {
    var r := SetMatrix(e, m);
    forall i | 0 <= i < |r.saveStack|
      ensures SegmentReplays(r, i)
    {
      assert SegmentReplays(e, i);
      assert Segment(r, i) == Segment(e, i);
    }
  }

  /** A restore that finds a record at the current level goes down exactly one level. */
  lemma RestoreOneLevel(e: EmulatorState)
    requires Coherent(e) && Skia.SaveCount(e.canvas) > 1
    ensures Skia.SaveCount(Restore(e).canvas) == Skia.SaveCount(e.canvas) - 1
  {
  }

  lemma RestoreKeepsCoherence(e: EmulatorState)
    requires Coherent(e)
    ensures Coherent(Restore(e))
  {
    if CurrentSaveRec(e).None? {
      RestoreWithoutRecordKeepsCoherence(e);
    } else {
      RestoreWithRecordKeepsCoherence(e);
    }
  }

  lemma RestoreWithoutRecordKeepsCoherence(e: EmulatorState)
    requires Coherent(e) && CurrentSaveRec(e).None?
    ensures Coherent(Restore(e))
  {
    var r := Restore(e);
    if e.canvas.saved != [] {
      ClipAtAfterRestore(e.canvas);
      forall i | 0 <= i < |r.saveStack|
        ensures SegmentReplays(r, i)
      {
        assert SegmentReplays(e, i);
        assert Segment(r, i) == Segment(e, i);
      }
    }
  }

  lemma RestoreWithRecordKeepsCoherence(e: EmulatorState)
    requires Coherent(e) && CurrentSaveRec(e).Some?
    ensures Coherent(Restore(e))
  {
    var rec := CurrentSaveRec(e).value;
    if SaveFlags.PreservesClip(rec.saveFlags) {
      ReplayKeepsCoherence(e);
    } else {
      PoppedKeepsCoherence(e);
    }
  }

  /** A restore of a level whose record has the Clip bit pops the record and replays nothing. */
  lemma PoppedKeepsCoherence(e: EmulatorState)
    requires Coherent(e) && CurrentSaveRec(e).Some? && !ClipPersists(e)
    ensures Coherent(Restore(e))
  {
    var ss := e.saveStack;
    var top := |ss| - 1;
    var rec := Last(ss);
    var e1 := Popped(e, rec);
    assert Restore(e) == e1;
    assert e1.canvas.saved == e.canvas.saved[..|e.canvas.saved| - 1];
    assert RecordsOrdered(e1.saveStack, Skia.SaveCount(e1.canvas), |e1.clipStack|);
    forall i | 0 <= i < top - 1
      ensures SegmentReplays(e1, i)
    {
      assert SegmentReplays(e, i);
      LowerRecordKept(e, e1, i);
    }
    if top > 0 {
      assert SegmentReplays(e, top);
      assert e.clipStack[rec.clipIndex..] == [];
      assert SegmentReplays(e, top - 1);
      assert Segment(e1, top - 1) == Segment(e, top - 1);
    }
  }

  /** The clip-replaying branch of a restore keeps the invariant. */
  lemma ReplayKeepsCoherence(e: EmulatorState)
    requires Coherent(e) && ClipPersists(e)
    ensures Coherent(Restore(e))
  {
    var top := |e.saveStack| - 1;
    var rec := e.saveStack[top];
    var r := ApplyPersistentClips(Popped(e, rec), rec.clipIndex);
    assert Restore(e) == r;
    ReplayKeepsLowerRecords(e);
    if top > 0 {
      ReplayKeepsEnclosingRecord(e);
    }
  }

  lemma ReplayKeepsLowerRecords(e: EmulatorState)
    requires Coherent(e) && ClipPersists(e)
    ensures
      var rec := Last(e.saveStack);
      var r := ApplyPersistentClips(Popped(e, rec), rec.clipIndex);
      && RecordsOrdered(r.saveStack, Skia.SaveCount(r.canvas), |r.clipStack|)
      && forall i :: 0 <= i < |r.saveStack| - 1 ==> SegmentReplays(r, i)
  {
    var rec := Last(e.saveStack);
    var r := ApplyPersistentClips(Popped(e, rec), rec.clipIndex);
    ReplayKeepsRecordsOrdered(e);
    assert r.canvas.saved == e.canvas.saved[..|e.canvas.saved| - 1];
    forall i | 0 <= i < |r.saveStack| - 1
      ensures SegmentReplays(r, i)
    {
      assert SegmentReplays(e, i);
      LowerRecordKept(e, r, i);
    }
  }

  lemma ReplayKeepsRecordsOrdered(e: EmulatorState)
    requires Coherent(e) && ClipPersists(e)
    ensures
      var rec := Last(e.saveStack);
      var r := ApplyPersistentClips(Popped(e, rec), rec.clipIndex);
      && r.canvas.saved == Skia.AfterRestore(e.canvas).saved
      && Skia.SaveCount(r.canvas) == Skia.SaveCount(e.canvas) - 1
      && r.saveStack == e.saveStack[..|e.saveStack| - 1]
      && (r.clipStack == e.clipStack || r.clipStack == e.clipStack[..rec.clipIndex])
      && RecordsOrdered(r.saveStack, Skia.SaveCount(r.canvas), |r.clipStack|)
  {
  }

  /**
   * A record two or more below the popped one is untouched by the pop and
   * the replay: its entries lie below the popped record's, and its levels
   * below the one restored.
   */
  lemma LowerRecordKept(e: EmulatorState, r: EmulatorState, i: nat)
    requires RecordsOrdered(e.saveStack, Skia.SaveCount(e.canvas), |e.clipStack|)
    requires RecordsOrdered(r.saveStack, Skia.SaveCount(r.canvas), |r.clipStack|)
    requires i + 2 < |e.saveStack| && r.saveStack == e.saveStack[..|e.saveStack| - 1]
    requires r.clipStack == e.clipStack || r.clipStack == e.clipStack[..Last(e.saveStack).clipIndex]
    requires e.canvas.saved != [] && r.canvas.saved == e.canvas.saved[..|e.canvas.saved| - 1]
    requires SegmentReplays(e, i)
    ensures SegmentReplays(r, i)
  {
    var ss, cs := e.saveStack, e.clipStack;
    var a, b := ss[i].clipIndex, ss[i + 1].clipIndex;
    assert a <= b <= Last(ss).clipIndex;
    assert r.clipStack[a..b] == cs[a..b];
    assert Segment(r, i) == Segment(e, i);
    var lvl := ss[i].saveCount;
    assert lvl < ss[i + 1].saveCount <= Skia.SaveCount(r.canvas);
    assert Skia.ClipAt(r.canvas, lvl) == Skia.ClipAt(e.canvas, lvl);
    assert Skia.ClipAt(r.canvas, lvl - 1) == Skia.ClipAt(e.canvas, lvl - 1);
    SegmentReplaysTransfer(e, r, i);
  }

  /** Whether a record's entries replay depends only on its entries and the clips of its two levels. */
  lemma SegmentReplaysTransfer(a: EmulatorState, b: EmulatorState, i: nat)
    requires RecordsOrdered(a.saveStack, Skia.SaveCount(a.canvas), |a.clipStack|)
    requires RecordsOrdered(b.saveStack, Skia.SaveCount(b.canvas), |b.clipStack|)
    requires i < |a.saveStack| && i < |b.saveStack| && a.saveStack[i] == b.saveStack[i]
    requires Segment(a, i) == Segment(b, i)
    requires Skia.ClipAt(a.canvas, a.saveStack[i].saveCount) == Skia.ClipAt(b.canvas, a.saveStack[i].saveCount)
    requires Skia.ClipAt(a.canvas, a.saveStack[i].saveCount - 1) == Skia.ClipAt(b.canvas, a.saveStack[i].saveCount - 1)
    requires SegmentReplays(a, i)
    ensures SegmentReplays(b, i)
  {
  }

  /** The record that becomes the top one keeps the replayed entries exactly when it persists clips and is current. */
  lemma ReplayKeepsEnclosingRecord(e: EmulatorState)
    requires Coherent(e) && ClipPersists(e) && |e.saveStack| > 1
    ensures
      var rec := Last(e.saveStack);
      var r := ApplyPersistentClips(Popped(e, rec), rec.clipIndex);
      && |r.saveStack| == |e.saveStack| - 1
      && RecordsOrdered(r.saveStack, Skia.SaveCount(r.canvas), |r.clipStack|)
      && SegmentReplays(r, |r.saveStack| - 1)
  {
    var ss, cs, n := e.saveStack, e.clipStack, Skia.SaveCount(e.canvas);
    var top := |ss| - 1;
    var rec, below := Last(ss), ss[top - 1];
    var e1 := Popped(e, rec);
    var r := ApplyPersistentClips(e1, rec.clipIndex);
    ReplayKeepsRecordsOrdered(e);
    assert SegmentReplays(e, top - 1);
    assert r.canvas.clip == Skia.ClipAt(e.canvas, n - 1) + cs[rec.clipIndex..];
    if ClipPersists(e1) {
      assert Skia.ClipAt(r.canvas, n - 2) == Skia.ClipAt(e.canvas, n - 2);
      EnclosingRecordExtended(e, r);
    } else {
      if below.saveCount < n - 1 {
        assert Skia.ClipAt(r.canvas, below.saveCount) == Skia.ClipAt(e.canvas, below.saveCount);
        assert Skia.ClipAt(r.canvas, below.saveCount - 1) == Skia.ClipAt(e.canvas, below.saveCount - 1);
      }
      EnclosingRecordUnchanged(e, r);
    }
  }

  /**
   * The new top record is current and persists clips: its entries now run to
   * the end of the log, taking in the replayed ones.
   */
  lemma EnclosingRecordExtended(e: EmulatorState, r: EmulatorState)
    requires RecordsOrdered(e.saveStack, Skia.SaveCount(e.canvas), |e.clipStack|) && |e.saveStack| > 1
    requires RecordsOrdered(r.saveStack, Skia.SaveCount(r.canvas), |r.clipStack|)
    requires r.saveStack == e.saveStack[..|e.saveStack| - 1] && r.clipStack == e.clipStack
    requires Skia.SaveCount(r.canvas) == Skia.SaveCount(e.canvas) - 1 == e.saveStack[|e.saveStack| - 2].saveCount
    requires SaveFlags.PreservesClip(e.saveStack[|e.saveStack| - 2].saveFlags)
    requires SegmentReplays(e, |e.saveStack| - 2)
    requires r.canvas.clip == Skia.ClipAt(e.canvas, Skia.SaveCount(e.canvas) - 1) + e.clipStack[Last(e.saveStack).clipIndex..]
    requires Skia.ClipAt(r.canvas, Skia.SaveCount(e.canvas) - 2) == Skia.ClipAt(e.canvas, Skia.SaveCount(e.canvas) - 2)
    ensures SegmentReplays(r, |r.saveStack| - 1)
  {
    var ss, cs, n := e.saveStack, e.clipStack, Skia.SaveCount(e.canvas);
    var top := |ss| - 1;
    var lo, mid, tail := Skia.ClipAt(e.canvas, n - 2), cs[ss[top - 1].clipIndex..ss[top].clipIndex], cs[ss[top].clipIndex..];
    assert Segment(e, top - 1) == mid;
    assert (lo + mid) + tail == lo + (mid + tail);
    assert mid + tail == cs[ss[top - 1].clipIndex..];
    assert Segment(r, top - 1) == mid + tail;
  }

  /**
   * Otherwise the replayed entries are dropped, and the new top record keeps
   * its entries and, unless it is current, the clips of its levels.
   */
  lemma EnclosingRecordUnchanged(e: EmulatorState, r: EmulatorState)
    requires RecordsOrdered(e.saveStack, Skia.SaveCount(e.canvas), |e.clipStack|) && |e.saveStack| > 1
    requires RecordsOrdered(r.saveStack, Skia.SaveCount(r.canvas), |r.clipStack|)
    requires r.saveStack == e.saveStack[..|e.saveStack| - 1]
    requires r.clipStack == e.clipStack[..Last(e.saveStack).clipIndex]
    requires Skia.SaveCount(r.canvas) == Skia.SaveCount(e.canvas) - 1
    requires SegmentReplays(e, |e.saveStack| - 2)
    requires
      var below := e.saveStack[|e.saveStack| - 2];
      if below.saveCount < Skia.SaveCount(r.canvas) then
        && Skia.ClipAt(r.canvas, below.saveCount) == Skia.ClipAt(e.canvas, below.saveCount)
        && Skia.ClipAt(r.canvas, below.saveCount - 1) == Skia.ClipAt(e.canvas, below.saveCount - 1)
      else
        !SaveFlags.PreservesClip(below.saveFlags)
    ensures SegmentReplays(r, |r.saveStack| - 1)
  {
    var top := |e.saveStack| - 1;
    assert r.saveStack[top - 1] == e.saveStack[top - 1];
    assert Segment(r, top - 1) == Segment(e, top - 1);
  }

  // ---------------------------------------------------------------------------
  // What the emulator promises
  // ---------------------------------------------------------------------------

  /**
   * The save count never falls below the top record's level, and no record
   * other than the top one can belong to the current level: looking at the
   * top record alone finds the current level's record whenever there is one.
   */
  lemma CurrentSaveRecIsTheOnlyMatch(e: EmulatorState)
    requires Coherent(e)
    ensures e.saveStack != [] ==> Last(e.saveStack).saveCount <= Skia.SaveCount(e.canvas)
    ensures forall i :: 0 <= i < |e.saveStack| && e.saveStack[i].saveCount == Skia.SaveCount(e.canvas) ==>
              i == |e.saveStack| - 1 && CurrentSaveRec(e) == Some(e.saveStack[i])
    ensures CurrentSaveRec(e).None? ==> forall rec :: rec in e.saveStack ==> rec.saveCount < Skia.SaveCount(e.canvas)
  {
  }

  /**
   * After a restore the clip is the one from before the restore when the
   * level had a record lacking the Clip bit (the clips issued inside the
   * frame are back), and otherwise the one saved by the native save.
   */
  lemma RestoreClip(e: EmulatorState)
    requires Coherent(e) && Skia.SaveCount(e.canvas) > 1
    ensures Restore(e).canvas.clip ==
              if ClipPersists(e) then e.canvas.clip else Skia.ClipAt(e.canvas, Skia.SaveCount(e.canvas) - 1)
  {
    if CurrentSaveRec(e).Some? {
      var top := |e.saveStack| - 1;
      assert SegmentReplays(e, top);
    }
  }

  /** A save followed directly by a restore leaves the emulator as it was, whatever the flags. */
  lemma SaveRestoreRoundTrip(e: EmulatorState, flags: SaveFlags.Flags)
    requires Coherent(e)
    ensures Coherent(Save(e, flags)) && Restore(Save(e, flags)) == e
  {
    SaveKeepsCoherence(e, flags);
    var s := Save(e, flags);
    assert e.clipStack[..|e.clipStack|] == e.clipStack;
    assert e.clipStack[|e.clipStack|..] == [];
    if flags & SaveFlags.MatrixClip == SaveFlags.MatrixClip {
      assert CurrentSaveRec(s).None?;
    }
  }

  /**
   * Two nested saves that keep the clip, a clip inside the inner one, then
   * two restores: the clip survives both restores, and the emulator is back
   * at the outer level with the records it had before.
   */
  lemma NestedPersistentClip(e: EmulatorState, shape: Shape, op: ClipOp)
    requires Coherent(e)
    ensures
      var outer := Save(e, SaveFlags.Matrix);
      var inner := Save(outer, SaveFlags.Matrix);
      var clipped := ClipShape(inner, shape, op);
      var expected := e.canvas.clip + [Clip(shape, op, e.canvas.matrix)];
      && Coherent(clipped)
      && Restore(clipped).canvas.clip == expected
      && Coherent(Restore(clipped))
      && Restore(Restore(clipped)).canvas.clip == expected
      && Restore(Restore(clipped)).saveStack == e.saveStack
      && Skia.SaveCount(Restore(Restore(clipped)).canvas) == Skia.SaveCount(e.canvas)
  {
    var outer := Save(e, SaveFlags.Matrix);
    SaveKeepsCoherence(e, SaveFlags.Matrix);
    var inner := Save(outer, SaveFlags.Matrix);
    SaveKeepsCoherence(outer, SaveFlags.Matrix);
    var clipped := ClipShape(inner, shape, op);
    ClipShapeKeepsCoherence(inner, shape, op);
    assert ClipPersists(clipped);
    RestoreClip(clipped);
    RestoreKeepsCoherence(clipped);
    var once := Restore(clipped);
    assert ClipPersists(once);
    RestoreClip(once);
  }

  /**
   * Inside a save that keeps the clip but not the matrix: a clip, then a new
   * matrix; after the restore the clip stays and the matrix is the one from
   * before the save.
   */
  lemma PersistentClipRevertedMatrix(e: EmulatorState, shape: Shape, op: ClipOp, m: Matrix)
    requires Coherent(e)
    ensures
      var saved := Save(e, SaveFlags.Matrix);
      var clipped := ClipShape(saved, shape, op);
      var moved := SetMatrix(clipped, m);
      && Coherent(moved)
      && Restore(moved).canvas.clip == e.canvas.clip + [Clip(shape, op, e.canvas.matrix)]
      && Restore(moved).canvas.matrix == e.canvas.matrix
  {
    var saved := Save(e, SaveFlags.Matrix);
    SaveKeepsCoherence(e, SaveFlags.Matrix);
    var clipped := ClipShape(saved, shape, op);
    ClipShapeKeepsCoherence(saved, shape, op);
    var moved := SetMatrix(clipped, m);
    SetMatrixKeepsCoherence(clipped, m);
    assert ClipPersists(moved);
    RestoreClip(moved);
  }

  /**
   * At the base level a restore changes nothing, so a loop that restores
   * until the count is at most zero never ends; restoreToCount needs a target of at least one.
   */
  lemma RestoreAtBaseLeavesStateUnchanged(e: EmulatorState)
    requires Coherent(e) && Skia.SaveCount(e.canvas) == 1
    ensures Restore(e) == e
  {
  }
}
