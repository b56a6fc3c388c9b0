# Partial saves on a Skia canvas, and the bitmap-mesh index buffer

The framework's `SkiaCanvas` (`libs/hwui/SkiaCanvas.cpp`) draws through a
Skia `SkCanvas`. A native Skia `save` always brings back the matrix and the
clip together at the matching `restore`. The framework's legacy save flags
can ask for less: a save without the `Matrix` bit keeps the matrix set inside
the frame, and a save without the `Clip` bit keeps the clips issued inside
the frame. `SkiaCanvas` emulates these partial saves on top of Skia. It keeps
two structures for this:

- a stack of `SaveRec` records (save count, Matrix/Clip bits, clip-log
  position), pushed only for partial saves;
- a log of `Clip` entries (shape, operator, matrix). These are the clips
  issued while the current level's record lacks the `Clip` bit. They are
  replayed after the native restore has erased them.

The model is organised as follows:

- `geometry.dfy` holds the opaque geometry (matrices, rectangles, rounded
  rectangles, paths, clip operators), the three kinds of clip shape, the
  flag bits, and the C `int` with its unsigned reading.
- `skia.dfy` models the native canvas as the class `Skia.SkCanvas`. It has a
  matrix, a clip kept as the sequence of clip operations applied at the
  current level, and a stack of (matrix, clip) snapshots. The save count is
  one more than the number of snapshots.
- `partial_save.dfy` states every operation of the emulator as a function on
  values (`PartialSave`). It also states the invariant `Coherent` that the
  operations keep, and proves what the emulator promises.
- `skia_canvas.dfy` is the class `HwuiCanvas.SkiaCanvas`. Its fields are the
  ones the C++ updates. Each method performs the C++ steps and is proved to
  produce exactly the state the matching `PartialSave` function describes.
- `save_layer.dfy` models the framework's own part of `saveLayer` and
  `saveLayerAlpha`. This is the translation of the legacy flags into Skia's
  layer flags, and the alpha test.
- `bitmap_mesh.dfy` models the index loops of `drawBitmapMesh`. They fill a
  16-bit buffer with two triangles per cell of a
  `(meshWidth + 1) x (meshHeight + 1)` grid of points. The loops are proved
  to write exactly the mesh's indices, all of them in range.

`Coherent` says:

- records sit at strictly increasing save levels, each at least 2 and at most
  the current count;
- each record is partial;
- their log positions never decrease and stay inside the log;
- a record lacking the `Clip` bit owns the log entries from its position up to
  the next record's position (or the end of the log), and these are exactly
  the clips added at its level since its save;
- any other record owns no entries.

This is what makes the replay in `restore` correct.

## Model

| member | source | states |
|---|---|---|
| PartialSave.CurrentSaveRec | libs/hwui/SkiaCanvas.cpp:256-264 | a returned record is on the stack and belongs to the current save count |
| PartialSave.CurrentSaveRecIsTheOnlyMatch | libs/hwui/SkiaCanvas.cpp:256-264 | under the invariant, the top record's level is at most the current count (the assertion at line 261); a record at the current level can only be the top one, and `CurrentSaveRec` then returns it; with no current record, every record is below the current level |
| PartialSave.RecordPartialSave | libs/hwui/SkiaCanvas.cpp:270-290 | a full save (both bits set after masking) changes nothing; otherwise exactly one record is pushed, holding the count, the masked flags and the log length |
| PartialSave.Save | libs/hwui/SkiaCanvas.cpp:137-141 | one native save; the log is unchanged; the record stack is unchanged for a full save, otherwise grows by the record holding the post-save count, the masked flags and the log length |
| PartialSave.SaveKeepsCoherence | libs/hwui/SkiaCanvas.cpp:137-141 | a save keeps the invariant, whatever the flags |
| PartialSave.RecordClip | libs/hwui/SkiaCanvas.cpp:292-300 | the log grows by exactly one entry (shape, operator, current matrix) when the current level has a record lacking the Clip bit; otherwise nothing changes |
| PartialSave.ClipShape | libs/hwui/SkiaCanvas.cpp:397-414 | the clip is recorded first and then applied to the canvas under the current matrix; matrix, snapshots and records are unchanged |
| PartialSave.ClipShapeKeepsCoherence | libs/hwui/SkiaCanvas.cpp:397-414 | clipping keeps the invariant: a logged clip extends the top record's entries in step with the canvas clip |
| PartialSave.SetMatrix | libs/hwui/SkiaCanvas.cpp:334-336 | only the canvas matrix changes |
| PartialSave.SetMatrixKeepsCoherence | libs/hwui/SkiaCanvas.cpp:334-336 | setting the matrix keeps the invariant |
| PartialSave.ApplyClip | libs/hwui/SkiaCanvas.cpp:225-238 | the canvas ends under the entry's own matrix with the entry appended to its clip |
| PartialSave.Replay | libs/hwui/SkiaCanvas.cpp:311-313 | replaying entries in order appends them to the clip, leaves the snapshots alone and leaves the last entry's matrix current |
| PartialSave.ReplayStep | libs/hwui/SkiaCanvas.cpp:311-313 | replaying one more log entry applies that entry to the replay so far |
| PartialSave.ApplyPersistentClips | libs/hwui/SkiaCanvas.cpp:302-324 | the clip gains the log entries from the start index on, in order; the matrix is the one from before; the log is cut back to the start index exactly when the level now current has no record, or has one with the Clip bit |
| PartialSave.Restore | libs/hwui/SkiaCanvas.cpp:147-175 | without a current record: exactly one native restore, nothing else changes; with one: one level down, exactly one record popped, and the matrix from before the call kept when the record lacks the Matrix bit (else the one the native restore brings back) |
| PartialSave.RestoreKeepsCoherence | libs/hwui/SkiaCanvas.cpp:147-175 | a restore keeps the invariant, on each of its paths |
| PartialSave.RestoreClip | libs/hwui/SkiaCanvas.cpp:143-175 | after a restore above the base level, the clip is the one from just before the restore when the level's record lacks the Clip bit (the frame's clips are present again); otherwise it is the clip saved by the native save |
| PartialSave.SaveRestoreRoundTrip | libs/hwui/SkiaCanvas.cpp:137-175 | a save directly followed by a restore gives back the original emulator state exactly, for every flag value |
| PartialSave.NestedPersistentClip | libs/hwui/SkiaCanvas.cpp:317-323 | two nested saves without the Clip bit, a clip in the inner one, then two restores: the clip is still there after each restore, and the original records and save count are back |
| PartialSave.PersistentClipRevertedMatrix | libs/hwui/SkiaCanvas.cpp:155-174 | in a save that lacks only the Clip bit, a clip and then a new matrix: after the restore the clip stays and the matrix is the one from before the save |
| PartialSave.RestoreOneLevel | libs/hwui/SkiaCanvas.cpp:177-181 | above the base level every restore lowers the save count by exactly one |
| PartialSave.RestoreAtBaseLeavesStateUnchanged | libs/hwui/SkiaCanvas.cpp:177-181 | at the base level a restore changes nothing, so the loop of restoreToCount only ends for a target of at least one |
| PartialSave.RestoreToCount | libs/hwui/SkiaCanvas.cpp:177-181 | the result keeps the invariant; the save count ends at the target when it was above it; a target at or above the current count changes nothing |
| HwuiCanvas.ApplyClip | libs/hwui/SkiaCanvas.cpp:225-238 | sets the entry's matrix, then clips by the entry's shape kind (rectangle, rounded rectangle, path) with its operator |
| HwuiCanvas.SkiaCanvas.constructor | libs/hwui/SkiaCanvas.cpp:53-54 | wraps the given canvas with no records and an empty log |
| HwuiCanvas.SkiaCanvas.Reset | libs/hwui/SkiaCanvas.cpp:63-70 | points at the given canvas, drops the records, clears high-contrast text, keeps the log, and leaves the invariant holding |
| HwuiCanvas.SkiaCanvas.SetBitmap | libs/hwui/SkiaCanvas.cpp:94-111 | moves to a fresh canvas; unless the bitmap is null, that canvas takes the old matrix and then every old clip operation, by shape and operator, re-issued under that matrix (`Skia.Reissued`); the records are dropped and the log is kept |
| Skia.SkCanvas.ReplayClips | libs/hwui/SkiaCanvas.cpp:76-92 | the copier forwards each clip operation's shape and operator to the destination's clipRect, clipRRect or clipPath in order (`Skia.AfterClips`); the destination's matrix and snapshots are unchanged and its clip gains the operations re-issued under its own matrix |
| Skia.AfterClipsAppendsReissued | libs/hwui/SkiaCanvas.cpp:76-92 | clipping a canvas by a sequence of operations one at a time appends exactly those operations, each taken under the canvas's current matrix, and changes nothing else |
| Skia.Reissued | libs/hwui/SkiaCanvas.cpp:98-103 | the re-issued operations keep their number, order, shapes and operators, and all carry the destination's matrix |
| Skia.ReissuedIsIdentity | libs/hwui/SkiaCanvas.cpp:98-103 | the copy reproduces the old clip operations exactly when every one of them was taken under the matrix copied over |
| HwuiCanvas.SkiaCanvas.GetSaveCount | libs/hwui/SkiaCanvas.cpp:133-135 | the native save count |
| HwuiCanvas.SkiaCanvas.CurrentSaveRec | libs/hwui/SkiaCanvas.cpp:256-264 | agrees with `PartialSave.CurrentSaveRec` on the object's state |
| HwuiCanvas.SkiaCanvas.Save | libs/hwui/SkiaCanvas.cpp:137-141 | returns what the native save returns (the count before the save); the new state is `PartialSave.Save` of the old one, the high-contrast-text setting is unchanged, and the invariant holds |
| HwuiCanvas.SkiaCanvas.RecordPartialSave | libs/hwui/SkiaCanvas.cpp:270-290 | changes only the record stack, as `PartialSave.RecordPartialSave` says |
| HwuiCanvas.SkiaCanvas.RecordClip | libs/hwui/SkiaCanvas.cpp:292-300 | changes only the log, as `PartialSave.RecordClip` says |
| HwuiCanvas.SkiaCanvas.ApplyPersistentClips | libs/hwui/SkiaCanvas.cpp:302-324 | the replay loop applies the log entries one by one; the resulting state is `PartialSave.ApplyPersistentClips` of the old one |
| HwuiCanvas.SkiaCanvas.Restore | libs/hwui/SkiaCanvas.cpp:147-175 | the new state is `PartialSave.Restore` of the old one, and the invariant holds |
| HwuiCanvas.SkiaCanvas.RestoreToCount | libs/hwui/SkiaCanvas.cpp:177-181 | the loop of restores ends in `PartialSave.RestoreToCount` of the old state |
| HwuiCanvas.SkiaCanvas.ClipRect | libs/hwui/SkiaCanvas.cpp:397-402 | records, then clips; the new state is `PartialSave.ClipShape` of the old one; returns whether the clip is non-empty |
| HwuiCanvas.SkiaCanvas.ClipPath | libs/hwui/SkiaCanvas.cpp:404-414 | a path that is a rounded rectangle is recorded and clipped as one, any other path as a path; returns whether the clip is non-empty |
| HwuiCanvas.SkiaCanvas.SetMatrix | libs/hwui/SkiaCanvas.cpp:334-336 | only the canvas matrix changes, and the invariant holds |
| SaveLayer.ToLayerFlags | libs/hwui/SkiaCanvas.cpp:183-196 | the don't-clip-to-layer bit is set exactly when ClipToLayer is absent, and no other bit is ever set (HasAlphaLayer is ignored) |
| SaveLayer.LayerFlagsDependOnlyOnClipToLayer | libs/hwui/SkiaCanvas.cpp:183-196 | flags that agree on ClipToLayer give the same layer flags |
| Basics.AsUnsigned | libs/hwui/SkiaCanvas.cpp:208 | the unsigned reading of an `int` is below 2^32 and congruent to it; non-negative values are unchanged, and negative ones land at 2^31 or above |
| SaveLayer.LayerPaintAlpha | libs/hwui/SkiaCanvas.cpp:206-214 | an alpha paint is made exactly for alphas 0 to 254, carrying that alpha; negative and opaque alphas get none |
| SaveLayer.SaveLayer | libs/hwui/SkiaCanvas.cpp:198-204 | one native save with no record; returns the count from before |
| SaveLayer.SaveLayerRestoreRoundTrip | libs/hwui/SkiaCanvas.cpp:198-204 | a layer save acts like a save with both bits, keeps the invariant, leaves no current record, and the next restore gives back the state before it |
| BitmapMesh.ClosedForms | libs/hwui/SkiaCanvas.cpp:617-621 | after `r` rows the running index is r * (w + 1) (each row skips its last point) and r * w cells are done |
| BitmapMesh.CountsAreProducts | libs/hwui/SkiaCanvas.cpp:563-564 | six indices per cell make meshWidth * meshHeight * 6; the points of all rows make (meshWidth + 1) * (meshHeight + 1) |
| BitmapMesh.MeshIndicesLength | libs/hwui/SkiaCanvas.cpp:564 | the mesh has exactly indexCount indices |
| BitmapMesh.MeshIndicesInRange | libs/hwui/SkiaCanvas.cpp:626-633 | every index of the mesh is below ptCount |
| BitmapMesh.MeshIndicesCell | libs/hwui/SkiaCanvas.cpp:607-619 | the cell in row r and column c takes the six positions from 6 * (r * w + c) on, and holds k, k+w+1, k+w+2, k, k+w+2, k+1 with k = r * (w + 1) + c |
| BitmapMesh.WriteCell | libs/hwui/SkiaCanvas.cpp:609-616 | the six stores of a cell extend the buffer's agreement with the expected indices by that cell |
| BitmapMesh.FillRow | libs/hwui/SkiaCanvas.cpp:608-619 | the inner loop writes exactly the row's cells after the earlier rows and advances the running index by meshWidth |
| BitmapMesh.FillMeshIndices | libs/hwui/SkiaCanvas.cpp:603-624 | the nested loops leave the buffer holding exactly the mesh's indices, indexCount of them, each below ptCount, so none wraps in 16 bits |
| BitmapMesh.IndicesInRange | libs/hwui/SkiaCanvas.cpp:626-633 | the debug check compares as unsigned: it passes exactly when every stored index is below ptCount read as unsigned, so always when ptCount is negative |

## Left out

- Drawing calls, matrix concatenation, rotation, scaling, skew and translation
  only forward to Skia, so they are not modelled. The one exception is
  `setMatrix`, which the emulator's replay depends on.
- Geometry is opaque: matrices, rectangles, rounded rectangles, paths and clip
  operators have no arithmetic. Clip bounds, quick rejection and the mesh's
  floating-point texture coordinates are not modelled.
- A Rect clip entry is stored as a rounded rectangle made from the rectangle
  and replayed as that rounded rectangle's bounds. The model keeps the
  rectangle as it is; Skia's normalisation of the rectangle is not modelled.
- Skia's region algebra is not modelled. Whether a clip is empty is a fixed
  function of the clip-operation sequence, chosen when the Skia canvas is
  made.
- `SkPath::isRRect` is Skia code. Its answer is the `asRRect` parameter of
  `HwuiCanvas.SkiaCanvas.ClipPath`.
- `replayClips` with the clip copier is modelled by `Skia.SkCanvas.ReplayClips`
  on the clip-operation sequence. Skia's replay works in device space; that
  is not modelled.
- HwuiCanvas.SkiaCanvas.SetBitmap: the copied clip is stated as the old
  operations re-issued under the copied matrix, not as a copy of the old
  clip region. Skia hands the visitor device-space geometry; that
  conversion, and the region it gives, are not modelled.
- The bitmap behind `setBitmap` is reduced to whether it is null, the new
  canvas's starting matrix and its emptiness function. Ownership of the
  canvas (`mCanvasOwned`) is left out.
- For `saveLayer`, only the emulator's view is modelled: a full save with no
  record, plus the layer flags and the alpha decision. Bounds, paint and
  compositing are Skia's.
- HwuiCanvas.SkiaCanvas.RestoreToCount: requires a target of at least one. At
  the base level Skia's restore does nothing, so a smaller target would loop
  forever (`PartialSave.RestoreAtBaseLeavesStateUnchanged`).
- PartialSave.RestoreToCount: has the same precondition, for the same reason.
- `reset` and `setBitmap` drop the record stack but keep the clip log, as the
  code does.
- BitmapMesh.FillMeshIndices: meshWidth and meshHeight are natural numbers.
  The requirement that ptCount be at most 65536 is a precondition, because
  the 16-bit stores would otherwise wrap.
- `SkVertices::Builder`, copying vertex positions and colours, building the
  shader, and the final draw are Skia code.
