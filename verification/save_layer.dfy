/**
 * The parts of saveLayer and saveLayerAlpha that are the framework's own:
 * translating the legacy save flags into Skia's layer flags, choosing
 * whether the layer gets a paint carrying an alpha, and what a layer save
 * means for the partial-save emulator.
 */
module SaveLayer {
  import opened Basics
  import SaveFlags
  import Skia
  import PartialSave

  /** Skia's 32-bit SaveLayerFlags. */
  type LayerFlags = bv32

  /**
   * kDontClipToLayer_Legacy_SaveLayerFlag: Skia's private bit 31. SkCanvas.h
   * is not part of this model; only the fact that it is one bit matters.
   */
  const DontClipToLayer: LayerFlags := 0x8000_0000

  /**
   * layerFlags: a layer is unclipped exactly when the ClipToLayer bit is
   * absent; every other framework bit, HasAlphaLayer included, is dropped.
   */
  function ToLayerFlags(flags: SaveFlags.Flags): (r: LayerFlags)
    ensures r & DontClipToLayer != 0 <==> flags & SaveFlags.ClipToLayer == 0
    ensures r & !DontClipToLayer == 0
  {
    var layerFlags: LayerFlags := 0;
    if flags & SaveFlags.ClipToLayer == 0 then layerFlags | DontClipToLayer else layerFlags
  }

  /** Flags that agree on ClipToLayer give the same layer flags. */
  lemma LayerFlagsDependOnlyOnClipToLayer(f: SaveFlags.Flags, g: SaveFlags.Flags)
    requires f & SaveFlags.ClipToLayer == g & SaveFlags.ClipToLayer
    ensures ToLayerFlags(f) == ToLayerFlags(g)
  {
  }

  /**
   * The paint saveLayerAlpha hands to saveLayer: an alpha paint when the
   * alpha, read as unsigned, is below 0xFF, and none otherwise. The single
   * unsigned comparison accepts exactly the alphas 0 to 254; a negative
   * alpha and an opaque one both get no paint.
   */
  function LayerPaintAlpha(alpha: int32): (r: Option<int>)
    ensures r.Some? <==> 0 <= alpha < 0xFF
    ensures r.Some? ==> r.value == alpha as int
  {
    if AsUnsigned(alpha) < 0xFF then Some(alpha as int) else None
  }

  /**
   * A layer save goes straight to the Skia canvas without a partial-save
   * record: for the emulator it is a full save of matrix and clip. The
   * result is the save count from before, as the native saveLayer returns.
   */
  function SaveLayer(e: PartialSave.EmulatorState): (r: (PartialSave.EmulatorState, int))
    ensures r.0.saveStack == e.saveStack && r.0.clipStack == e.clipStack
    ensures Skia.SaveCount(r.0.canvas) == Skia.SaveCount(e.canvas) + 1
    ensures r.1 == Skia.SaveCount(e.canvas)
  {
    (e.(canvas := Skia.AfterSave(e.canvas)), Skia.SaveCount(e.canvas))
  }

  /**
   * Whatever the flags and alpha, a layer save keeps the emulator coherent,
   * acts like a save with both Matrix and Clip set, and the matching restore
   * brings back exactly the state before it.
   */
  lemma SaveLayerRestoreRoundTrip(e: PartialSave.EmulatorState)
    requires PartialSave.Coherent(e)
    ensures SaveLayer(e).0 == PartialSave.Save(e, SaveFlags.MatrixClip)
    ensures PartialSave.Coherent(SaveLayer(e).0)
    ensures PartialSave.CurrentSaveRec(SaveLayer(e).0).None?
    ensures PartialSave.Restore(SaveLayer(e).0) == e
  {
    PartialSave.SaveRestoreRoundTrip(e, SaveFlags.MatrixClip);
  }
}
