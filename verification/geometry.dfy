/** Small helpers shared by the other modules. */
module Basics {

  datatype Option<T> = None | Some(value: T)

  function Last<T>(s: seq<T>): T
    requires s != []
  {
    s[|s| - 1]
  }

  /** A C `int`. */
  newtype int32 = x: int | -0x8000_0000 <= x < 0x8000_0000

  /** static_cast<unsigned>: two's-complement reinterpretation of a C `int`. */
  function AsUnsigned(x: int32): (u: nat)
    ensures u < 0x1_0000_0000
    ensures (u - x as int) % 0x1_0000_0000 == 0
    ensures x >= 0 ==> u == x as int
    ensures x < 0 ==> u >= 0x8000_0000
  {
    if x < 0 then x as int + 0x1_0000_0000 else x as int
  }
}

/**
 * The values a canvas clip is made of. Skia's geometry (rectangles, rounded
 * rectangles, paths, clip operators and transform matrices) is kept opaque:
 * the partial-save emulator only stores these values and hands them back.
 */
module Geometry {

  /** An SkMatrix: the canvas's current transform. */
  type Matrix(==)

  /** An SkRect. */
  type Rect(==)

  /** An SkRRect. */
  type RRect(==)

  /** An SkPath. */
  type Path(==)

  /** An SkClipOp (intersect, difference). */
  type ClipOp(==)

  /** The three shapes a clip can be made with. */
  datatype Shape =
    | RectShape(rect: Rect)
    | RRectShape(rrect: RRect)
    | PathShape(path: Path)

  /**
   * One clip operation: the shape, its combine operator, and the transform
   * in effect when it was issued (the shape is in that coordinate space).
   * The emulator logs these to replay them; the canvas model records its
   * clip as the sequence of them it has applied.
   */
  datatype Clip = Clip(shape: Shape, op: ClipOp, matrix: Matrix)

}

/**
 * The legacy save flags of the framework's Canvas (SaveFlags::Flags, a
 * 32-bit mask). A bit that is SET means "this aspect is saved and restored
 * normally"; an absent Matrix or Clip bit asks for that aspect to persist
 * past the matching restore.
 */
module SaveFlags {

  type Flags = bv32

  const Matrix: Flags := 0x01
  const Clip: Flags := 0x02
  const HasAlphaLayer: Flags := 0x04
  const ClipToLayer: Flags := 0x10
  const MatrixClip: Flags := 0x03

  /** A save only needs emulating when it leaves out the Matrix or the Clip bit. */
  predicate IsPartial(flags: Flags) {
    flags & MatrixClip == flags && flags != MatrixClip
  }

  /** The matching restore keeps the matrix current at restore time. */
  predicate PreservesMatrix(flags: Flags) {
    flags & Matrix == 0
  }

  /** The matching restore brings back the clips issued inside the frame. */
  predicate PreservesClip(flags: Flags) {
    flags & Clip == 0
  }
}
