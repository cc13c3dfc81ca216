/** Integer 3D vectors and the six quarter-turn rotations Triis applies to a piece's offsets. */
module Vectors {

  /** A cell coordinate or a relative offset. */
  datatype Vec = Vec(x: int, y: int, z: int)

  /** Rotation axis; the source passes the strings "x", "y" and anything else means z. */
  datatype Axis = X | Y | Z

  function Add(a: Vec, b: Vec): Vec {
    Vec(a.x + b.x, a.y + b.y, a.z + b.z)
  }

  function Dot(a: Vec, b: Vec): int {
    a.x * b.x + a.y * b.y + a.z * b.z
  }

  /** Squared length x² + y² + z². */
  function Norm2(v: Vec): int {
    Dot(v, v)
  }

  /** The coordinate along an axis. */
  function Coord(v: Vec, axis: Axis): int {
    match axis
    case X => v.x
    case Y => v.y
    case Z => v.z
  }

  /**
   * A 90° turn of `v` about `axis`: counter-clockwise when `dir > 0`,
   * clockwise otherwise (`dir == 0` included, as in the source).
   */
  function RotateVec(v: Vec, axis: Axis, dir: int): (r: Vec)
    ensures Coord(r, axis) == Coord(v, axis)
    ensures Norm2(r) == Norm2(v)
  {
    match axis
    case X => if dir > 0 then Vec(v.x, -v.z, v.y) else Vec(v.x, v.z, -v.y)
    case Y => if dir > 0 then Vec(v.z, v.y, -v.x) else Vec(-v.z, v.y, v.x)
    case Z => if dir > 0 then Vec(-v.y, v.x, v.z) else Vec(v.y, -v.x, v.z)
  }

  /** Turning one way and then the other about the same axis gives back the vector. */
  lemma RotateInverse(v: Vec, axis: Axis, d1: int, d2: int)
    requires d1 > 0 && d2 <= 0
    ensures RotateVec(RotateVec(v, axis, d1), axis, d2) == v
    ensures RotateVec(RotateVec(v, axis, d2), axis, d1) == v
  {
  }

  /** A rotation keeps dot products: it is an isometry, not just length-preserving. */
  lemma RotatePreservesDot(a: Vec, b: Vec, axis: Axis, dir: int)
    ensures Dot(RotateVec(a, axis, dir), RotateVec(b, axis, dir)) == Dot(a, b)
  {
  }

  /** Four quarter turns in the same direction are the identity. */
  lemma RotateFourTimes(v: Vec, axis: Axis, dir: int)
    ensures RotateVec(RotateVec(RotateVec(RotateVec(v, axis, dir), axis, dir), axis, dir), axis, dir) == v
  {
  }

  /** Two quarter turns negate the two coordinates off the axis. */
  lemma RotateTwice(v: Vec, axis: Axis, dir: int)
    ensures var r := RotateVec(RotateVec(v, axis, dir), axis, dir);
            Coord(r, axis) == Coord(v, axis) && Norm2(r) == Norm2(v) &&
            Add(r, v) == (match axis
                          case X => Vec(2 * v.x, 0, 0)
                          case Y => Vec(0, 2 * v.y, 0)
                          case Z => Vec(0, 0, 2 * v.z))
  {
  }
}
