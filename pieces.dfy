/** The falling piece: its two shapes, spawning, rotation, landing and locking into the grid. */
module Pieces {
  import opened Vectors
  import opened Universe

  /** An anchor position, three offsets relative to it, and the type written into the grid (1 or 2). */
  datatype Piece = Piece(pos: Vec, rel: seq<Vec>, kind: int)

  /** One step of gravity. */
  const Down: Vec := Vec(0, -1, 0)

  /** The spawn anchor (2, H-1, 2). */
  function SpawnPos(): Vec {
    Vec(2, H - 1, 2)
  }

  /** The offsets chosen by the random draw `t`: a vertical bar for 0, an L for anything else. */
  function Shape(t: int): seq<Vec> {
    if t == 0 then [Vec(0, 0, 0), Vec(0, -1, 0), Vec(0, -2, 0)]
    else [Vec(0, 0, 0), Vec(0, -1, 0), Vec(1, -1, 0)]
  }

  function KindOf(t: int): int {
    if t == 0 then 1 else 2
  }

  function Spawn(t: int): Piece {
    Piece(SpawnPos(), Shape(t), KindOf(t))
  }

  /** A piece as the engine keeps it: type 1 or 2 and three distinct offsets. */
  predicate PieceOk(p: Piece) {
    (p.kind == 1 || p.kind == 2) && |p.rel| == 3 && Distinct(p.rel)
  }

  /** The absolute cells of a freshly spawned piece: a vertical bar down from (2, H-1, 2), or an L with its foot at (3, H-2, 2). */
  lemma SpawnCells(t: int)
    ensures t == 0 ==> Cells(SpawnPos(), Shape(t)) == {Vec(2, H - 1, 2), Vec(2, H - 2, 2), Vec(2, H - 3, 2)}
    ensures t != 0 ==> Cells(SpawnPos(), Shape(t)) == {Vec(2, H - 1, 2), Vec(2, H - 2, 2), Vec(3, H - 2, 2)}
    ensures Spawn(t).kind == if t == 0 then 1 else 2
  {
    var c := Cells(SpawnPos(), Shape(t));
    assert Add(SpawnPos(), Shape(t)[0]) in c;
    assert Add(SpawnPos(), Shape(t)[1]) in c;
    assert Add(SpawnPos(), Shape(t)[2]) in c;
  }

  /** On an empty grid a freshly spawned piece always fits, so a reset-and-respawn never fails. */
  lemma SpawnFitsEmpty(t: int)
    ensures PieceOk(Spawn(t))
    ensures Fits(EmptyGrid(), SpawnPos(), Shape(t))
  {
    var e := EmptyGrid();
    forall i | 0 <= i < 3
      ensures InBounds(Add(SpawnPos(), Shape(t)[i])) && At(e, Add(SpawnPos(), Shape(t)[i])) == 0
    {
      var c := Add(SpawnPos(), Shape(t)[i]);
      assert e[c.y] == EmptyLayer();
    }
  }

  /** Every offset turned a quarter about `axis`. */
  function RotateAll(rel: seq<Vec>, axis: Axis, dir: int): (r: seq<Vec>)
    ensures |r| == |rel|
    ensures forall i :: 0 <= i < |rel| ==> Norm2(r[i]) == Norm2(rel[i])
  {
    seq(|rel|, i requires 0 <= i < |rel| => RotateVec(rel[i], axis, dir))
  }

  /** Rotating the offsets one way and then back restores them. */
  lemma RotateAllInverse(rel: seq<Vec>, axis: Axis, d1: int, d2: int)
    requires d1 > 0 && d2 <= 0
    ensures RotateAll(RotateAll(rel, axis, d1), axis, d2) == rel
    ensures RotateAll(RotateAll(rel, axis, d2), axis, d1) == rel
  {
    forall i | 0 <= i < |rel|
      ensures RotateAll(RotateAll(rel, axis, d1), axis, d2)[i] == rel[i]
      ensures RotateAll(RotateAll(rel, axis, d2), axis, d1)[i] == rel[i]
    {
      RotateInverse(rel[i], axis, d1, d2);
    }
  }

  /** A quarter turn never sends two different offsets to the same one, so a turned piece keeps its three cells. */
  lemma RotateAllDistinct(rel: seq<Vec>, axis: Axis, dir: int)
    requires Distinct(rel)
    ensures Distinct(RotateAll(rel, axis, dir))
  {
    var r := RotateAll(rel, axis, dir);
    forall i, j | 0 <= i < j < |r|
      ensures r[i] != r[j]
    {
      if dir > 0 {
        RotateInverse(rel[i], axis, dir, 0);
        RotateInverse(rel[j], axis, dir, 0);
      } else {
        RotateInverse(rel[i], axis, 1, dir);
        RotateInverse(rel[j], axis, 1, dir);
      }
    }
  }

  /** The piece moved down one cell. */
  function Lowered(p: Piece): Piece {
    p.(pos := Add(p.pos, Down))
  }

  /**
   * Where a hard drop leaves the piece: it keeps moving down while the
   * position one lower still fits.
   */
  function Landing(g: Grid, p: Piece): (r: Piece)
    requires IsGrid(g) && |p.rel| > 0
    ensures r.rel == p.rel && r.kind == p.kind
    ensures r.pos.x == p.pos.x && r.pos.z == p.pos.z && r.pos.y <= p.pos.y
    ensures !Fits(g, Add(r.pos, Down), r.rel)
    ensures forall k :: r.pos.y <= k < p.pos.y ==> Fits(g, Vec(p.pos.x, k, p.pos.z), p.rel)
    decreases p.pos.y + p.rel[0].y
  {
    if Fits(g, Add(p.pos, Down), p.rel) then
      assert InBounds(Add(Add(p.pos, Down), p.rel[0]));
      Landing(g, Lowered(p))
    else
      p
  }

  /** The grid after the piece is written into it and every full layer cleared. */
  function Lock(g: Grid, p: Piece): (r: Grid)
    requires IsGrid(g)
    ensures IsGrid(r)
  {
    var placed := Place(g, Cells(p.pos, p.rel), p.kind);
    CompactGrid(placed);
    Compact(placed)
  }

  /** The number of layers that locking the piece clears. */
  function LockCleared(g: Grid, p: Piece): nat
    requires IsGrid(g)
  {
    NumFull(Place(g, Cells(p.pos, p.rel), p.kind))
  }

  /**
   * Locking a piece that fits gives a grid with no full layer, cell values
   * kept in {0, 1, 2}, and an occupied-cell count that rises by the piece's
   * three cells and falls by W×D per cleared layer.
   */
  lemma LockEffect(g: Grid, p: Piece)
    requires IsGrid(g) && CellValuesOk(g) && PieceOk(p) && Fits(g, p.pos, p.rel)
    ensures IsGrid(Lock(g, p)) && CellValuesOk(Lock(g, p))
    ensures forall j :: 0 <= j < H ==> !LayerFull(Lock(g, p)[j])
    ensures Count(Lock(g, p)) == Count(g) + 3 - W * D * LockCleared(g, p)
    ensures LockCleared(g, p) == 0 ==> Lock(g, p) == Place(g, Cells(p.pos, p.rel), p.kind)
  {
    var placed := Place(g, Cells(p.pos, p.rel), p.kind);
    PlaceFitsCount(g, p.pos, p.rel, p.kind);
    PlaceValues(g, Cells(p.pos, p.rel), p.kind);
    CompactGrid(placed);
  }
}
