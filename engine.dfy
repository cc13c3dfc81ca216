/**
 * The game state of triis.js: the occupancy array `universe`, the current
 * piece and the score, with the operations the game loop and the keyboard
 * handlers call. Each method is proved against the value-level functions
 * of the Universe and Pieces modules through the ghost field `board`,
 * which always holds the array's contents as a grid value.
 */
module Engine {
  import opened Vectors
  import opened Universe
  import opened Pieces

  class Game {
    /** universe[x, y, z]: 0 for empty, else the type of the piece that settled there. */
    var universe: array3<int>
    var piece: Piece
    var score: int
    /** The contents of `universe` as a grid value, layer by layer: board[y][x][z] == universe[x, y, z]. */
    ghost var board: Grid

    ghost predicate Shaped()
      reads this`universe
    {
      universe.Length0 == W && universe.Length1 == H && universe.Length2 == D
    }

    /** `board` describes the array exactly. */
    ghost predicate Mirrors()
      reads this`universe, this`board, universe
    {
      Shaped() && IsGrid(board) &&
      forall x, y, z :: 0 <= x < W && 0 <= y < H && 0 <= z < D ==> board[y][x][z] == universe[x, y, z]
    }

    /** The engine's invariant between operations: the grid has its fixed size and holds only 0, 1 and 2. */
    ghost predicate Valid()
      reads this, universe
    {
      Mirrors() && CellValuesOk(board) && PieceOk(piece)
    }

    /** Valid, and the active piece occupies only in-bounds, empty cells. */
    ghost predicate Playing()
      reads this, universe
    {
      Valid() && Fits(board, piece.pos, piece.rel)
    }

    /** The state newTetrisPiece leaves behind when it starts from grid `g` and score `s`. */
    ghost predicate SpawnedFrom(g: Grid, s: int, t: int, next: int)
      reads this, universe
      requires IsGrid(g)
    {
      Valid() &&
      if Fits(g, SpawnPos(), Shape(t)) then
        board == g && score == s && piece == Spawn(t)
      else
        board == EmptyGrid() && score == 0 && piece == Spawn(next)
    }

    /**
     * Game start: an empty grid, score 0, and a first piece drawn with `t`
     * (`next` is the draw a respawn would use; on the empty grid it is never needed).
     */
    constructor (t: int, next: int)
      ensures Playing()
      ensures board == EmptyGrid() && score == 0 && piece == Spawn(t)
    {
      universe := new int[W, H, D];
      score := 0;
      board := EmptyGrid();
      new;
      InitUniverse();
      SpawnFitsEmpty(t);
      NewTetrisPiece(t, next);
    }

    /** initUniverse: a fresh W×H×D grid with every cell empty. */
    method InitUniverse()
      modifies this`universe, this`board
      ensures fresh(universe) && Mirrors()
      ensures board == EmptyGrid()
    {
      var a := new int[W, H, D];
      for x := 0 to W
        invariant forall i, j, k :: 0 <= i < x && 0 <= j < H && 0 <= k < D ==> a[i, j, k] == 0
      {
        for y := 0 to H
          invariant forall i, j, k :: 0 <= i < x && 0 <= j < H && 0 <= k < D ==> a[i, j, k] == 0
          invariant forall j, k :: 0 <= j < y && 0 <= k < D ==> a[x, j, k] == 0
        {
          for z := 0 to D
            invariant forall i, j, k :: 0 <= i < x && 0 <= j < H && 0 <= k < D ==> a[i, j, k] == 0
            invariant forall j, k :: 0 <= j < y && 0 <= k < D ==> a[x, j, k] == 0
            invariant forall k :: 0 <= k < z ==> a[x, y, k] == 0
          {
            a[x, y, z] := 0;
          }
        }
      }
      universe := a;
      board := EmptyGrid();
    }

    /** validPosition: whether every cell pos + rel[i] is inside the grid and empty. Reads only. */
    method ValidPosition(pos: Vec, rel: seq<Vec>) returns (ok: bool)
      requires Mirrors()
      ensures ok == Fits(board, pos, rel)
    {
      var i := 0;
      while i < |rel|
        invariant 0 <= i <= |rel|
        invariant forall j :: 0 <= j < i ==> InBounds(Add(pos, rel[j])) && At(board, Add(pos, rel[j])) == 0
      {
        var w := Add(pos, rel[i]);
        if w.x < 0 || w.x >= W || w.y < 0 || w.y >= H || w.z < 0 || w.z >= D {
          return false;
        }
        if universe[w.x, w.y, w.z] != 0 {
          return false;
        }
        i := i + 1;
      }
      return true;
    }

    /** tryMove: translate the piece by (dx, dy, dz) if the result fits; otherwise change nothing. */
    method TryMove(dx: int, dy: int, dz: int) returns (ok: bool)
      requires Valid()
      modifies this`piece
      ensures Valid()
      ensures ok == Fits(board, Add(old(piece).pos, Vec(dx, dy, dz)), old(piece).rel)
      ensures piece == if ok then old(piece).(pos := Add(old(piece).pos, Vec(dx, dy, dz))) else old(piece)
      ensures old(Playing()) ==> Playing()
    {
      var newPos := Add(piece.pos, Vec(dx, dy, dz));
      ok := ValidPosition(newPos, piece.rel);
      if ok {
        piece := piece.(pos := newPos);
      }
    }

    /** The write loop of placeTetrisPiece: each in-range cell pos + rel[i] takes the piece's type. */
    method WriteCells()
      requires Shaped()
      modifies universe
      ensures forall x, y, z :: 0 <= x < W && 0 <= y < H && 0 <= z < D ==>
        universe[x, y, z] == if Vec(x, y, z) in Cells(piece.pos, piece.rel) then piece.kind else old(universe[x, y, z])
    {
      ghost var done: set<Vec> := {};
      var i := 0;
      assert piece.rel[..0] == [];
      while i < |piece.rel|
        invariant 0 <= i <= |piece.rel|
        invariant done == Cells(piece.pos, piece.rel[..i])
        invariant forall x, y, z :: 0 <= x < W && 0 <= y < H && 0 <= z < D ==>
          universe[x, y, z] == if Vec(x, y, z) in done then piece.kind else old(universe[x, y, z])
      {
        CellsSnoc(piece.pos, piece.rel, i);
        var w := Add(piece.pos, piece.rel[i]);
        if 0 <= w.x < W && 0 <= w.y < H && 0 <= w.z < D {
          universe[w.x, w.y, w.z] := piece.kind;
        }
        done := done + {w};
        i := i + 1;
      }
      assert piece.rel[..i] == piece.rel;
    }

    /** placeTetrisPiece: write the piece's type into each of its cells that lies inside the grid. */
    method PlaceTetrisPiece()
      requires Valid()
      modifies universe, this`board
      ensures Valid()
      ensures board == Place(old(board), Cells(piece.pos, piece.rel), piece.kind)
      ensures old(Playing()) ==> Count(board) == Count(old(board)) + 3
    {
      ghost var g0 := board;
      ghost var cells := Cells(piece.pos, piece.rel);
      WriteCells();
      board := Place(g0, cells, piece.kind);
      PlaceAt(g0, cells, piece.kind);
      PlaceValues(g0, cells, piece.kind);
      if Fits(g0, piece.pos, piece.rel) {
        PlaceFitsCount(g0, piece.pos, piece.rel, piece.kind);
      }
    }

    /** The fullness scan of clearFullLayers for layer y. Reads only. */
    method IsLayerFull(y: int) returns (full: bool)
      requires Mirrors() && 0 <= y < H
      ensures full == LayerFull(board[y])
    {
      full := true;
      var x := 0;
      while x < W && full
        invariant 0 <= x <= W
        invariant full ==> forall i, k :: 0 <= i < x && 0 <= k < D ==> universe[i, y, k] != 0
        invariant !full ==> !LayerFull(board[y])
      {
        var z := 0;
        while z < D
          invariant 0 <= z <= D
          invariant full
          invariant forall k :: 0 <= k < z ==> universe[x, y, k] != 0
        {
          if universe[x, y, z] == 0 {
            assert board[y][x][z] == 0;
            full := false;
            break;
          }
          z := z + 1;
        }
        x := x + 1;
      }
    }

    /** One pass of the collapse loop of clearFullLayers: layer yy takes the contents of layer yy + 1. */
    method ShiftLayerDown(yy: int)
      requires Shaped() && 0 <= yy < H - 1
      modifies universe
      ensures forall i, j, k :: 0 <= i < W && 0 <= j < H && 0 <= k < D ==>
        universe[i, j, k] == if j == yy then old(universe[i, yy + 1, k]) else old(universe[i, j, k])
    {
      var x2 := 0;
      while x2 < W
        invariant 0 <= x2 <= W
        invariant forall i, j, k :: 0 <= i < W && 0 <= j < H && 0 <= k < D ==>
          universe[i, j, k] == if j == yy && i < x2 then old(universe[i, yy + 1, k]) else old(universe[i, j, k])
      {
        var z2 := 0;
        while z2 < D
          invariant 0 <= z2 <= D
          invariant forall i, j, k :: 0 <= i < W && 0 <= j < H && 0 <= k < D ==>
            universe[i, j, k] ==
              if j == yy && (i < x2 || (i == x2 && k < z2)) then old(universe[i, yy + 1, k])
              else old(universe[i, j, k])
        {
          universe[x2, yy, z2] := universe[x2, yy + 1, z2];
          z2 := z2 + 1;
        }
        x2 := x2 + 1;
      }
    }

    /** The last step of a collapse in clearFullLayers: the top layer becomes empty. */
    method EmptyTopLayer()
      requires Shaped()
      modifies universe
      ensures forall i, j, k :: 0 <= i < W && 0 <= j < H && 0 <= k < D ==>
        universe[i, j, k] == if j == H - 1 then 0 else old(universe[i, j, k])
    {
      var x3 := 0;
      while x3 < W
        invariant 0 <= x3 <= W
        invariant forall i, j, k :: 0 <= i < W && 0 <= j < H && 0 <= k < D ==>
          universe[i, j, k] == if j == H - 1 && i < x3 then 0 else old(universe[i, j, k])
      {
        var z3 := 0;
        while z3 < D
          invariant 0 <= z3 <= D
          invariant forall i, j, k :: 0 <= i < W && 0 <= j < H && 0 <= k < D ==>
            universe[i, j, k] == if j == H - 1 && (i < x3 || (i == x3 && k < z3)) then 0 else old(universe[i, j, k])
        {
          universe[x3, H - 1, z3] := 0;
          z3 := z3 + 1;
        }
        x3 := x3 + 1;
      }
    }

    /** The collapse step of clearFullLayers: layers above y move down one, the top layer empties. */
    method CollapseLayer(y: int)
      requires Valid() && 0 <= y < H
      modifies universe, this`board
      ensures Valid()
      ensures board == Collapse(old(board), y)
    {
      ghost var g0 := board;
      var yy := y;
      while yy < H - 1
        invariant y <= yy <= H - 1
        invariant forall i, j, k :: 0 <= i < W && 0 <= j < H && 0 <= k < D ==>
          universe[i, j, k] == if y <= j < yy then g0[j + 1][i][k] else g0[j][i][k]
      {
        ShiftLayerDown(yy);
        yy := yy + 1;
      }
      EmptyTopLayer();
      board := Collapse(g0, y);
      forall j | 0 <= j < H
        ensures board[j] == if j < y then g0[j] else if j < H - 1 then g0[j + 1] else EmptyLayer()
      {
      }
    }

    /**
     * clearFullLayers: remove every full layer, rescanning a height after it
     * collapses, and add 100 points per cleared layer.
     */
    method ClearFullLayers()
      requires Valid()
      modifies this`score, this`board, universe
      ensures Valid()
      ensures board == Compact(old(board))
      ensures forall j :: 0 <= j < H ==> !LayerFull(board[j])
      ensures score == old(score) + 100 * NumFull(old(board))
    {
      ghost var g0 := board;
      var cleared := 0;
      var y := 0;
      while y < H
        invariant 0 <= y <= H
        invariant Valid() && score == old(score)
        invariant Compact(board) == Compact(g0)
        invariant cleared + NumFull(board) == NumFull(g0)
        invariant NoFullBelow(board, y)
        decreases NumFull(board), H - y
      {
        var full := IsLayerFull(y);
        if full {
          cleared := cleared + 1;
          ghost var before := board;
          CollapseLayer(y);
          CollapseCompact(before, y);
          CollapseKeepsBelow(before, y);
          // the source steps y back so the same height is scanned again
        } else {
          y := y + 1;
        }
      }
      KeepNoneFull(board);
      if cleared > 0 {
        score := score + cleared * 100;
      }
    }

    /**
     * newTetrisPiece: spawn the piece drawn with `t` at (2, H-1, 2); when it
     * does not fit the game is over, so the grid and score are reset and the
     * piece drawn with `next` is spawned on the empty grid, where it always fits.
     */
    method NewTetrisPiece(t: int, next: int)
      requires Mirrors() && CellValuesOk(board)
      modifies this
      ensures Playing()
      ensures SpawnedFrom(old(board), old(score), t, next)
      decreases if board == EmptyGrid() then 0 else 1
    {
      SpawnFitsEmpty(t);
      piece := Spawn(t);
      var ok := ValidPosition(piece.pos, piece.rel);
      if !ok {
        InitUniverse();
        score := 0;
        SpawnFitsEmpty(next);
        NewTetrisPiece(next, next);
      }
    }

    /** The shared tail of moveDown and hardDrop: place the piece, clear full layers, spawn the next piece. */
    method LockPiece(t: int, next: int)
      requires Valid()
      modifies this, universe
      ensures Playing()
      ensures SpawnedFrom(Lock(old(board), old(piece)), old(score) + 100 * LockCleared(old(board), old(piece)), t, next)
    {
      PlaceTetrisPiece();
      ClearFullLayers();
      NewTetrisPiece(t, next);
    }

    /** moveDown: one step of gravity; a piece that cannot descend is locked and the next one spawned. */
    method MoveDown(t: int, next: int)
      requires Valid()
      modifies this, universe
      ensures Playing()
      ensures Fits(old(board), Add(old(piece).pos, Down), old(piece).rel) ==>
                piece == Lowered(old(piece)) && board == old(board) && score == old(score)
      ensures !Fits(old(board), Add(old(piece).pos, Down), old(piece).rel) ==>
                SpawnedFrom(Lock(old(board), old(piece)),
                            old(score) + 100 * LockCleared(old(board), old(piece)), t, next)
    {
      var moved := TryMove(0, -1, 0);
      if !moved {
        LockPiece(t, next);
      }
    }

    /** The descent loop of hardDrop: move down while the position one lower fits. */
    method DropToLanding()
      requires Valid()
      modifies this`piece
      ensures Valid()
      ensures piece == Landing(board, old(piece))
    {
      ghost var landed := Landing(board, piece);
      var moved := TryMove(0, -1, 0);
      while moved
        invariant Valid()
        invariant Landing(board, piece) == landed
        invariant moved ==> Fits(board, piece.pos, piece.rel)
        invariant !moved ==> piece == landed
        decreases if moved then piece.pos.y + piece.rel[0].y + 1 else 0
      {
        moved := TryMove(0, -1, 0);
      }
    }

    /** hardDrop: descend while the next cell down fits, then lock the piece and spawn the next one. */
    method HardDrop(t: int, next: int)
      requires Valid()
      modifies this, universe
      ensures Playing()
      ensures var landed := Landing(old(board), old(piece));
              SpawnedFrom(Lock(old(board), landed),
                          old(score) + 100 * LockCleared(old(board), landed), t, next)
    {
      DropToLanding();
      LockPiece(t, next);
    }

    /**
     * rotateTetrisPiece: turn every offset a quarter about `axis`, and go back
     * to the saved offsets when the turned piece does not fit.
     */
    method RotateTetrisPiece(axis: Axis, dir: int)
      requires Valid()
      modifies this`piece
      ensures Valid()
      ensures piece.pos == old(piece).pos && piece.kind == old(piece).kind
      ensures var turned := RotateAll(old(piece).rel, axis, dir);
              piece.rel == if Fits(board, piece.pos, turned) then turned else old(piece).rel
      ensures old(Playing()) ==> Playing()
    {
      var oldRel := piece.rel;
      var j := 0;
      while j < |piece.rel|
        invariant 0 <= j <= |piece.rel| == |oldRel|
        invariant piece.pos == old(piece).pos && piece.kind == old(piece).kind
        invariant forall i :: 0 <= i < j ==> piece.rel[i] == RotateVec(oldRel[i], axis, dir)
        invariant forall i :: j <= i < |oldRel| ==> piece.rel[i] == oldRel[i]
      {
        piece := piece.(rel := piece.rel[j := RotateVec(piece.rel[j], axis, dir)]);
        j := j + 1;
      }
      assert piece.rel == RotateAll(oldRel, axis, dir);
      RotateAllDistinct(oldRel, axis, dir);
      var ok := ValidPosition(piece.pos, piece.rel);
      if !ok {
        piece := piece.(rel := oldRel);
      }
    }
  }
}
