/**
 * The occupancy grid ("universe") as a value: layers stacked by height,
 * each layer indexed [x][z]. A cell is 0 when empty and the piece type
 * (1 or 2) once a piece has settled there.
 */
module Universe {
  import opened Vectors

  const W: int := 6
  const H: int := 20
  const D: int := 6

  /** One horizontal slice of the grid, indexed [x][z]. */
  type Layer = seq<seq<int>>
  /** The whole grid, indexed [y][x][z]. */
  type Grid = seq<Layer>

  predicate IsLayer(l: Layer) {
    |l| == W && forall x :: 0 <= x < W ==> |l[x]| == D
  }

  predicate IsGrid(g: Grid) {
    |g| == H && forall y :: 0 <= y < H ==> IsLayer(g[y])
  }

  predicate InBounds(v: Vec) {
    0 <= v.x < W && 0 <= v.y < H && 0 <= v.z < D
  }

  function At(g: Grid, v: Vec): int
    requires IsGrid(g) && InBounds(v)
  {
    g[v.y][v.x][v.z]
  }

  /** The cells, kept in range, hold only 0 (empty) or a piece type 1 or 2. */
  predicate CellValuesOk(g: Grid)
    requires IsGrid(g)
  {
    forall y, x, z :: 0 <= y < H && 0 <= x < W && 0 <= z < D ==> 0 <= g[y][x][z] <= 2
  }

  function EmptyLayer(): (l: Layer)
    ensures IsLayer(l)
    ensures forall x, z :: 0 <= x < W && 0 <= z < D ==> l[x][z] == 0
  {
    seq(W, x => seq(D, z => 0))
  }

  function EmptyGrid(): (g: Grid)
    ensures IsGrid(g) && CellValuesOk(g)
    ensures forall y :: 0 <= y < H ==> g[y] == EmptyLayer()
  {
    seq(H, y => EmptyLayer())
  }

  /** Two grids that agree cell by cell are equal. */
  lemma GridExt(a: Grid, b: Grid)
    requires IsGrid(a) && IsGrid(b)
    requires forall y, x, z :: 0 <= y < H && 0 <= x < W && 0 <= z < D ==> a[y][x][z] == b[y][x][z]
    ensures a == b
  {
    forall y | 0 <= y < H
      ensures a[y] == b[y]
    {
      forall x | 0 <= x < W
        ensures a[y][x] == b[y][x]
      {
        assert |a[y][x]| == |b[y][x]| == D;
      }
    }
  }

  // ---------------------------------------------------------------- placement

  /** The absolute cells of a piece anchored at `pos` with offsets `rel`. */
  function Cells(pos: Vec, rel: seq<Vec>): set<Vec> {
    set i | 0 <= i < |rel| :: Add(pos, rel[i])
  }

  /** No offset occurs twice, so a piece covers as many cells as it has offsets. */
  predicate Distinct(rel: seq<Vec>) {
    forall i, j :: 0 <= i < j < |rel| ==> rel[i] != rel[j]
  }

  /** validPosition: every absolute cell is inside the grid and empty. */
  predicate Fits(g: Grid, pos: Vec, rel: seq<Vec>)
    requires IsGrid(g)
  {
    forall i :: 0 <= i < |rel| ==> InBounds(Add(pos, rel[i])) && At(g, Add(pos, rel[i])) == 0
  }

  /** Fits, stated over the set of absolute cells. */
  lemma FitsCells(g: Grid, pos: Vec, rel: seq<Vec>)
    requires IsGrid(g)
    ensures Fits(g, pos, rel) <==> forall c :: c in Cells(pos, rel) ==> InBounds(c) && At(g, c) == 0
  {
    if Fits(g, pos, rel) {
      forall c | c in Cells(pos, rel)
        ensures InBounds(c) && At(g, c) == 0
      {
        var i :| 0 <= i < |rel| && c == Add(pos, rel[i]);
      }
    }
    if forall c :: c in Cells(pos, rel) ==> InBounds(c) && At(g, c) == 0 {
      forall i | 0 <= i < |rel|
        ensures InBounds(Add(pos, rel[i])) && At(g, Add(pos, rel[i])) == 0
      {
        assert Add(pos, rel[i]) in Cells(pos, rel);
      }
    }
  }

  /** The grid with value `t` written into exactly the in-range cells of `cells`. */
  function Place(g: Grid, cells: set<Vec>, t: int): (r: Grid)
    requires IsGrid(g)
    ensures IsGrid(r)
  {
    seq(H, y requires 0 <= y < H =>
      seq(W, x requires 0 <= x < W =>
        seq(D, z requires 0 <= z < D =>
          if Vec(x, y, z) in cells then t else g[y][x][z])))
  }

  /** The cell at (x, y, z) after a placement: the piece's type on its cells, the old value elsewhere. */
  lemma PlaceAt(g: Grid, cells: set<Vec>, t: int)
    requires IsGrid(g)
    ensures forall x, y, z :: 0 <= x < W && 0 <= y < H && 0 <= z < D ==>
      Place(g, cells, t)[y][x][z] == if Vec(x, y, z) in cells then t else g[y][x][z]
  {
  }

  /** The grid with one cell overwritten. */
  function SetCell(g: Grid, c: Vec, v: int): (r: Grid)
    requires IsGrid(g) && InBounds(c)
    ensures IsGrid(r)
  {
    g[c.y := g[c.y][c.x := g[c.y][c.x][c.z := v]]]
  }

  // ---------------------------------------------------------------- counting

  /** 1 for an occupied cell, 0 for an empty one. */
  function Occ(v: int): nat {
    if v != 0 then 1 else 0
  }

  function CountRow(r: seq<int>): nat {
    if r == [] then 0 else Occ(r[0]) + CountRow(r[1..])
  }

  function CountLayer(l: Layer): nat {
    if l == [] then 0 else CountRow(l[0]) + CountLayer(l[1..])
  }

  /** The number of occupied cells. */
  function Count(g: seq<Layer>): nat {
    if g == [] then 0 else CountLayer(g[0]) + Count(g[1..])
  }

  lemma {:induction false} CountRowUpdate(r: seq<int>, i: int, v: int)
    requires 0 <= i < |r|
    ensures CountRow(r[i := v]) == CountRow(r) - Occ(r[i]) + Occ(v)
  {
    if i > 0 {
      assert r[i := v][1..] == r[1..][i - 1 := v];
      CountRowUpdate(r[1..], i - 1, v);
    } else {
      assert r[i := v][1..] == r[1..];
    }
  }

  lemma {:induction false} CountLayerUpdate(l: Layer, x: int, z: int, v: int)
    requires 0 <= x < |l| && 0 <= z < |l[x]|
    ensures CountLayer(l[x := l[x][z := v]]) == CountLayer(l) - Occ(l[x][z]) + Occ(v)
  {
    var l' := l[x := l[x][z := v]];
    if x > 0 {
      assert l'[1..] == l[1..][x - 1 := l[1..][x - 1][z := v]];
      CountLayerUpdate(l[1..], x - 1, z, v);
    } else {
      assert l'[1..] == l[1..];
      CountRowUpdate(l[0], z, v);
    }
  }

  lemma {:induction false} CountUpdate(g: seq<Layer>, y: int, x: int, z: int, v: int)
    requires 0 <= y < |g| && 0 <= x < |g[y]| && 0 <= z < |g[y][x]|
    ensures Count(g[y := g[y][x := g[y][x][z := v]]]) == Count(g) - Occ(g[y][x][z]) + Occ(v)
  {
    var g' := g[y := g[y][x := g[y][x][z := v]]];
    if y > 0 {
      assert g'[1..] == g[1..][y - 1 := g[1..][y - 1][x := g[1..][y - 1][x][z := v]]];
      CountUpdate(g[1..], y - 1, x, z, v);
    } else {
      assert g'[1..] == g[1..];
      CountLayerUpdate(g[0], x, z, v);
    }
  }

  /** Writing an occupied value into an empty cell adds exactly one occupied cell. */
  lemma SetCellCount(g: Grid, c: Vec, v: int)
    requires IsGrid(g) && InBounds(c) && At(g, c) == 0 && v != 0
    ensures Count(SetCell(g, c, v)) == Count(g) + 1
  {
    CountUpdate(g, c.y, c.x, c.z, v);
  }

  lemma {:induction false} CountAppend(a: seq<Layer>, b: seq<Layer>)
    ensures Count(a + b) == Count(a) + Count(b)
  {
    if a != [] {
      assert (a + b)[1..] == a[1..] + b;
      CountAppend(a[1..], b);
    } else {
      assert a + b == b;
    }
  }

  lemma {:induction false} CountRowAllOccupied(r: seq<int>)
    requires forall z :: 0 <= z < |r| ==> r[z] != 0
    ensures CountRow(r) == |r|
  {
    if r != [] {
      CountRowAllOccupied(r[1..]);
    }
  }

  lemma {:induction false} CountRowAllEmpty(r: seq<int>)
    requires forall z :: 0 <= z < |r| ==> r[z] == 0
    ensures CountRow(r) == 0
  {
    if r != [] {
      CountRowAllEmpty(r[1..]);
    }
  }

  lemma {:induction false} CountLayerRows(l: Layer, occupied: bool)
    requires forall x :: 0 <= x < |l| ==> |l[x]| == D
    requires forall x, z :: 0 <= x < |l| && 0 <= z < D ==> (l[x][z] != 0 <==> occupied)
    ensures CountLayer(l) == if occupied then |l| * D else 0
  {
    if l != [] {
      if occupied {
        CountRowAllOccupied(l[0]);
      } else {
        CountRowAllEmpty(l[0]);
      }
      CountLayerRows(l[1..], occupied);
    }
  }

  // ---------------------------------------------------------------- clearing

  /** A layer is full when every one of its W×D cells is occupied. */
  predicate LayerFull(l: Layer) {
    IsLayer(l) && forall x, z :: 0 <= x < W && 0 <= z < D ==> l[x][z] != 0
  }

  /** A full layer holds W×D occupied cells; the empty layer holds none and is never full. */
  lemma LayerCounts(l: Layer)
    ensures LayerFull(l) ==> CountLayer(l) == W * D
    ensures CountLayer(EmptyLayer()) == 0 && !LayerFull(EmptyLayer())
  {
    if LayerFull(l) {
      CountLayerRows(l, true);
    }
    var e := EmptyLayer();
    CountLayerRows(e, false);
    assert e[0][0] == 0;
  }

  /** Removing full layer `y`: the layers above drop by one and an empty layer enters at the top. */
  function Collapse(g: Grid, y: int): Grid
    requires 0 <= y < |g|
  {
    g[..y] + g[y + 1..] + [EmptyLayer()]
  }

  /** Clearing a full layer shifts the layers above it down and removes exactly W×D occupied cells. */
  lemma CollapseEffect(g: Grid, y: int)
    requires IsGrid(g) && 0 <= y < H && LayerFull(g[y])
    ensures var r := Collapse(g, y);
            IsGrid(r) &&
            (forall j :: 0 <= j < y ==> r[j] == g[j]) &&
            (forall j :: y <= j < H - 1 ==> r[j] == g[j + 1]) &&
            r[H - 1] == EmptyLayer() &&
            Count(r) == Count(g) - W * D
  {
    CollapseCount(g[..y], g[y], g[y + 1..]);
    assert g == g[..y] + [g[y]] + g[y + 1..];
    LayerCounts(g[y]);
  }

  lemma CollapseCount(a: seq<Layer>, l: Layer, b: seq<Layer>)
    ensures Count(a + [l] + b) == Count(a) + CountLayer(l) + Count(b)
    ensures Count(a + b + [EmptyLayer()]) == Count(a) + Count(b)
  {
    CountAppend(a + [l], b);
    CountAppend(a, [l]);
    CountAppend(a + b, [EmptyLayer()]);
    CountAppend(a, b);
    LayerCounts(l);
    assert [l][1..] == [];
    assert [EmptyLayer()][1..] == [];
  }

  /** None of the layers below height y is full. */
  predicate NoFullBelow(g: seq<Layer>, y: int)
    requires 0 <= y <= |g|
  {
    forall j :: 0 <= j < y ==> !LayerFull(g[j])
  }

  /** Collapsing at y keeps the layers below y, so it keeps them non-full. */
  lemma CollapseKeepsBelow(g: Grid, y: int)
    requires 0 <= y < |g| && NoFullBelow(g, y)
    ensures NoFullBelow(Collapse(g, y), y)
  {
    var c := Collapse(g, y);
    forall j | 0 <= j < y
      ensures c[j] == g[j]
    {
    }
  }

  // The list reasoning behind clearing is generic: `Filter` and `Rejected`
  // know nothing about layers, so their lemmas stay cheap.

  /** The elements of `s` that satisfy `keep`, in order. */
  function Filter<T>(s: seq<T>, keep: T -> bool): seq<T> {
    if s == [] then []
    else (if keep(s[0]) then [s[0]] else []) + Filter(s[1..], keep)
  }

  /** How many elements of `s` fail `keep`. */
  function Rejected<T>(s: seq<T>, keep: T -> bool): nat {
    if s == [] then 0
    else (if keep(s[0]) then 0 else 1) + Rejected(s[1..], keep)
  }

  lemma {:induction false} FilterAppend<T>(a: seq<T>, b: seq<T>, keep: T -> bool)
    ensures Filter(a + b, keep) == Filter(a, keep) + Filter(b, keep)
    ensures Rejected(a + b, keep) == Rejected(a, keep) + Rejected(b, keep)
  {
    if a == [] {
      assert a + b == b;
    } else {
      var h := if keep(a[0]) then [a[0]] else [];
      var r := if keep(a[0]) then 0 else 1;
      assert (a + b)[0] == a[0];
      assert (a + b)[1..] == a[1..] + b;
      FilterAppend(a[1..], b, keep);
      calc {
        Filter(a + b, keep);
        h + Filter(a[1..] + b, keep);
        h + (Filter(a[1..], keep) + Filter(b, keep));
        (h + Filter(a[1..], keep)) + Filter(b, keep);
      }
      assert Rejected(a + b, keep) == r + Rejected(a[1..] + b, keep);
    }
  }

  lemma {:induction false} FilterSize<T>(s: seq<T>, keep: T -> bool)
    ensures |Filter(s, keep)| + Rejected(s, keep) == |s|
  {
    if s != [] {
      FilterSize(s[1..], keep);
    }
  }

  lemma {:induction false} FilterMembers<T>(s: seq<T>, keep: T -> bool)
    ensures forall x :: x in Filter(s, keep) ==> x in s && keep(x)
  {
    if s != [] {
      FilterMembers(s[1..], keep);
    }
  }

  lemma {:induction false} FilterAll<T>(s: seq<T>, keep: T -> bool)
    requires forall i :: 0 <= i < |s| ==> keep(s[i])
    ensures Filter(s, keep) == s && Rejected(s, keep) == 0
  {
    if s != [] {
      FilterAll(s[1..], keep);
    }
  }

  lemma {:induction false} RejectedPositive<T>(s: seq<T>, j: int, keep: T -> bool)
    requires 0 <= j < |s| && !keep(s[j])
    ensures Rejected(s, keep) > 0
  {
    if j > 0 {
      RejectedPositive(s[1..], j - 1, keep);
    }
  }

  lemma FilterMiddle<T>(a: seq<T>, x: T, b: seq<T>, keep: T -> bool)
    requires !keep(x)
    ensures Filter(a + [x] + b, keep) == Filter(a + b, keep)
    ensures Rejected(a + [x] + b, keep) == Rejected(a + b, keep) + 1
  {
    assert [x][1..] == [];
    assert Filter([x], keep) == [] && Rejected([x], keep) == 1;
    FilterAppend(a + [x], b, keep);
    FilterAppend(a, [x], keep);
    FilterAppend(a, b, keep);
  }

  /** Dropping a rejected element leaves the filtered sequence as it was. */
  lemma FilterRemove<T>(s: seq<T>, y: int, keep: T -> bool)
    requires 0 <= y < |s| && !keep(s[y])
    ensures Filter(s, keep) == Filter(s[..y] + s[y + 1..], keep)
    ensures Rejected(s, keep) == Rejected(s[..y] + s[y + 1..], keep) + 1
  {
    assert s == s[..y] + [s[y]] + s[y + 1..];
    FilterMiddle(s[..y], s[y], s[y + 1..], keep);
  }

  /** Appending a kept element appends it to the filtered sequence. */
  lemma FilterSnoc<T>(s: seq<T>, x: T, keep: T -> bool)
    requires keep(x)
    ensures Filter(s + [x], keep) == Filter(s, keep) + [x]
    ensures Rejected(s + [x], keep) == Rejected(s, keep)
  {
    assert [x][1..] == [];
    FilterAppend(s, [x], keep);
  }

  predicate NotFull(l: Layer) {
    !LayerFull(l)
  }

  /** The layers that are not full, bottom to top. */
  function Keep(s: seq<Layer>): seq<Layer> {
    Filter(s, NotFull)
  }

  /** The number of full layers. */
  function NumFull(s: seq<Layer>): nat {
    Rejected(s, NotFull)
  }

  function Empties(n: nat): (r: seq<Layer>)
    ensures |r| == n && forall l :: l in r ==> l == EmptyLayer()
  {
    seq(n, _ => EmptyLayer())
  }

  /**
   * The grid after every full layer is removed: the other layers keep their
   * order and settle to the bottom, and empty layers fill the top.
   */
  function Compact(g: seq<Layer>): seq<Layer> {
    Keep(g) + Empties(NumFull(g))
  }

  /** Each full layer dropped by Keep takes W×D occupied cells with it. */
  lemma {:induction false} KeepCount(s: seq<Layer>)
    ensures Count(Keep(s)) + W * D * NumFull(s) == Count(s)
  {
    if s != [] {
      KeepCount(s[1..]);
      var p := if NotFull(s[0]) then [s[0]] else [];
      assert Keep(s) == p + Keep(s[1..]);
      CountAppend(p, Keep(s[1..]));
      LayerCounts(s[0]);
      assert Count([s[0]]) == CountLayer(s[0]);
    }
  }

  /** With no full layer, compaction changes nothing. */
  lemma KeepNoneFull(s: seq<Layer>)
    requires forall j :: 0 <= j < |s| ==> !LayerFull(s[j])
    ensures Keep(s) == s && NumFull(s) == 0 && Compact(s) == s
  {
    FilterAll(s, NotFull);
    assert Empties(0) == [];
  }

  lemma {:induction false} EmptiesCount(n: nat)
    ensures Count(Empties(n)) == 0
  {
    if n > 0 {
      assert Empties(n)[1..] == Empties(n - 1);
      EmptiesCount(n - 1);
      LayerCounts(EmptyLayer());
    }
  }

  /** Compaction of a grid is a grid with no full layer and W×D fewer cells per full layer. */
  lemma CompactGrid(g: Grid)
    requires IsGrid(g)
    ensures IsGrid(Compact(g))
    ensures CellValuesOk(g) ==> CellValuesOk(Compact(g))
    ensures forall j :: 0 <= j < H ==> !LayerFull(Compact(g)[j])
    ensures Count(Compact(g)) == Count(g) - W * D * NumFull(g)
    ensures NumFull(g) == 0 ==> Compact(g) == g
  {
    var c := Compact(g);
    FilterSize(g, NotFull);
    FilterMembers(g, NotFull);
    LayerCounts(EmptyLayer());
    forall j | 0 <= j < H
      ensures IsLayer(c[j]) && !LayerFull(c[j])
      ensures CellValuesOk(g) ==> forall x, z :: 0 <= x < W && 0 <= z < D ==> 0 <= c[j][x][z] <= 2
    {
      assert c[j] in Keep(g) || c[j] in Empties(NumFull(g));
      if c[j] in Keep(g) {
        var k :| 0 <= k < H && g[k] == c[j];
      }
    }
    KeepCount(g);
    CountAppend(Keep(g), Empties(NumFull(g)));
    EmptiesCount(NumFull(g));
    if NumFull(g) == 0 {
      if j :| 0 <= j < H && LayerFull(g[j]) {
        RejectedPositive(g, j, NotFull);
      }
      KeepNoneFull(g);
    }
  }

  /** Collapsing one full layer does not change the final compaction, and leaves one full layer fewer. */
  lemma CollapseCompact(g: Grid, y: int)
    requires IsGrid(g) && 0 <= y < H && LayerFull(g[y])
    ensures Compact(Collapse(g, y)) == Compact(g)
    ensures NumFull(Collapse(g, y)) + 1 == NumFull(g)
  {
    var e := EmptyLayer();
    LayerCounts(e);
    FilterRemove(g, y, NotFull);
    FilterSnoc(g[..y] + g[y + 1..], e, NotFull);
    var n := NumFull(g);
    assert [e] + Empties(n - 1) == Empties(n);
  }

  /** Placing into one more cell is placing into the others and then overwriting that cell. */
  lemma PlaceInsert(g: Grid, cells: set<Vec>, c: Vec, t: int)
    requires IsGrid(g) && InBounds(c) && c in cells
    ensures Place(g, cells, t) == SetCell(Place(g, cells - {c}, t), c, t)
  {
    var a, b := Place(g, cells, t), SetCell(Place(g, cells - {c}, t), c, t);
    forall y, x, z | 0 <= y < H && 0 <= x < W && 0 <= z < D
      ensures a[y][x][z] == b[y][x][z]
    {
    }
    GridExt(a, b);
  }

  /** The occupied cells after placing `t` into empty, in-range cells grow by their number. */
  lemma {:induction false} PlaceCount(g: Grid, cells: set<Vec>, t: int)
    requires IsGrid(g) && t != 0
    requires forall c :: c in cells ==> InBounds(c) && At(g, c) == 0
    ensures Count(Place(g, cells, t)) == Count(g) + |cells|
    decreases cells
  {
    if cells == {} {
      GridExt(Place(g, cells, t), g);
    } else {
      var c :| c in cells;
      var rest := cells - {c};
      PlaceCount(g, rest, t);
      var g' := Place(g, rest, t);
      assert At(g', c) == 0;
      SetCellCount(g', c, t);
      PlaceInsert(g, cells, c, t);
    }
  }

  /** placeTetrisPiece on a valid placement adds one occupied cell per distinct piece cell. */
  lemma PlaceFitsCount(g: Grid, pos: Vec, rel: seq<Vec>, t: int)
    requires IsGrid(g) && Fits(g, pos, rel) && t != 0
    ensures Count(Place(g, Cells(pos, rel), t)) == Count(g) + |Cells(pos, rel)|
    ensures |Cells(pos, rel)| <= |rel|
    ensures Distinct(rel) ==> |Cells(pos, rel)| == |rel|
  {
    FitsCells(g, pos, rel);
    PlaceCount(g, Cells(pos, rel), t);
    CellsSize(pos, rel);
  }

  /** The cells of a prefix grow by one offset at a time. */
  lemma CellsSnoc(pos: Vec, rel: seq<Vec>, n: int)
    requires 0 <= n < |rel|
    ensures Cells(pos, rel[..n + 1]) == Cells(pos, rel[..n]) + {Add(pos, rel[n])}
  {
    var p, q := rel[..n + 1], rel[..n];
    forall c | c in Cells(pos, p)
      ensures c in Cells(pos, q) + {Add(pos, rel[n])}
    {
      var i :| 0 <= i < |p| && c == Add(pos, p[i]);
      if i < n {
        assert q[i] == p[i];
      }
    }
    forall c | c in Cells(pos, q)
      ensures c in Cells(pos, p)
    {
      var i :| 0 <= i < |q| && c == Add(pos, q[i]);
      assert p[i] == q[i];
    }
    assert p[n] == rel[n];
  }

  /** A piece covers at most one cell per offset, and exactly one when its offsets are distinct. */
  lemma {:induction false} CellsSize(pos: Vec, rel: seq<Vec>)
    ensures |Cells(pos, rel)| <= |rel|
    ensures Distinct(rel) ==> |Cells(pos, rel)| == |rel|
  {
    if rel != [] {
      var n := |rel| - 1;
      CellsSnoc(pos, rel, n);
      assert rel[..n + 1] == rel;
      CellsSize(pos, rel[..n]);
      if Distinct(rel) {
        NewCell(pos, rel, n);
      }
    } else {
      assert Cells(pos, rel) == {};
    }
  }

  /** With distinct offsets, the cell of offset n is not among the cells of the offsets before it. */
  lemma NewCell(pos: Vec, rel: seq<Vec>, n: int)
    requires Distinct(rel) && 0 <= n < |rel|
    ensures Distinct(rel[..n])
    ensures Add(pos, rel[n]) !in Cells(pos, rel[..n])
  {
    var q := rel[..n];
    forall i, j | 0 <= i < j < |q|
      ensures q[i] != q[j]
    {
      assert q[i] == rel[i] && q[j] == rel[j];
    }
    forall i | 0 <= i < |q|
      ensures Add(pos, q[i]) != Add(pos, rel[n])
    {
      assert q[i] == rel[i];
    }
  }

  /** Placing a piece type 1 or 2 keeps every cell in {0, 1, 2}. */
  lemma PlaceValues(g: Grid, cells: set<Vec>, t: int)
    requires IsGrid(g) && CellValuesOk(g) && 1 <= t <= 2
    ensures CellValuesOk(Place(g, cells, t))
  {
  }
}
