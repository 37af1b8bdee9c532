/** The level's wall geometry (src/map/tilemap.rs): the world-to-grid transform, and the
    merging of wall tiles into a small number of rectangle colliders.

    The merge works in two passes. First every row of the level is cut into "plates",
    maximal horizontal runs of wall cells. Then plates that repeat, with the same left and
    right column, in consecutive rows are stacked into rectangles; a rectangle is finished
    as soon as its plate is missing from the next row. The result is an exact cover of the
    level's wall cells by pairwise disjoint rectangles. */
module TileMap {
  import opened Wrappers
  import opened Vectors

  // ---------------------------------------------------------------------------------------
  // World <-> grid transform
  // ---------------------------------------------------------------------------------------

  /** The `TransformToGrid` resource: level height in pixels, level origin, tile size. */
  datatype TransformToGrid = TransformToGrid(height: real, transform: Vec2, gridSize: Vec2, ready: bool)

  /** The resource is only ever built with a 16 x 16 tile size; any non-zero size will do. */
  predicate NonZeroGrid(t: TransformToGrid)
  {
    t.gridSize.x != 0.0 && t.gridSize.y != 0.0
  }

  /** `from_world`: world position to fractional grid position, with the y axis flipped
      (LDtk rows grow downwards, world y grows upwards). */
  function FromWorld(t: TransformToGrid, p: Vec2): (g: Vec2)
    requires NonZeroGrid(t)
    ensures g.x == (p.x - t.transform.x) / t.gridSize.x
    ensures g.y == (t.height + t.transform.y - p.y) / t.gridSize.y
  {
    var d := Vec2(0.0, t.height).Add(t.transform).Sub(p);
    Vec2(d.x / t.gridSize.x * -1.0, d.y / t.gridSize.y * 1.0)
  }

  /** The inverse map, grid position back to world position. The source's own inverse
      (`to_world`) is not part of this model; this one is derived from `from_world`. */
  function ToWorld(t: TransformToGrid, g: Vec2): Vec2
  {
    Vec2(t.transform.x + g.x * t.gridSize.x, t.height + t.transform.y - g.y * t.gridSize.y)
  }

  lemma FromWorldToWorld(t: TransformToGrid, g: Vec2)
    requires NonZeroGrid(t)
    ensures FromWorld(t, ToWorld(t, g)) == g
  {
    var w := ToWorld(t, g);
    assert (w.x - t.transform.x) == g.x * t.gridSize.x;
    assert (t.height + t.transform.y - w.y) == g.y * t.gridSize.y;
  }

  lemma ToWorldFromWorld(t: TransformToGrid, p: Vec2)
    requires NonZeroGrid(t)
    ensures ToWorld(t, FromWorld(t, p)) == p
  {
    var g := FromWorld(t, p);
    assert g.x * t.gridSize.x == p.x - t.transform.x;
    assert g.y * t.gridSize.y == t.height + t.transform.y - p.y;
  }

  /** Moving up in the world moves to a lower grid row (for a positive tile height). */
  lemma FromWorldFlipsY(t: TransformToGrid, p: Vec2, q: Vec2)
    requires NonZeroGrid(t) && t.gridSize.y > 0.0
    requires p.y < q.y
    ensures FromWorld(t, q).y < FromWorld(t, p).y
  {
    var a, b := t.height + t.transform.y - q.y, t.height + t.transform.y - p.y;
    assert a < b;
    assert a / t.gridSize.y < b / t.gridSize.y;
  }

  // ---------------------------------------------------------------------------------------
  // Plates and rectangles
  // ---------------------------------------------------------------------------------------

  /** A wall cell of the level's IntGrid layer. */
  datatype GridCoords = GridCoords(x: int, y: int)

  /** A wall one tile tall: columns left..right of a row. */
  datatype Plate = Plate(left: int, right: int)

  /** A wall rectangle: columns left..right, rows bottom..top (all inclusive). */
  datatype Rect = Rect(left: int, right: int, top: int, bottom: int)

  function PlateOf(r: Rect): Plate { Plate(r.left, r.right) }

  predicate InPlate(p: Plate, x: int) { p.left <= x <= p.right }

  ghost predicate InRow(row: seq<Plate>, x: int)
  {
    exists i :: 0 <= i < |row| && InPlate(row[i], x)
  }

  predicate InRect(r: Rect, x: int, y: int)
  {
    r.left <= x <= r.right && r.bottom <= y <= r.top
  }

  ghost predicate Covered(rects: seq<Rect>, x: int, y: int)
  {
    exists i :: 0 <= i < |rects| && InRect(rects[i], x, y)
  }

  predicate Disjoint(r: Rect, s: Rect)
  {
    r.right < s.left || s.right < r.left || r.top < s.bottom || s.top < r.bottom
  }

  ghost predicate AllDisjoint(rects: seq<Rect>)
  {
    forall i, j :: 0 <= i < j < |rects| ==> Disjoint(rects[i], rects[j])
  }

  /** Disjoint rectangles share no cell. */
  lemma DisjointShareNoCell(r: Rect, s: Rect, x: int, y: int)
    requires Disjoint(r, s)
    ensures !(InRect(r, x, y) && InRect(s, x, y))
  {
  }

  /** Plates of one row: non-empty, in increasing order, with at least one free cell between
      two neighbours. */
  ghost predicate SeparatedRow(row: seq<Plate>)
  {
    && (forall i :: 0 <= i < |row| ==> row[i].left <= row[i].right)
    && (forall i, j :: 0 <= i < j < |row| ==> row[i].right + 1 < row[j].left)
  }

  /** A cell lies in at most one plate of a separated row. */
  lemma PlateUnique(row: seq<Plate>, i: int, j: int, x: int)
    requires SeparatedRow(row)
    requires 0 <= i < |row| && 0 <= j < |row|
    requires InPlate(row[i], x) && InPlate(row[j], x)
    ensures i == j
  {
  }

  /** What the row scan promises about the plates of row y. */
  ghost predicate IsRowOfPlates(walls: set<GridCoords>, width: nat, y: int, row: seq<Plate>)
  {
    && SeparatedRow(row)
    && (forall i :: 0 <= i < |row| ==> 0 <= row[i].left && row[i].right < width)
    && (forall i, x :: 0 <= i < |row| && row[i].left <= x <= row[i].right ==> GridCoords(x, y) in walls)
    && (forall i :: 0 <= i < |row| ==> GridCoords(row[i].right + 1, y) !in walls)
    && (forall i :: 0 <= i < |row| && row[i].left > 0 ==> GridCoords(row[i].left - 1, y) !in walls)
    && (GridCoords(width, y) !in walls ==>
          forall x :: 0 <= x < width && GridCoords(x, y) in walls ==> InRow(row, x))
  }

  /** The state of the row scan before column x: the plates closed so far and the open run. */
  ghost predicate ScanInv(walls: set<GridCoords>, y: int, row: seq<Plate>, plateStart: Option<int>, x: int)
  {
    && 0 <= x
    && SeparatedRow(row)
    && (forall i :: 0 <= i < |row| ==> 0 <= row[i].left && row[i].right + 1 < x)
    && (forall i, x' :: 0 <= i < |row| && row[i].left <= x' <= row[i].right ==> GridCoords(x', y) in walls)
    && (forall i :: 0 <= i < |row| ==> GridCoords(row[i].right + 1, y) !in walls)
    && (forall i :: 0 <= i < |row| && row[i].left > 0 ==> GridCoords(row[i].left - 1, y) !in walls)
    && (plateStart.Some? ==>
          && 0 <= plateStart.value < x
          && (forall i :: 0 <= i < |row| ==> row[i].right + 1 < plateStart.value)
          && (forall x' :: plateStart.value <= x' < x ==> GridCoords(x', y) in walls)
          && (plateStart.value > 0 ==> GridCoords(plateStart.value - 1, y) !in walls))
    && (plateStart.None? ==> x == 0 || GridCoords(x - 1, y) !in walls)
    && (forall x' :: 0 <= x' < x && GridCoords(x', y) in walls && (plateStart.None? || x' < plateStart.value) ==> InRow(row, x'))
  }

  lemma ScanStart(walls: set<GridCoords>, y: int)
    ensures ScanInv(walls, y, [], None, 0)
  {
  }

  /** A free cell after an open run closes it into a plate. */
  lemma ScanClose(walls: set<GridCoords>, y: int, row: seq<Plate>, s: int, x: int)
    requires ScanInv(walls, y, row, Some(s), x) && GridCoords(x, y) !in walls
    ensures ScanInv(walls, y, row + [Plate(s, x - 1)], None, x + 1)
  {
    var row' := row + [Plate(s, x - 1)];
    assert forall i :: 0 <= i < |row| ==> row'[i] == row[i];
    forall x' | 0 <= x' < x + 1 && GridCoords(x', y) in walls
      ensures InRow(row', x')
    {
      if x' < s {
        var i :| 0 <= i < |row| && InPlate(row[i], x');
        assert row'[i] == row[i];
      } else {
        assert InPlate(row'[|row|], x');
      }
    }
  }

  /** A wall cell with no open run opens one. */
  lemma ScanOpen(walls: set<GridCoords>, y: int, row: seq<Plate>, x: int)
    requires ScanInv(walls, y, row, None, x) && GridCoords(x, y) in walls
    ensures ScanInv(walls, y, row, Some(x), x + 1)
  {
  }

  /** A wall cell extends an open run; a free cell with no open run changes nothing. */
  lemma ScanSkip(walls: set<GridCoords>, y: int, row: seq<Plate>, plateStart: Option<int>, x: int)
    requires ScanInv(walls, y, row, plateStart, x)
    requires plateStart.Some? <==> GridCoords(x, y) in walls
    ensures ScanInv(walls, y, row, plateStart, x + 1)
  {
  }

  lemma ScanDone(walls: set<GridCoords>, width: nat, y: int, row: seq<Plate>, plateStart: Option<int>)
    requires ScanInv(walls, y, row, plateStart, width + 1)
    ensures IsRowOfPlates(walls, width, y, row)
  {
    if plateStart.Some? {
      assert GridCoords(width, y) in walls;
    }
  }

  /** The plate scan of one row (tilemap.rs:162-178). The scan runs to x == width so that a run
      touching the right edge is closed; if the set held a wall in that extra column, the last
      run would stay open and be dropped, so the cover clause is stated for a clear column. */
  method RowPlates(walls: set<GridCoords>, width: nat, y: int) returns (row: seq<Plate>)
    ensures IsRowOfPlates(walls, width, y, row)
  {
    row := [];
    var plateStart: Option<int> := None;
    ScanStart(walls, y);
    var x := 0;
    while x < width + 1
      invariant 0 <= x <= width + 1
      invariant ScanInv(walls, y, row, plateStart, x)
    {
      var isWall := GridCoords(x, y) in walls;
      match (plateStart, isWall) {
        case (Some(s), false) =>
          ScanClose(walls, y, row, s, x);
          row := row + [Plate(s, x - 1)];
          plateStart := None;
        case (None, true) =>
          ScanOpen(walls, y, row, x);
          plateStart := Some(x);
        case _ =>
          ScanSkip(walls, y, row, plateStart, x);
      }
      x := x + 1;
    }
    ScanDone(walls, width, y, row, plateStart);
  }

  /** The rows 0..height-1 cut into plates (tilemap.rs:159-181). */
  method PlateStack(walls: set<GridCoords>, width: nat, height: nat) returns (plateStack: seq<seq<Plate>>)
    ensures |plateStack| == height
    ensures forall y :: 0 <= y < height ==> IsRowOfPlates(walls, width, y, plateStack[y])
  {
    plateStack := [];
    var y := 0;
    while y < height
      invariant 0 <= y <= height && |plateStack| == y
      invariant forall y' :: 0 <= y' < y ==> IsRowOfPlates(walls, width, y', plateStack[y'])
    {
      var rowPlates := RowPlates(walls, width, y);
      plateStack := plateStack + [rowPlates];
      y := y + 1;
    }
  }

  // ---------------------------------------------------------------------------------------
  // Merging plates into rectangles
  // ---------------------------------------------------------------------------------------

  /** r is a vertical stack of its plate: every row bottom..top holds exactly that plate. */
  ghost predicate Seg(stack: seq<seq<Plate>>, r: Rect)
  {
    && 0 <= r.bottom <= r.top < |stack|
    && r.left <= r.right
    && forall yy :: r.bottom <= yy <= r.top ==> HasPlate(stack, yy, PlateOf(r))
  }

  /** Row yy of the stack holds plate p. */
  predicate HasPlate(stack: seq<seq<Plate>>, yy: int, p: Plate)
  {
    0 <= yy < |stack| && p in stack[yy]
  }

  /** The row below r does not hold r's plate. */
  ghost predicate BottomMax(stack: seq<seq<Plate>>, r: Rect)
    requires 0 <= r.bottom <= |stack|
  {
    r.bottom == 0 || PlateOf(r) !in stack[r.bottom - 1]
  }

  /** Both the row below and the row above r lack r's plate (or lie outside the stack). */
  ghost predicate MaximalRun(stack: seq<seq<Plate>>, r: Rect)
  {
    && 0 <= r.bottom <= r.top < |stack|
    && (r.bottom == 0 || PlateOf(r) !in stack[r.bottom - 1])
    && (r.top + 1 == |stack| || PlateOf(r) !in stack[r.top + 1])
  }

  /** An in-progress rectangle of plate p whose top row is `top`. */
  ghost predicate ActiveAt(stack: seq<seq<Plate>>, r: Rect, p: Plate, top: int)
  {
    PlateOf(r) == p && Seg(stack, r) && BottomMax(stack, r) && r.top == top
  }

  /** A finished rectangle: finalized while processing a row before row n. */
  ghost predicate Finished(stack: seq<seq<Plate>>, r: Rect, n: int)
  {
    && Seg(stack, r) && BottomMax(stack, r)
    && r.top + 1 < |stack| && r.top + 1 < n
    && PlateOf(r) !in stack[r.top + 1]
  }

  ghost predicate BuilderCovers(builder: map<Plate, Rect>, x: int, y: int)
  {
    exists p :: p in builder && InRect(builder[p], x, y)
  }

  ghost predicate BuilderDisjoint(builder: map<Plate, Rect>, rects: seq<Rect>)
  {
    forall p, i :: p in builder && 0 <= i < |rects| ==> Disjoint(builder[p], rects[i])
  }

  /** Every plate cell of the rows before y is in a finished or an in-progress rectangle. */
  ghost predicate CoveredUpTo(stack: seq<seq<Plate>>, rects: seq<Rect>, builder: map<Plate, Rect>, y: int)
    requires y <= |stack|
  {
    forall yy, x :: 0 <= yy < y && InRow(stack[yy], x) ==> Covered(rects, x, yy) || BuilderCovers(builder, x, yy)
  }

  ghost predicate AllSeparated(stack: seq<seq<Plate>>)
  {
    forall yy :: 0 <= yy < |stack| ==> RowSeparated(stack, yy)
  }

  ghost predicate RowSeparated(stack: seq<seq<Plate>>, yy: int)
    requires 0 <= yy < |stack|
  {
    SeparatedRow(stack[yy])
  }

  lemma SeparatedDistinct(row: seq<Plate>, k: int)
    requires SeparatedRow(row) && 0 <= k < |row|
    ensures row[k] !in row[k + 1..]
    ensures row[k] !in row[..k]
  {
    forall j | k < j < |row| ensures row[j] != row[k] {
      assert row[k].right + 1 < row[j].left;
    }
    forall j | 0 <= j < k ensures row[j] != row[k] {
      assert row[j].right + 1 < row[k].left;
    }
  }

  /** Rectangles of two different plates of one row share no cell of any row. */
  lemma SameRowPlatesDisjoint(row: seq<Plate>, r: Rect, s: Rect)
    requires SeparatedRow(row) && PlateOf(r) in row && PlateOf(s) in row && PlateOf(r) != PlateOf(s)
    ensures Disjoint(r, s)
  {
    var i :| 0 <= i < |row| && row[i] == PlateOf(r);
    var j :| 0 <= j < |row| && row[j] == PlateOf(s);
    if i < j {
      assert row[i].right + 1 < row[j].left;
    } else {
      assert i != j;
      assert row[j].right + 1 < row[i].left;
    }
  }

  /** Growing an in-progress rectangle by one row keeps it disjoint from an older finished one. */
  lemma GrowKeepsDisjoint(r: Rect, s: Rect, y: int)
    requires Disjoint(r, s) && r.top == y - 1 && s.bottom <= s.top < y
    ensures Disjoint(r.(top := y), s)
  {
  }

  /** The merge state before row y: the rectangles in progress are exactly those of the plates
      of the previous row, every finished rectangle is a maximal run, all rectangles are
      pairwise disjoint, and every plate cell below y is in one of them. */
  ghost predicate MergeInv(stack: seq<seq<Plate>>, y: int, prevRow: seq<Plate>,
                           builder: map<Plate, Rect>, rects: seq<Rect>)
  {
    && 0 <= y <= |stack| && AllSeparated(stack)
    && prevRow == (if y == 0 then [] else stack[y - 1])
    && (forall p :: p in builder <==> p in prevRow)
    && (forall p :: p in builder ==> ActiveAt(stack, builder[p], p, y - 1))
    && (forall i :: 0 <= i < |rects| ==> Finished(stack, rects[i], y))
    && AllDisjoint(rects) && BuilderDisjoint(builder, rects)
    && CoveredUpTo(stack, rects, builder, y)
  }

  /** The state of the first inner loop at row y after the plates prevRow[..k]. */
  ghost predicate FinishInv(stack: seq<seq<Plate>>, y: int, prevRow: seq<Plate>, k: int,
                            builder: map<Plate, Rect>, rects: seq<Rect>)
  {
    && 0 <= y < |stack| && AllSeparated(stack)
    && prevRow == (if y == 0 then [] else stack[y - 1])
    && 0 <= k <= |prevRow|
    && ScannedPrev(prevRow, stack[y], k, builder)
    && (forall p :: p in builder ==> ActiveAt(stack, builder[p], p, y - 1))
    && (forall i :: 0 <= i < |rects| ==> Finished(stack, rects[i], y + 1))
    && AllDisjoint(rects) && BuilderDisjoint(builder, rects)
    && CoveredUpTo(stack, rects, builder, y)
  }

  /** After the plates prevRow[..k]: the builder holds the plates of prevRow, all of those
      still to be looked at, and of those already looked at exactly the ones in currentRow. */
  ghost predicate ScannedPrev(prevRow: seq<Plate>, currentRow: seq<Plate>, k: int, builder: map<Plate, Rect>)
  {
    && (forall p :: p in builder ==> p in prevRow)
    && (forall i :: 0 <= i < |prevRow| && (k <= i || prevRow[i] in currentRow) ==> prevRow[i] in builder)
    && (forall i :: 0 <= i < k && i < |prevRow| && prevRow[i] !in currentRow ==> prevRow[i] !in builder)
  }

  lemma ScannedPrevRemove(prevRow: seq<Plate>, currentRow: seq<Plate>, k: int, builder: map<Plate, Rect>)
    requires SeparatedRow(prevRow) && 0 <= k < |prevRow|
    requires ScannedPrev(prevRow, currentRow, k, builder) && prevRow[k] !in currentRow
    ensures ScannedPrev(prevRow, currentRow, k + 1, builder - {prevRow[k]})
  {
    SeparatedDistinct(prevRow, k);
    forall i | 0 <= i < |prevRow| && i != k ensures prevRow[i] != prevRow[k] {
      if i < k {
        assert prevRow[..k][i] == prevRow[i];
      } else {
        assert prevRow[k + 1..][i - k - 1] == prevRow[i];
      }
    }
  }

  lemma ScannedPrevKeep(prevRow: seq<Plate>, currentRow: seq<Plate>, k: int, builder: map<Plate, Rect>)
    requires 0 <= k < |prevRow|
    requires ScannedPrev(prevRow, currentRow, k, builder)
    requires prevRow[k] in currentRow || prevRow[k] !in builder
    ensures ScannedPrev(prevRow, currentRow, k + 1, builder)
  {
  }

  /** Between the two inner loops: only the plates present in both rows are in progress. */
  ghost predicate HalfInv(stack: seq<seq<Plate>>, y: int, prevRow: seq<Plate>,
                          builder: map<Plate, Rect>, rects: seq<Rect>)
  {
    && 0 <= y < |stack| && AllSeparated(stack)
    && prevRow == (if y == 0 then [] else stack[y - 1])
    && (forall p :: p in builder <==> p in prevRow && p in stack[y])
    && (forall p :: p in builder ==> ActiveAt(stack, builder[p], p, y - 1))
    && (forall i :: 0 <= i < |rects| ==> Finished(stack, rects[i], y + 1))
    && AllDisjoint(rects) && BuilderDisjoint(builder, rects)
    && CoveredUpTo(stack, rects, builder, y)
  }

  lemma FinishStart(stack: seq<seq<Plate>>, y: int, prevRow: seq<Plate>, builder: map<Plate, Rect>, rects: seq<Rect>)
    requires MergeInv(stack, y, prevRow, builder, rects) && y < |stack|
    ensures FinishInv(stack, y, prevRow, 0, builder, rects)
  {
  }

  /** A plate of the previous row missing from the current one finishes its rectangle. */
  lemma FinishRemove(stack: seq<seq<Plate>>, y: int, prevRow: seq<Plate>, k: int,
                     builder: map<Plate, Rect>, rects: seq<Rect>, b': map<Plate, Rect>, r': seq<Rect>)
    requires FinishInv(stack, y, prevRow, k, builder, rects) && k < |prevRow|
    requires prevRow[k] !in stack[y] && prevRow[k] in builder
    requires b' == builder - {prevRow[k]} && r' == rects + [builder[prevRow[k]]]
    ensures FinishInv(stack, y, prevRow, k + 1, b', r')
  {
    var p := prevRow[k];
    assert RowSeparated(stack, y - 1);
    ScannedPrevRemove(prevRow, stack[y], k, builder);
    RemoveKeepsDisjoint(prevRow, p, builder, rects);
    RemoveKeepsCover(stack, y, p, builder, rects);
  }

  /** Moving the rectangle of plate p from the builder to the finished list keeps all
      rectangles pairwise disjoint. */
  lemma RemoveKeepsDisjoint(row: seq<Plate>, p: Plate, builder: map<Plate, Rect>, rects: seq<Rect>)
    requires SeparatedRow(row) && p in builder
    requires forall q :: q in builder ==> q in row && PlateOf(builder[q]) == q
    requires AllDisjoint(rects) && BuilderDisjoint(builder, rects)
    ensures AllDisjoint(rects + [builder[p]]) && BuilderDisjoint(builder - {p}, rects + [builder[p]])
  {
    var rect := builder[p];
    var b', r' := builder - {p}, rects + [rect];
    forall q | q in b' ensures Disjoint(b'[q], rect) {
      SameRowPlatesDisjoint(row, b'[q], rect);
    }
    forall i, j | 0 <= i < j < |r'| ensures Disjoint(r'[i], r'[j]) {
      if j < |rects| {
        assert r'[i] == rects[i] && r'[j] == rects[j];
      } else {
        assert r'[i] == rects[i] && r'[j] == rect;
      }
    }
    forall q, i | q in b' && 0 <= i < |r'| ensures Disjoint(b'[q], r'[i]) {
      if i < |rects| {
        assert r'[i] == rects[i];
      }
    }
  }

  /** Moving the rectangle of plate p from the builder to the finished list keeps every
      covered cell covered. */
  lemma RemoveKeepsCover(stack: seq<seq<Plate>>, y: int, p: Plate, builder: map<Plate, Rect>, rects: seq<Rect>)
    requires 0 <= y <= |stack| && p in builder
    requires CoveredUpTo(stack, rects, builder, y)
    ensures CoveredUpTo(stack, rects + [builder[p]], builder - {p}, y)
  {
    var rect := builder[p];
    var b', r' := builder - {p}, rects + [rect];
    forall yy, x | 0 <= yy < y && InRow(stack[yy], x)
      ensures Covered(r', x, yy) || BuilderCovers(b', x, yy)
    {
      if Covered(rects, x, yy) {
        var i :| 0 <= i < |rects| && InRect(rects[i], x, yy);
        assert r'[i] == rects[i];
      } else {
        var q :| q in builder && InRect(builder[q], x, yy);
        if q == p {
          assert r'[|rects|] == rect;
        } else {
          assert q in b';
        }
      }
    }
  }

  /** A plate still present, or one already finished, changes nothing. */
  lemma FinishKeep(stack: seq<seq<Plate>>, y: int, prevRow: seq<Plate>, k: int,
                   builder: map<Plate, Rect>, rects: seq<Rect>)
    requires FinishInv(stack, y, prevRow, k, builder, rects) && k < |prevRow|
    requires prevRow[k] in stack[y] || prevRow[k] !in builder
    ensures FinishInv(stack, y, prevRow, k + 1, builder, rects)
  {
    ScannedPrevKeep(prevRow, stack[y], k, builder);
  }

  lemma FinishDone(stack: seq<seq<Plate>>, y: int, prevRow: seq<Plate>, builder: map<Plate, Rect>, rects: seq<Rect>)
    requires FinishInv(stack, y, prevRow, |prevRow|, builder, rects)
    ensures HalfInv(stack, y, prevRow, builder, rects)
  {
  }

  /** The first inner loop of the merge (tilemap.rs:192-199): every plate of the previous row
      that is missing from the current row finishes its rectangle. */
  method FinishRects(stack: seq<seq<Plate>>, y: nat, prevRow: seq<Plate>, currentRow: seq<Plate>,
                     builder: map<Plate, Rect>, rects: seq<Rect>)
    returns (builder': map<Plate, Rect>, rects': seq<Rect>)
    requires MergeInv(stack, y, prevRow, builder, rects) && y < |stack| && currentRow == stack[y]
    ensures HalfInv(stack, y, prevRow, builder', rects')
  {
    builder', rects' := builder, rects;
    FinishStart(stack, y, prevRow, builder, rects);
    var k := 0;
    while k < |prevRow|
      invariant FinishInv(stack, y, prevRow, k, builder', rects')
    {
      var prevPlate := prevRow[k];
      if prevPlate !in currentRow && prevPlate in builder' {
        var rect := builder'[prevPlate];
        var nextB, nextR := builder' - {prevPlate}, rects' + [rect];
        FinishRemove(stack, y, prevRow, k, builder', rects', nextB, nextR);
        builder', rects' := nextB, nextR;
      } else {
        FinishKeep(stack, y, prevRow, k, builder', rects');
      }
      k := k + 1;
    }
    FinishDone(stack, y, prevRow, builder', rects');
  }

  /** The state of the second inner loop at row y after the plates stack[y][..j]. */
  ghost predicate ExtendInv(stack: seq<seq<Plate>>, y: int, prevRow: seq<Plate>, j: int,
                            builder: map<Plate, Rect>, rects: seq<Rect>)
  {
    && 0 <= y < |stack| && AllSeparated(stack)
    && prevRow == (if y == 0 then [] else stack[y - 1])
    && 0 <= j <= |stack[y]|
    && (forall p :: p in builder <==> (p in prevRow && p in stack[y]) || p in stack[y][..j])
    && (forall p :: p in builder ==>
          && PlateOf(builder[p]) == p && Seg(stack, builder[p]) && BottomMax(stack, builder[p])
          && builder[p].top == if p in stack[y][..j] then y else y - 1)
    && (forall i :: 0 <= i < |rects| ==> Finished(stack, rects[i], y + 1))
    && AllDisjoint(rects) && BuilderDisjoint(builder, rects)
    && CoveredUpTo(stack, rects, builder, y)
    && (forall jj, x :: 0 <= jj < j && InPlate(stack[y][jj], x) ==> BuilderCovers(builder, x, y))
  }

  lemma ExtendStart(stack: seq<seq<Plate>>, y: int, prevRow: seq<Plate>, builder: map<Plate, Rect>, rects: seq<Rect>)
    requires HalfInv(stack, y, prevRow, builder, rects)
    ensures ExtendInv(stack, y, prevRow, 0, builder, rects)
  {
  }

  /** A plate in progress grows by one row. */
  lemma ExtendGrow(stack: seq<seq<Plate>>, y: int, prevRow: seq<Plate>, j: int,
                   builder: map<Plate, Rect>, b': map<Plate, Rect>, rects: seq<Rect>)
    requires ExtendInv(stack, y, prevRow, j, builder, rects) && j < |stack[y]|
    requires stack[y][j] in builder
    requires var p := stack[y][j]; b' == builder[p := builder[p].(top := builder[p].top + 1)]
    ensures ExtendInv(stack, y, prevRow, j + 1, b', rects)
  {
    var row := stack[y];
    var p := row[j];
    var grown := b'[p];
    assert row[..j + 1] == row[..j] + [p];
    assert RowSeparated(stack, y);
    SeparatedDistinct(row, j);
    forall i | 0 <= i < |rects| ensures Disjoint(grown, rects[i]) {
      GrowKeepsDisjoint(builder[p], rects[i], y);
    }
    ExtendCover(stack, y, j, builder, b', rects);
  }

  /** A plate not in progress starts a one-row rectangle. */
  lemma ExtendInsert(stack: seq<seq<Plate>>, y: int, prevRow: seq<Plate>, j: int,
                     builder: map<Plate, Rect>, b': map<Plate, Rect>, rects: seq<Rect>)
    requires ExtendInv(stack, y, prevRow, j, builder, rects) && j < |stack[y]|
    requires stack[y][j] !in builder
    requires var p := stack[y][j]; b' == builder[p := Rect(p.left, p.right, y, y)]
    ensures ExtendInv(stack, y, prevRow, j + 1, b', rects)
  {
    var row := stack[y];
    var p := row[j];
    assert row[..j + 1] == row[..j] + [p];
    assert RowSeparated(stack, y);
    SeparatedDistinct(row, j);
    ExtendCover(stack, y, j, builder, b', rects);
  }

  /** Replacing the rectangle of plate stack[y][j] by one that also covers row y keeps every
      covered cell covered and adds the cells of that plate in row y. */
  lemma ExtendCover(stack: seq<seq<Plate>>, y: int, j: int,
                    builder: map<Plate, Rect>, b': map<Plate, Rect>, rects: seq<Rect>)
    requires 0 <= y < |stack| && 0 <= j < |stack[y]|
    requires CoveredUpTo(stack, rects, builder, y)
    requires forall jj, x :: 0 <= jj < j && InPlate(stack[y][jj], x) ==> BuilderCovers(builder, x, y)
    requires forall q :: q in builder ==> q in b'
    requires forall q, x, yy :: q in builder && InRect(builder[q], x, yy) && yy <= y ==> InRect(b'[q], x, yy)
    requires var p := stack[y][j]; p in b' && b'[p].left == p.left && b'[p].right == p.right
    requires var p := stack[y][j]; b'[p].bottom <= y == b'[p].top
    ensures CoveredUpTo(stack, rects, b', y)
    ensures forall jj, x :: 0 <= jj < j + 1 && InPlate(stack[y][jj], x) ==> BuilderCovers(b', x, y)
  {
    forall yy, x | 0 <= yy < y && InRow(stack[yy], x)
      ensures Covered(rects, x, yy) || BuilderCovers(b', x, yy)
    {
      if !Covered(rects, x, yy) {
        var q :| q in builder && InRect(builder[q], x, yy);
        assert InRect(b'[q], x, yy);
      }
    }
    forall jj, x | 0 <= jj < j + 1 && InPlate(stack[y][jj], x)
      ensures BuilderCovers(b', x, y)
    {
      if jj < j {
        assert BuilderCovers(builder, x, y);
        var q :| q in builder && InRect(builder[q], x, y);
        assert InRect(b'[q], x, y);
      } else {
        assert InRect(b'[stack[y][j]], x, y);
      }
    }
  }

  lemma ExtendDone(stack: seq<seq<Plate>>, y: int, prevRow: seq<Plate>, builder: map<Plate, Rect>, rects: seq<Rect>)
    requires 0 <= y < |stack| && ExtendInv(stack, y, prevRow, |stack[y]|, builder, rects)
    ensures MergeInv(stack, y + 1, stack[y], builder, rects)
  {
    var row := stack[y];
    assert row[..|row|] == row;
    forall yy, x | 0 <= yy < y + 1 && InRow(stack[yy], x)
      ensures Covered(rects, x, yy) || BuilderCovers(builder, x, yy)
    {
      if yy == y {
        var jj :| 0 <= jj < |row| && InPlate(row[jj], x);
      }
    }
  }

  /** The second inner loop of the merge (tilemap.rs:200-210): a plate already in progress grows
      by one row, any other plate starts a new one-row rectangle. */
  method ExtendRects(stack: seq<seq<Plate>>, y: nat, prevRow: seq<Plate>, currentRow: seq<Plate>,
                     builder: map<Plate, Rect>, rects: seq<Rect>)
    returns (builder': map<Plate, Rect>)
    requires HalfInv(stack, y, prevRow, builder, rects) && currentRow == stack[y]
    ensures MergeInv(stack, y + 1, currentRow, builder', rects)
  {
    builder' := builder;
    ExtendStart(stack, y, prevRow, builder, rects);
    var j := 0;
    while j < |currentRow|
      invariant ExtendInv(stack, y, prevRow, j, builder', rects)
    {
      var plate := currentRow[j];
      var next: map<Plate, Rect>;
      if plate in builder' {
        next := builder'[plate := builder'[plate].(top := builder'[plate].top + 1)];
        ExtendGrow(stack, y, prevRow, j, builder', next, rects);
      } else {
        next := builder'[plate := Rect(plate.left, plate.right, y, y)];
        ExtendInsert(stack, y, prevRow, j, builder', next, rects);
      }
      builder' := next;
      j := j + 1;
    }
    ExtendDone(stack, y, prevRow, builder', rects);
  }

  /** Rectangles from plates (tilemap.rs:184-212). The plates of consecutive rows are compared
      through an extra empty row after the last, which finishes every rectangle still in
      progress. Every emitted rectangle is a maximal vertical run of one plate; they are
      pairwise disjoint and cover every plate cell. */
  method MergePlates(plateStack: seq<seq<Plate>>) returns (wallRects: seq<Rect>)
    requires AllSeparated(plateStack)
    ensures AllDisjoint(wallRects)
    ensures forall i :: 0 <= i < |wallRects| ==> Seg(plateStack, wallRects[i])
    ensures forall i :: 0 <= i < |wallRects| ==> MaximalRun(plateStack, wallRects[i])
    ensures forall y, x :: 0 <= y < |plateStack| && InRow(plateStack[y], x) ==> Covered(wallRects, x, y)
  {
    var stack := plateStack + [[]];
    forall yy | 0 <= yy < |stack| ensures RowSeparated(stack, yy) {
      if yy < |plateStack| {
        assert stack[yy] == plateStack[yy] && RowSeparated(plateStack, yy);
      }
    }
    var rectBuilder: map<Plate, Rect> := map[];
    var prevRow: seq<Plate> := [];
    wallRects := [];
    var y := 0;
    while y < |stack|
      invariant MergeInv(stack, y, prevRow, rectBuilder, wallRects)
    {
      var currentRow := stack[y];
      rectBuilder, wallRects := FinishRects(stack, y, prevRow, currentRow, rectBuilder, wallRects);
      rectBuilder := ExtendRects(stack, y, prevRow, currentRow, rectBuilder, wallRects);
      prevRow := currentRow;
      y := y + 1;
    }
    MergeDone(plateStack, stack, prevRow, rectBuilder, wallRects);
  }

  /** After the sentinel row nothing is in progress: the finished rectangles are the result. */
  lemma MergeDone(plateStack: seq<seq<Plate>>, stack: seq<seq<Plate>>, prevRow: seq<Plate>,
                  builder: map<Plate, Rect>, rects: seq<Rect>)
    requires stack == plateStack + [[]]
    requires MergeInv(stack, |stack|, prevRow, builder, rects)
    ensures AllDisjoint(rects)
    ensures forall i :: 0 <= i < |rects| ==> Seg(plateStack, rects[i])
    ensures forall i :: 0 <= i < |rects| ==> MaximalRun(plateStack, rects[i])
    ensures forall y, x :: 0 <= y < |plateStack| && InRow(plateStack[y], x) ==> Covered(rects, x, y)
  {
    assert builder == map[];
    assert forall yy :: 0 <= yy < |plateStack| ==> stack[yy] == plateStack[yy];
    forall i | 0 <= i < |rects| ensures Seg(plateStack, rects[i]) {
      var r := rects[i];
      forall yy | r.bottom <= yy <= r.top ensures HasPlate(plateStack, yy, PlateOf(r)) {
        assert HasPlate(stack, yy, PlateOf(r));
      }
    }
    forall y', x | 0 <= y' < |plateStack| && InRow(plateStack[y'], x)
      ensures Covered(rects, x, y')
    {
      assert InRow(stack[y'], x);
    }
  }

  /** No wall sits in the scan's extra column x == width (true of every LDtk layer). */
  ghost predicate ColumnClear(walls: set<GridCoords>, width: nat, height: nat)
  {
    forall y :: 0 <= y < height ==> GridCoords(width, y) !in walls
  }

  /** The wall rectangles of a level (tilemap.rs:159-212): in bounds, pairwise disjoint, made
      only of wall cells, and covering every in-bounds wall cell. */
  method WallRects(walls: set<GridCoords>, width: nat, height: nat) returns (wallRects: seq<Rect>)
    ensures forall i :: 0 <= i < |wallRects| ==>
      0 <= wallRects[i].left <= wallRects[i].right < width && 0 <= wallRects[i].bottom <= wallRects[i].top < height
    ensures AllDisjoint(wallRects)
    ensures forall i, x, y :: 0 <= i < |wallRects| && InRect(wallRects[i], x, y) ==> GridCoords(x, y) in walls
    ensures ColumnClear(walls, width, height) ==>
      forall x, y :: 0 <= x < width && 0 <= y < height && GridCoords(x, y) in walls ==> Covered(wallRects, x, y)
  {
    var plateStack := PlateStack(walls, width, height);
    wallRects := MergePlates(plateStack);
    forall i | 0 <= i < |wallRects|
      ensures 0 <= wallRects[i].left <= wallRects[i].right < width
    {
      var r := wallRects[i];
      assert HasPlate(plateStack, r.bottom, PlateOf(r));
      var row := plateStack[r.bottom];
      var k :| 0 <= k < |row| && row[k] == PlateOf(r);
    }
    forall i, x, y | 0 <= i < |wallRects| && InRect(wallRects[i], x, y)
      ensures GridCoords(x, y) in walls
    {
      var r := wallRects[i];
      assert HasPlate(plateStack, y, PlateOf(r));
      var row := plateStack[y];
      var k :| 0 <= k < |row| && row[k] == PlateOf(r);
      assert row[k].left <= x <= row[k].right;
    }
    if ColumnClear(walls, width, height) {
      forall x, y | 0 <= x < width && 0 <= y < height && GridCoords(x, y) in walls
        ensures Covered(wallRects, x, y)
      {
        assert IsRowOfPlates(walls, width, y, plateStack[y]);
        assert InRow(plateStack[y], x);
      }
    }
  }

  /** A cell of the level lies in exactly one emitted rectangle when it is a wall. */
  lemma WallInExactlyOneRect(rects: seq<Rect>, i: int, j: int, x: int, y: int)
    requires AllDisjoint(rects)
    requires 0 <= i < |rects| && 0 <= j < |rects|
    requires InRect(rects[i], x, y) && InRect(rects[j], x, y)
    ensures i == j
  {
    if i < j {
      DisjointShareNoCell(rects[i], rects[j], x, y);
    } else if j < i {
      DisjointShareNoCell(rects[j], rects[i], x, y);
    }
  }

  // ---------------------------------------------------------------------------------------
  // Colliders
  // ---------------------------------------------------------------------------------------

  /** An axis-aligned cuboid collider: half extents and the centre of its transform. */
  datatype Cuboid = Cuboid(halfX: real, halfY: real, centerX: real, centerY: real)

  /** The collider of one wall rectangle (tilemap.rs:219-238): it spans exactly the
      rectangle's tiles, from left*gs to (right+1)*gs and from bottom*gs to (top+1)*gs. */
  function Collider(r: Rect, gridSize: int): (c: Cuboid)
    ensures c.centerX - c.halfX == r.left as real * gridSize as real
    ensures c.centerX + c.halfX == (r.right + 1) as real * gridSize as real
    ensures c.centerY - c.halfY == r.bottom as real * gridSize as real
    ensures c.centerY + c.halfY == (r.top + 1) as real * gridSize as real
  {
    var gs := gridSize as real;
    Cuboid(
      (r.right as real - r.left as real + 1.0) * gs / 2.0,
      (r.top as real - r.bottom as real + 1.0) * gs / 2.0,
      (r.left + r.right + 1) as real * gs / 2.0,
      (r.bottom + r.top + 1) as real * gs / 2.0)
  }
}
