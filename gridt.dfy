/**
 * GridT and MultiGridT (components/GridT.h): a row-major grid of cells laid
 * over the plane from an offset, with a fixed cell size, plus the cell that
 * stands for everything outside. Float lookups become real arithmetic; the
 * float-to-int conversions truncate toward zero as in C++.
 */
module Grids {
  import opened Vec

  // ---------------------------------------------------------------------
  // One axis
  // ---------------------------------------------------------------------

  /** The column (or row) getIndex computes for a coordinate d measured from the offset. */
  function Slot(d: real, size: real): int
    requires size != 0.0
  {
    Trunc(d / size)
  }

  /**
   * The column (or row) getPosition and resizeToFit compute: a coordinate
   * left of (below) the offset is first moved back by shift.
   */
  function ShiftedSlot(d: real, size: real, shift: real): int
    requires size != 0.0
  {
    if d < 0.0 then Trunc((d - shift) / size) else Trunc(d / size)
  }

  /**
   * The cell convention of getPosition: cells on the offset's side are
   * closed toward the offset, cells before it are closed away from it.
   */
  predicate Spans(d: real, c: int, size: real)
  {
    if d >= 0.0 then (c as real) * size <= d < (c as real + 1.0) * size
    else (c as real) * size < d <= (c as real + 1.0) * size
  }

  /** A coordinate lies inside a run of count cells starting at the offset. */
  predicate Within(d: real, count: int, size: real)
  {
    0.0 <= d < (count as real) * size
  }

  lemma MulMono(a: real, b: real, s: real)
    requires a <= b && s > 0.0
    ensures a * s <= b * s
  {
  }

  lemma MulStrict(a: real, b: real, s: real)
    requires a < b && s > 0.0
    ensures a * s < b * s
  {
  }

  /** Truncation on the offset's side is the floor: d lies in the cell it names. */
  lemma SlotBounds(d: real, size: real)
    requires size > 0.0 && d >= 0.0
    ensures Slot(d, size) >= 0 && Spans(d, Slot(d, size), size)
  {
    var q := d / size;
    assert d == q * size;
    TruncBounds(q);
    var c := Trunc(q) as real;
    assert c <= q < c + 1.0;
    MulMono(c, q, size);
    MulStrict(q, c + 1.0, size);
    assert Slot(d, size) as real == c;
    assert d < (c + 1.0) * size;
  }

  /** Only one cell holds a coordinate on the offset's side, and Slot names it. */
  lemma SlotUnique(d: real, size: real, k: int)
    requires size > 0.0 && d >= 0.0
    requires (k as real) * size <= d < (k as real + 1.0) * size
    ensures Slot(d, size) == k
  {
    SlotBounds(d, size);
    SpansUnique(d, size, Slot(d, size), k);
  }

  /** Shifting by the cell size puts every coordinate in the cell ShiftedSlot names. */
  lemma ShiftedSlotBounds(d: real, size: real)
    requires size > 0.0
    ensures Spans(d, ShiftedSlot(d, size, size), size)
    ensures d >= 0.0 <==> ShiftedSlot(d, size, size) >= 0
  {
    if d >= 0.0 {
      SlotBounds(d, size);
    } else {
      var q := (d - size) / size;
      assert d - size == q * size;
      assert q < -1.0 by { MulStrict(q, -1.0, size); }
      TruncBounds(q);
      var c := Trunc(q) as real;
      assert c - 1.0 < q <= c;
      MulStrict(c - 1.0, q, size);
      MulMono(q, c, size);
      assert ShiftedSlot(d, size, size) as real == c;
    }
  }

  /** The edge of cell c on one axis, as a distance from the offset. */
  function Edge(c: int, size: real): real
  {
    (c as real) * size
  }

  lemma EdgeMono(c: int, k: int, size: real)
    requires c <= k && size > 0.0
    ensures Edge(c, size) <= Edge(k, size)
  {
    MulMono(c as real, k as real, size);
  }

  lemma EdgeNext(c: int, size: real)
    ensures Edge(c + 1, size) == (c as real + 1.0) * size
  {
  }

  /** Only one cell spans a coordinate under getPosition's convention. */
  lemma SpansUnique(d: real, size: real, c: int, k: int)
    requires size > 0.0 && Spans(d, c, size) && Spans(d, k, size)
    ensures c == k
  {
    EdgeNext(c, size);
    EdgeNext(k, size);
    if d >= 0.0 {
      assert Edge(c, size) <= d < Edge(c + 1, size) && Edge(k, size) <= d < Edge(k + 1, size);
    } else {
      assert Edge(c, size) < d <= Edge(c + 1, size) && Edge(k, size) < d <= Edge(k + 1, size);
    }
    if c > k {
      EdgeMono(k + 1, c, size);
    } else if c < k {
      EdgeMono(c + 1, k, size);
    }
  }


  // ---------------------------------------------------------------------
  // Index arithmetic
  // ---------------------------------------------------------------------

  lemma CellIndexInRange(x: int, y: int, width: int, height: int)
    requires 0 <= x < width && 0 <= y < height
    ensures 0 <= y * width + x < width * height
  {
    assert y * width + x < (y + 1) * width;
    assert (y + 1) * width <= height * width by {
      var d := height - (y + 1);
      assert height * width == (y + 1) * width + d * width;
    }
  }

  lemma MulAtLeast(e: int, w: int)
    requires e >= 1 && w > 0
    ensures e * w >= w
  {
  }

  lemma DivModCell(x: int, y: int, width: int)
    requires 0 <= x < width && 0 <= y
    ensures (y * width + x) / width == y && (y * width + x) % width == x
  {
    var i := y * width + x;
    var q, r := i / width, i % width;
    assert i == q * width + r && 0 <= r < width;
    assert (q - y) * width == x - r;
    if q - y >= 1 {
      MulAtLeast(q - y, width);
    } else if y - q >= 1 {
      MulAtLeast(y - q, width);
    }
  }

  /** The cell at index i of a grid, or dflt when there is none. */
  function At<T>(cells: seq<T>, i: int, dflt: T): T
  {
    if 0 <= i < |cells| then cells[i] else dflt
  }

  /** Cell (x, y) of a row-major grid countX wide, or dflt when there is none. */
  function CellAt<T>(cells: seq<T>, countX: int, x: int, y: int, dflt: T): T
  {
    At(cells, y * countX + x, dflt)
  }

  // ---------------------------------------------------------------------
  // getIndex and getPosition
  // ---------------------------------------------------------------------

  /** getIndex: -1 left of or below the offset, or past the last column or row. */
  function IndexOf(offset: Vec2, cellSize: Vec2, countX: int, countY: int, position: Vec2): int
    requires cellSize.x != 0.0 && cellSize.y != 0.0
  {
    if position.x < offset.x then -1
    else if position.y < offset.y then -1
    else
      var ix := Slot(position.x - offset.x, cellSize.x);
      var iy := Slot(position.y - offset.y, cellSize.y);
      if ix >= countX then -1
      else if iy >= countY then -1
      else iy * countX + ix
  }

  /** Cell (ix, iy) covers the half-open box from its lower left corner. */
  predicate InCell(offset: Vec2, cellSize: Vec2, ix: int, iy: int, p: Vec2)
  {
    offset.x + (ix as real) * cellSize.x <= p.x < offset.x + (ix as real + 1.0) * cellSize.x &&
    offset.y + (iy as real) * cellSize.y <= p.y < offset.y + (iy as real + 1.0) * cellSize.y
  }

  /** The position lies on the grid at all. */
  predicate Covered(offset: Vec2, cellSize: Vec2, countX: int, countY: int, p: Vec2)
  {
    Within(p.x - offset.x, countX, cellSize.x) && Within(p.y - offset.y, countY, cellSize.y)
  }

  /** Along one axis a coordinate is on the grid exactly when its slot is. */
  lemma AxisWithin(d: real, count: int, size: real)
    requires size > 0.0
    ensures (d >= 0.0 && Slot(d, size) < count) <==> Within(d, count, size)
  {
    if d >= 0.0 {
      var c := Slot(d, size);
      SlotBounds(d, size);
      assert (c as real) * size <= d < (c as real + 1.0) * size;
      if c < count {
        LessThanCount(d, c, count, size);
      } else {
        assert count as real <= c as real;
        MulMono(count as real, c as real, size);
      }
    }
  }

  lemma LessThanCount(d: real, c: int, count: int, size: real)
    requires size > 0.0 && c < count && d < (c as real + 1.0) * size
    ensures d < (count as real) * size
  {
    MulMono(c as real + 1.0, count as real, size);
  }

  /** getIndex is valid exactly on the grid. */
  lemma IndexOfCovered(offset: Vec2, cellSize: Vec2, countX: int, countY: int, p: Vec2)
    requires cellSize.x > 0.0 && cellSize.y > 0.0
    ensures IndexOf(offset, cellSize, countX, countY, p) >= 0 <==> Covered(offset, cellSize, countX, countY, p)
  {
    AxisWithin(p.x - offset.x, countX, cellSize.x);
    AxisWithin(p.y - offset.y, countY, cellSize.y);
    if Covered(offset, cellSize, countX, countY, p) {
      SlotBounds(p.x - offset.x, cellSize.x);
      SlotBounds(p.y - offset.y, cellSize.y);
    }
  }

  /** A valid index of getIndex names the cell containing the position. */
  lemma IndexOfCell(offset: Vec2, cellSize: Vec2, countX: nat, countY: nat, p: Vec2)
    requires cellSize.x > 0.0 && cellSize.y > 0.0
    ensures var r := IndexOf(offset, cellSize, countX, countY, p);
            (r == -1 || 0 <= r < countX * countY) &&
            (r >= 0 ==> InCell(offset, cellSize, r % countX, r / countX, p))
  {
    var r := IndexOf(offset, cellSize, countX, countY, p);
    if r != -1 {
      var dx, dy := p.x - offset.x, p.y - offset.y;
      var ix, iy := Slot(dx, cellSize.x), Slot(dy, cellSize.y);
      AxisInCell(p.x, offset.x, cellSize.x);
      AxisInCell(p.y, offset.y, cellSize.y);
      CellIndexInRange(ix, iy, countX, countY);
      DivModCell(ix, iy, countX);
    }
  }

  /** Any cell of the grid containing the position is the one getIndex names. */
  lemma IndexOfUnique(offset: Vec2, cellSize: Vec2, countX: nat, countY: nat, p: Vec2, ix: int, iy: int)
    requires cellSize.x > 0.0 && cellSize.y > 0.0
    requires 0 <= ix < countX && 0 <= iy < countY && InCell(offset, cellSize, ix, iy, p)
    ensures IndexOf(offset, cellSize, countX, countY, p) == iy * countX + ix
  {
    MulMono(0.0, ix as real, cellSize.x);
    MulMono(0.0, iy as real, cellSize.y);
    SlotUnique(p.x - offset.x, cellSize.x, ix);
    SlotUnique(p.y - offset.y, cellSize.y, iy);
  }

  /**
   * getIndex is -1 or a valid index; it is valid exactly on the grid; a
   * valid index names the cell that contains the position, and any
   * cell of the grid containing the position is the one named.
   */
  lemma IndexOfLaws(offset: Vec2, cellSize: Vec2, countX: nat, countY: nat, p: Vec2)
    requires cellSize.x > 0.0 && cellSize.y > 0.0
    ensures var r := IndexOf(offset, cellSize, countX, countY, p);
            (r == -1 || 0 <= r < countX * countY) &&
            (r >= 0 <==> Covered(offset, cellSize, countX, countY, p)) &&
            (r >= 0 ==> InCell(offset, cellSize, r % countX, r / countX, p)) &&
            (forall ix, iy :: 0 <= ix < countX && 0 <= iy < countY && InCell(offset, cellSize, ix, iy, p) ==>
               r == iy * countX + ix)
  {
    IndexOfCovered(offset, cellSize, countX, countY, p);
    IndexOfCell(offset, cellSize, countX, countY, p);
    forall ix, iy | 0 <= ix < countX && 0 <= iy < countY && InCell(offset, cellSize, ix, iy, p)
      ensures IndexOf(offset, cellSize, countX, countY, p) == iy * countX + ix
    {
      IndexOfUnique(offset, cellSize, countX, countY, p, ix, iy);
    }
  }

  /** getPosition: the centre of the cell the position falls in. */
  function PositionOf(offset: Vec2, cellSize: Vec2, position: Vec2): Vec2
    requires cellSize.x != 0.0 && cellSize.y != 0.0
  {
    var ix := ShiftedSlot(position.x - offset.x, cellSize.x, cellSize.x);
    var iy := ShiftedSlot(position.y - offset.y, cellSize.y, cellSize.y);
    Add(Add(offset, Mul(cellSize, Vec2(ix as real, iy as real))), Scale(cellSize, 0.5))
  }

  /** The centre of cell (ix, iy). */
  function Centre(offset: Vec2, cellSize: Vec2, ix: int, iy: int): Vec2
  {
    Vec2(offset.x + CentreOf(ix, cellSize.x), offset.y + CentreOf(iy, cellSize.y))
  }

  /** The middle of cell c along one axis, measured from the offset. */
  function CentreOf(c: int, size: real): real
  {
    (c as real + 0.5) * size
  }

  /** The centre of the cell getPosition picks along one axis is in that same cell. */
  lemma AxisCentre(d: real, size: real)
    requires size > 0.0
    ensures ShiftedSlot(CentreOf(ShiftedSlot(d, size, size), size), size, size) == ShiftedSlot(d, size, size)
  {
    var c := ShiftedSlot(d, size, size);
    var e := CentreOf(c, size);
    ShiftedSlotBounds(d, size);
    CentreSpans(d, c, size);
    ShiftedSlotBounds(e, size);
    SpansUnique(e, size, c, ShiftedSlot(e, size, size));
    assert ShiftedSlot(e, size, size) == c;
  }

  /** getPosition's sum is the centre of cell (ix, iy). */
  lemma CentreForm(offset: Vec2, cellSize: Vec2, ix: int, iy: int)
    ensures Add(Add(offset, Mul(cellSize, Vec2(ix as real, iy as real))), Scale(cellSize, 0.5)) == Centre(offset, cellSize, ix, iy)
  {
  }

  /**
   * getPosition returns the centre of the one cell spanning the position
   * (on the grid's side of the offset that is the cell getIndex names),
   * and a centre maps to itself.
   */
  lemma PositionOfIsCentre(offset: Vec2, cellSize: Vec2, p: Vec2)
    requires cellSize.x > 0.0 && cellSize.y > 0.0
    ensures forall ix, iy :: Spans(p.x - offset.x, ix, cellSize.x) && Spans(p.y - offset.y, iy, cellSize.y) ==>
              PositionOf(offset, cellSize, p) == Centre(offset, cellSize, ix, iy)
    ensures PositionOf(offset, cellSize, PositionOf(offset, cellSize, p)) == PositionOf(offset, cellSize, p)
  {
    var dx, dy := p.x - offset.x, p.y - offset.y;
    var cx, cy := ShiftedSlot(dx, cellSize.x, cellSize.x), ShiftedSlot(dy, cellSize.y, cellSize.y);
    ShiftedSlotBounds(dx, cellSize.x);
    ShiftedSlotBounds(dy, cellSize.y);
    var c := PositionOf(offset, cellSize, p);
    CentreForm(offset, cellSize, cx, cy);
    assert c == Centre(offset, cellSize, cx, cy);
    forall ix, iy | Spans(dx, ix, cellSize.x) && Spans(dy, iy, cellSize.y)
      ensures c == Centre(offset, cellSize, ix, iy)
    {
      SpansUnique(dx, cellSize.x, cx, ix);
      SpansUnique(dy, cellSize.y, cy, iy);
    }
    AxisCentre(dx, cellSize.x);
    AxisCentre(dy, cellSize.y);
    assert c.x - offset.x == CentreOf(cx, cellSize.x);
    assert c.y - offset.y == CentreOf(cy, cellSize.y);
    CentreForm(offset, cellSize, cx, cy);
  }

  /** The centre of the cell spanning d is spanned by that cell too. */
  lemma CentreSpans(d: real, c: int, size: real)
    requires size > 0.0 && Spans(d, c, size)
    ensures Spans(CentreOf(c, size), c, size)
  {
    MulStrict(c as real, c as real + 0.5, size);
    MulStrict(c as real + 0.5, c as real + 1.0, size);
    if d >= 0.0 {
      assert c >= 0;
      MulMono(0.0, c as real + 0.5, size);
    } else {
      assert c < 0;
      assert c as real + 0.5 < 0.0;
      MulStrict(c as real + 0.5, 0.0, size);
    }
  }

  // ---------------------------------------------------------------------
  // set, update and reset on the cell list
  // ---------------------------------------------------------------------

  /** set: store value at a valid index; an invalid index changes nothing. */
  function SetCell<T>(cells: seq<T>, i: int, value: T): (r: seq<T>)
    ensures |r| == |cells|
    ensures forall k :: 0 <= k < |cells| ==> r[k] == if k == i then value else cells[k]
  {
    if 0 <= i < |cells| then cells[i := value] else cells
  }

  /** update on the cell list: (cells, whether the index changed). */
  function UpdateCells<T>(cells: seq<T>, prev: int, next: int, value: T, empty: T): (seq<T>, bool)
  {
    if prev != next then (SetCell(SetCell(cells, prev, empty), next, value), true)
    else (cells, false)
  }

  /**
   * update reports a move exactly when the indices differ; after a move the
   * new cell holds the value, the old one is emptied, and no other cell
   * changes; without a move nothing changes.
   */
  lemma UpdateCellsLaws<T>(cells: seq<T>, prev: int, next: int, value: T, empty: T)
    ensures var (r, moved) := UpdateCells(cells, prev, next, value, empty);
            |r| == |cells| &&
            (moved <==> prev != next) &&
            (!moved ==> r == cells) &&
            (moved && 0 <= next < |cells| ==> r[next] == value) &&
            (moved && 0 <= prev < |cells| ==> r[prev] == empty) &&
            (forall k :: 0 <= k < |cells| && k != prev && k != next ==> r[k] == cells[k])
  {
  }

  /** MultiGridT::set: add the value to the set of a valid cell. */
  function InsertCell<T(==)>(cells: seq<set<T>>, i: int, value: T): (r: seq<set<T>>)
    ensures |r| == |cells|
    ensures forall k :: 0 <= k < |cells| ==> r[k] == if k == i then cells[k] + {value} else cells[k]
  {
    if 0 <= i < |cells| then cells[i := cells[i] + {value}] else cells
  }

  /** MultiGridT::reset: remove the value from the set of a valid cell. */
  function EraseCell<T(==)>(cells: seq<set<T>>, i: int, value: T): (r: seq<set<T>>)
    ensures |r| == |cells|
    ensures forall k :: 0 <= k < |cells| ==> r[k] == if k == i then cells[k] - {value} else cells[k]
  {
    if 0 <= i < |cells| then cells[i := cells[i] - {value}] else cells
  }

  /** MultiGridT::update on the cell list: (cells, whether the index changed). */
  function MultiUpdateCells<T(==)>(cells: seq<set<T>>, prev: int, next: int, value: T): (seq<set<T>>, bool)
  {
    if prev != next then (InsertCell(EraseCell(cells, prev, value), next, value), true)
    else (cells, false)
  }

  /** The value is in exactly the cell at index i (nowhere when i is invalid). */
  predicate OnlyIn<T(==)>(cells: seq<set<T>>, i: int, value: T)
  {
    forall k :: 0 <= k < |cells| ==> (value in cells[k] <==> k == i)
  }

  /**
   * A value kept in the cell of its previous position is, after update, in
   * the cell of its new position and nowhere else; other values stay
   * where they were.
   */
  lemma MultiUpdateTracks<T>(cells: seq<set<T>>, prev: int, next: int, value: T)
    requires OnlyIn(cells, prev, value)
    ensures var (r, moved) := MultiUpdateCells(cells, prev, next, value);
            (moved <==> prev != next) &&
            OnlyIn(r, next, value) &&
            (forall k, v :: 0 <= k < |cells| && v != value ==> (v in r[k] <==> v in cells[k]))
  {
  }

  // ---------------------------------------------------------------------
  // resizeToFit
  // ---------------------------------------------------------------------

  /** The fields resizeToFit reads and writes. */
  datatype Layout<T> = Layout(countX: int, countY: int, offset: Vec2, cellSize: Vec2, cells: seq<T>)

  predicate Shaped<T>(l: Layout<T>)
  {
    l.countX >= 0 && l.countY >= 0 && l.cellSize.x > 0.0 && l.cellSize.y > 0.0 &&
    |l.cells| == l.countX * l.countY
  }

  /**
   * How one axis grows for cell i of count: (new count, cells added in
   * front). Past the end it grows to i + 1; before the start by -i cells.
   */
  function AxisGrowth(i: int, count: int): (int, int)
  {
    var n := if i >= count then i + 1 else count;
    if i < 0 then (count - i, -i) else (n, 0)
  }

  /** Growth never shrinks an axis and always brings the cell into range. */
  lemma AxisGrowthLaws(i: int, count: int)
    requires count >= 0
    ensures var n, front := AxisGrowth(i, count).0, AxisGrowth(i, count).1;
            n >= count && front >= 0 && n == count + front + (if i >= count then i + 1 - count else 0) &&
            0 <= i + front < n &&
            (0 <= i < count ==> n == count && front == 0)
  {
  }

  /**
   * The copy loop: new cell (x, y) takes old cell (x + dx, y + dy) when that
   * exists, and is empty otherwise.
   */
  function Copy<T>(cells: seq<T>, countX: int, countY: int, newX: int, newY: int, dx: int, dy: int, empty: T): (r: seq<T>)
    requires 0 <= countX && 0 <= countY && |cells| == countX * countY
    requires newX >= 0 && newY >= 0
    ensures |r| == newX * newY
  {
    seq(newX * newY, i requires 0 <= i < newX * newY =>
      var x, y := i % newX, i / newX;
      var oldX, oldY := x + dx, y + dy;
      if 0 <= oldY < countY && 0 <= oldX < countX then
        CellIndexInRange(oldX, oldY, countX, countY);
        cells[oldY * countX + oldX]
      else empty)
  }

  /** Entry y * newX + x of a copy is the one for (x, y). */
  lemma CopyAt<T>(cells: seq<T>, countX: int, countY: int, newX: int, newY: int, dx: int, dy: int, empty: T, x: int, y: int)
    requires 0 <= countX && 0 <= countY && |cells| == countX * countY
    requires 0 <= x < newX && 0 <= y < newY
    ensures 0 <= y * newX + x < newX * newY
    ensures var oldX, oldY := x + dx, y + dy;
            Copy(cells, countX, countY, newX, newY, dx, dy, empty)[y * newX + x] ==
              if 0 <= oldY < countY && 0 <= oldX < countX then At(cells, oldY * countX + oldX, empty) else empty
  {
    CellIndexInRange(x, y, newX, newY);
    DivModCell(x, y, newX);
    if 0 <= y + dy < countY && 0 <= x + dx < countX {
      CellIndexInRange(x + dx, y + dy, countX, countY);
    }
  }

  /**
   * The grid after growing to nx by ny cells with (ox, oy) of them added in
   * front, new cell (x, y) copied from old cell (x + dx, y + dy).
   */
  function Grown<T>(l: Layout<T>, nx: int, ny: int, ox: int, oy: int, dx: int, dy: int, empty: T): (r: Layout<T>)
    requires Shaped(l) && nx >= 0 && ny >= 0
  {
    Layout(nx, ny, Sub(l.offset, Mul(l.cellSize, Vec2(ox as real, oy as real))), l.cellSize,
           Copy(l.cells, l.countX, l.countY, nx, ny, dx, dy, empty))
  }

  /**
   * resizeToFit as written: the row below the offset is found with the
   * x cell size, and after growing by (ox, oy) cells in front the copy
   * reads old cell (x + ox, y + oy) for new cell (x, y).
   */
  function ResizeAsWritten<T>(l: Layout<T>, position: Vec2, empty: T): Layout<T>
    requires Shaped(l)
  {
    var ix := ShiftedSlot(position.x - l.offset.x, l.cellSize.x, l.cellSize.x);
    var iy := ShiftedSlot(position.y - l.offset.y, l.cellSize.y, l.cellSize.x);
    if 0 <= ix < l.countX && 0 <= iy < l.countY then l
    else
      var nx, ox := AxisGrowth(ix, l.countX).0, AxisGrowth(ix, l.countX).1;
      var ny, oy := AxisGrowth(iy, l.countY).0, AxisGrowth(iy, l.countY).1;
      AxisGrowthLaws(ix, l.countX);
      AxisGrowthLaws(iy, l.countY);
      Grown(l, nx, ny, ox, oy, ox, oy, empty)
  }

  /**
   * resizeToFit as intended: the row is found with the y cell size and old
   * cell (x, y) moves to new cell (x + ox, y + oy), matching the shift of
   * the offset.
   */
  function Resized<T>(l: Layout<T>, position: Vec2, empty: T): (r: Layout<T>)
    requires Shaped(l)
    ensures Shaped(r)
  {
    GrownFor(l, ShiftedSlot(position.x - l.offset.x, l.cellSize.x, l.cellSize.x),
             ShiftedSlot(position.y - l.offset.y, l.cellSize.y, l.cellSize.y), empty)
  }

  /** The corrected grid for a position in cell (ix, iy) of the old one. */
  function GrownFor<T>(l: Layout<T>, ix: int, iy: int, empty: T): (r: Layout<T>)
    requires Shaped(l)
    ensures Shaped(r)
  {
    if 0 <= ix < l.countX && 0 <= iy < l.countY then l
    else
      var nx, ox := AxisGrowth(ix, l.countX).0, AxisGrowth(ix, l.countX).1;
      var ny, oy := AxisGrowth(iy, l.countY).0, AxisGrowth(iy, l.countY).1;
      AxisGrowthLaws(ix, l.countX);
      AxisGrowthLaws(iy, l.countY);
      Grown(l, nx, ny, ox, oy, -ox, -oy, empty)
  }

  /** What get returns for a position on a layout. */
  function GetAt<T>(l: Layout<T>, p: Vec2, outside: T): T
    requires l.cellSize.x != 0.0 && l.cellSize.y != 0.0
  {
    At(l.cells, IndexOf(l.offset, l.cellSize, l.countX, l.countY, p), outside)
  }

  /**
   * Both versions leave a grid alone when the position is already on it,
   * and neither ever removes a column or a row.
   */
  lemma ResizeKeepsCoveredGrid<T>(l: Layout<T>, position: Vec2, empty: T)
    requires Shaped(l)
    ensures IndexOf(l.offset, l.cellSize, l.countX, l.countY, position) >= 0 ==>
              ResizeAsWritten(l, position, empty) == l && Resized(l, position, empty) == l
    ensures ResizeAsWritten(l, position, empty).countX >= l.countX && ResizeAsWritten(l, position, empty).countY >= l.countY
    ensures Resized(l, position, empty).countX >= l.countX && Resized(l, position, empty).countY >= l.countY
  {
    var ix := ShiftedSlot(position.x - l.offset.x, l.cellSize.x, l.cellSize.x);
    var iy := ShiftedSlot(position.y - l.offset.y, l.cellSize.y, l.cellSize.y);
    AxisGrowthLaws(ix, l.countX);
    AxisGrowthLaws(iy, l.countY);
    AxisGrowthLaws(ShiftedSlot(position.y - l.offset.y, l.cellSize.y, l.cellSize.x), l.countY);
    if IndexOf(l.offset, l.cellSize, l.countX, l.countY, position) >= 0 {
      SlotBounds(position.x - l.offset.x, l.cellSize.x);
      SlotBounds(position.y - l.offset.y, l.cellSize.y);
    }
  }

  /**
   * As written, growing only right or up keeps the offset and every old
   * cell at its column and row.
   */
  lemma ResizeRightUpKeepsCells<T>(l: Layout<T>, position: Vec2, empty: T)
    requires Shaped(l)
    requires position.x >= l.offset.x && position.y >= l.offset.y
    ensures var r := ResizeAsWritten(l, position, empty);
            r.offset == l.offset &&
            forall x, y :: 0 <= x < l.countX && 0 <= y < l.countY ==>
              CellAt(r.cells, r.countX, x, y, empty) == CellAt(l.cells, l.countX, x, y, empty)
  {
    var r := ResizeAsWritten(l, position, empty);
    var ix := ShiftedSlot(position.x - l.offset.x, l.cellSize.x, l.cellSize.x);
    var iy := ShiftedSlot(position.y - l.offset.y, l.cellSize.y, l.cellSize.x);
    SlotBounds(position.x - l.offset.x, l.cellSize.x);
    SlotBounds(position.y - l.offset.y, l.cellSize.y);
    AxisGrowthLaws(ix, l.countX);
    AxisGrowthLaws(iy, l.countY);
    if !(0 <= ix < l.countX && 0 <= iy < l.countY) {
      forall x, y | 0 <= x < l.countX && 0 <= y < l.countY
        ensures CellAt(r.cells, r.countX, x, y, empty) == CellAt(l.cells, l.countX, x, y, empty)
      {
        CopyAt(l.cells, l.countX, l.countY, r.countX, r.countY, 0, 0, empty, x, y);
      }
    }
  }

  /**
   * As written, growing left loses contents: cells [1, 2] at offset 0
   * grown by one column for x = -0.5 become [2, 0, 0] with the offset at
   * -1, so the point (0.5, 0.5), which read 1, now reads 0.
   */
  lemma ResizeLeftMovesContents()
    ensures var l := Layout(2, 1, Vec2(0.0, 0.0), Vec2(1.0, 1.0), [1, 2]);
            var r := ResizeAsWritten(l, Vec2(-0.5, 0.5), 0);
            r.cells == [2, 0, 0] && r.offset == Vec2(-1.0, 0.0) &&
            GetAt(l, Vec2(0.5, 0.5), 9) == 1 && GetAt(r, Vec2(0.5, 0.5), 9) == 0
  {
    var l := Layout(2, 1, Vec2(0.0, 0.0), Vec2(1.0, 1.0), [1, 2]);
    var r := ResizeAsWritten(l, Vec2(-0.5, 0.5), 0);
    assert Trunc((-0.5 - 1.0) / 1.0) == -1;
    assert r.countX == 3 && r.countY == 1;
    CopyAt(l.cells, 2, 1, 3, 1, 1, 0, 0, 0, 0);
    CopyAt(l.cells, 2, 1, 3, 1, 1, 0, 0, 1, 0);
    CopyAt(l.cells, 2, 1, 3, 1, 1, 0, 0, 2, 0);
    assert r.cells == [2, 0, 0];
    assert Trunc(1.5 / 1.0) == 1;
    assert Trunc(0.5 / 1.0) == 0;
  }

  /**
   * As written, a row below the offset can be computed as row 0 when the
   * cell is taller than wide: cell size (1, 10) and y = -5 leave the grid
   * as it was, and the position is still off the grid.
   */
  lemma ResizeDownMissesPosition()
    ensures var l := Layout(1, 1, Vec2(0.0, 0.0), Vec2(1.0, 10.0), [7]);
            var p := Vec2(0.5, -5.0);
            ResizeAsWritten(l, p, 0) == l && IndexOf(l.offset, l.cellSize, 1, 1, p) == -1
  {
    assert Trunc((-5.0 - 1.0) / 10.0) == 0;
    assert Trunc(0.5 / 1.0) == 0;
  }

  /** After growing an axis for the cell of d, d lies within the grown axis. */
  lemma AxisGrowthCovers(p: real, offset: real, count: int, size: real)
    requires count >= 0 && size > 0.0
    ensures var g := AxisGrowth(ShiftedSlot(p - offset, size, size), count);
            Within(p - (offset - size * (g.1 as real)), g.0, size)
  {
    var d := p - offset;
    var i := ShiftedSlot(d, size, size);
    ShiftedSlotBounds(d, size);
    AxisGrowthLaws(i, count);
    var n, front := AxisGrowth(i, count).0, AxisGrowth(i, count).1;
    if d >= 0.0 {
      CoversAhead(d, i, n, size);
      assert p - (offset - size * (front as real)) == d;
    } else {
      CoversBehind(d, i, n, size);
      assert p - (offset - size * (front as real)) == d + ((-i) as real) * size;
    }
  }

  /** The axis form of AxisGrowthCovers, for a grid whose count and offset are those of the growth. */
  lemma GrownAxisWithin(p: real, offset: real, count: int, size: real, i: int, n: int, newOffset: real)
    requires count >= 0 && size > 0.0 && i == ShiftedSlot(p - offset, size, size)
    requires n == AxisGrowth(i, count).0 && newOffset == offset - size * (AxisGrowth(i, count).1 as real)
    ensures Within(p - newOffset, n, size)
  {
    AxisGrowthCovers(p, offset, count, size);
  }

  /** A coordinate on the offset's side in cell i lies within any run of more than i cells. */
  lemma CoversAhead(d: real, i: int, n: int, size: real)
    requires size > 0.0 && d >= 0.0 && Spans(d, i, size) && i + 1 <= n
    ensures Within(d, n, size)
  {
    EdgeNext(i, size);
    EdgeMono(i + 1, n, size);
  }

  /** A coordinate in cell i < 0 lies within a run of n >= -i cells once moved forward by -i cells. */
  lemma CoversBehind(d: real, i: int, n: int, size: real)
    requires size > 0.0 && d < 0.0 && Spans(d, i, size) && i < 0 && -i <= n
    ensures Within(d + ((-i) as real) * size, n, size)
  {
    EdgeNext(i, size);
    assert Edge(i, size) < d;
    assert Edge(i, size) + Edge(-i, size) == 0.0;
    EdgeMono(-i, n, size);
    assert d + Edge(-i, size) <= Edge(i + 1, size) + Edge(-i, size);
    assert Edge(i + 1, size) + Edge(-i, size) == size;
    EdgeMono(1, n, size);
  }

  /** Moving the offset back by front cells moves an on-grid coordinate forward by front cells. */
  lemma SlotAfterShift(d: real, size: real, front: int)
    requires size > 0.0 && d >= 0.0 && front >= 0
    ensures Slot(d + (front as real) * size, size) == Slot(d, size) + front
  {
    var c := Slot(d, size);
    SlotBounds(d, size);
    var e := d + (front as real) * size;
    MulMono(0.0, front as real, size);
    assert ((c + front) as real) * size == (c as real) * size + (front as real) * size;
    assert ((c + front) as real + 1.0) * size == (c as real + 1.0) * size + (front as real) * size;
    SlotUnique(e, size, c + front);
  }

  /** On the grid, getIndex is the index of the slots along both axes. */
  lemma CoveredIndex(offset: Vec2, cellSize: Vec2, countX: int, countY: int, p: Vec2)
    requires cellSize.x > 0.0 && cellSize.y > 0.0
    requires Covered(offset, cellSize, countX, countY, p)
    ensures IndexOf(offset, cellSize, countX, countY, p) ==
              Slot(p.y - offset.y, cellSize.y) * countX + Slot(p.x - offset.x, cellSize.x)
  {
    AxisWithin(p.x - offset.x, countX, cellSize.x);
    AxisWithin(p.y - offset.y, countY, cellSize.y);
  }

  /** Growing for a cell off the grid: the new counts, the same cell size, the offset moved back by the cells added in front. */
  lemma GrownForShape<T>(l: Layout<T>, ix: int, iy: int, empty: T)
    requires Shaped(l) && !(0 <= ix < l.countX && 0 <= iy < l.countY)
    ensures var gx, gy := AxisGrowth(ix, l.countX), AxisGrowth(iy, l.countY);
            var r := GrownFor(l, ix, iy, empty);
            r.countX == gx.0 && r.countY == gy.0 && r.cellSize == l.cellSize &&
            r.offset == Vec2(l.offset.x - l.cellSize.x * (gx.1 as real), l.offset.y - l.cellSize.y * (gy.1 as real))
  {
    AxisGrowthLaws(ix, l.countX);
    AxisGrowthLaws(iy, l.countY);
  }

  /** When the corrected resize grows the grid, the position lands on the grown grid. */
  lemma GrownCovers<T>(l: Layout<T>, position: Vec2, empty: T)
    requires Shaped(l)
    requires !(0 <= ShiftedSlot(position.x - l.offset.x, l.cellSize.x, l.cellSize.x) < l.countX &&
               0 <= ShiftedSlot(position.y - l.offset.y, l.cellSize.y, l.cellSize.y) < l.countY)
    ensures var r := Resized(l, position, empty);
            Covered(r.offset, r.cellSize, r.countX, r.countY, position)
  {
    GrownCoversX(l, position, empty);
    GrownCoversY(l, position, empty);
  }

  lemma GrownCoversX<T>(l: Layout<T>, position: Vec2, empty: T)
    requires Shaped(l)
    requires !(0 <= ShiftedSlot(position.x - l.offset.x, l.cellSize.x, l.cellSize.x) < l.countX &&
               0 <= ShiftedSlot(position.y - l.offset.y, l.cellSize.y, l.cellSize.y) < l.countY)
    ensures var r := Resized(l, position, empty);
            Within(position.x - r.offset.x, r.countX, r.cellSize.x)
  {
    var ix := ShiftedSlot(position.x - l.offset.x, l.cellSize.x, l.cellSize.x);
    var iy := ShiftedSlot(position.y - l.offset.y, l.cellSize.y, l.cellSize.y);
    var r := Resized(l, position, empty);
    assert r == GrownFor(l, ix, iy, empty);
    GrownForShape(l, ix, iy, empty);
    GrownAxisWithin(position.x, l.offset.x, l.countX, l.cellSize.x, ix, r.countX, r.offset.x);
  }

  lemma GrownCoversY<T>(l: Layout<T>, position: Vec2, empty: T)
    requires Shaped(l)
    requires !(0 <= ShiftedSlot(position.x - l.offset.x, l.cellSize.x, l.cellSize.x) < l.countX &&
               0 <= ShiftedSlot(position.y - l.offset.y, l.cellSize.y, l.cellSize.y) < l.countY)
    ensures var r := Resized(l, position, empty);
            Within(position.y - r.offset.y, r.countY, r.cellSize.y)
  {
    var ix := ShiftedSlot(position.x - l.offset.x, l.cellSize.x, l.cellSize.x);
    var iy := ShiftedSlot(position.y - l.offset.y, l.cellSize.y, l.cellSize.y);
    var r := Resized(l, position, empty);
    assert r == GrownFor(l, ix, iy, empty);
    GrownForShape(l, ix, iy, empty);
    GrownAxisWithin(position.y, l.offset.y, l.countY, l.cellSize.y, iy, r.countY, r.offset.y);
  }

  /** A position whose cell is in range is on the grid. */
  lemma InRangeCovered(offset: Vec2, cellSize: Vec2, countX: int, countY: int, position: Vec2)
    requires cellSize.x > 0.0 && cellSize.y > 0.0
    requires 0 <= ShiftedSlot(position.x - offset.x, cellSize.x, cellSize.x) < countX
    requires 0 <= ShiftedSlot(position.y - offset.y, cellSize.y, cellSize.y) < countY
    ensures Covered(offset, cellSize, countX, countY, position)
  {
    ShiftedSlotBounds(position.x - offset.x, cellSize.x);
    ShiftedSlotBounds(position.y - offset.y, cellSize.y);
    AxisWithin(position.x - offset.x, countX, cellSize.x);
    AxisWithin(position.y - offset.y, countY, cellSize.y);
  }

  /** The corrected resize always brings the position onto the grid. */
  lemma ResizedCovers<T>(l: Layout<T>, position: Vec2, empty: T)
    requires Shaped(l)
    ensures var r := Resized(l, position, empty);
            IndexOf(r.offset, r.cellSize, r.countX, r.countY, position) >= 0
  {
    var r := Resized(l, position, empty);
    assert Covered(r.offset, r.cellSize, r.countX, r.countY, position) by {
      if 0 <= ShiftedSlot(position.x - l.offset.x, l.cellSize.x, l.cellSize.x) < l.countX &&
         0 <= ShiftedSlot(position.y - l.offset.y, l.cellSize.y, l.cellSize.y) < l.countY {
        InRangeCovered(l.offset, l.cellSize, l.countX, l.countY, position);
      } else {
        GrownCovers(l, position, empty);
      }
    }
    IndexOfCovered(r.offset, r.cellSize, r.countX, r.countY, position);
  }

  /** Moving the offset back by (ox, oy) cells renumbers the cell holding q by (ox, oy). */
  lemma InCellAfterShift(offset: Vec2, cellSize: Vec2, ox: int, oy: int, x: int, y: int, q: Vec2)
    requires InCell(offset, cellSize, x, y, q)
    ensures InCell(Vec2(offset.x - (ox as real) * cellSize.x, offset.y - (oy as real) * cellSize.y), cellSize, x + ox, y + oy, q)
  {
    assert ((x + ox) as real) * cellSize.x == (x as real) * cellSize.x + (ox as real) * cellSize.x;
    assert ((x + ox) as real + 1.0) * cellSize.x == (x as real + 1.0) * cellSize.x + (ox as real) * cellSize.x;
    assert ((y + oy) as real) * cellSize.y == (y as real) * cellSize.y + (oy as real) * cellSize.y;
    assert ((y + oy) as real + 1.0) * cellSize.y == (y as real + 1.0) * cellSize.y + (oy as real) * cellSize.y;
  }

  /** A point on the grid lies in the cell of its slots, which is a cell of the grid. */
  lemma CoveredCell(offset: Vec2, cellSize: Vec2, countX: int, countY: int, q: Vec2)
    requires cellSize.x > 0.0 && cellSize.y > 0.0
    requires Covered(offset, cellSize, countX, countY, q)
    ensures var x, y := Slot(q.x - offset.x, cellSize.x), Slot(q.y - offset.y, cellSize.y);
            0 <= x < countX && 0 <= y < countY && InCell(offset, cellSize, x, y, q)
  {
    AxisWithin(q.x - offset.x, countX, cellSize.x);
    AxisWithin(q.y - offset.y, countY, cellSize.y);
    AxisInCell(q.x, offset.x, cellSize.x);
    AxisInCell(q.y, offset.y, cellSize.y);
  }

  /** On the offset's side, a coordinate lies in the cell its slot names. */
  lemma AxisInCell(p: real, offset: real, size: real)
    requires size > 0.0 && p - offset >= 0.0
    ensures var c := Slot(p - offset, size);
            c >= 0 && offset + (c as real) * size <= p < offset + (c as real + 1.0) * size
  {
    SlotBounds(p - offset, size);
  }

  /** Growing with the copy shifted like the offset keeps every point of the old grid reading the same. */
  lemma GrownKeepsContents<T>(l: Layout<T>, nx: int, ny: int, ox: int, oy: int, empty: T, q: Vec2, outside: T)
    requires Shaped(l) && 0 <= ox && 0 <= oy && l.countX + ox <= nx && l.countY + oy <= ny
    requires Covered(l.offset, l.cellSize, l.countX, l.countY, q)
    ensures GetAt(Grown(l, nx, ny, ox, oy, -ox, -oy, empty), q, outside) == GetAt(l, q, outside)
  {
    var x, y := Slot(q.x - l.offset.x, l.cellSize.x), Slot(q.y - l.offset.y, l.cellSize.y);
    CoveredCell(l.offset, l.cellSize, l.countX, l.countY, q);
    CoveredIndex(l.offset, l.cellSize, l.countX, l.countY, q);
    CellIndexInRange(x, y, l.countX, l.countY);
    ShiftedIndex(l.offset, l.cellSize, nx, ny, ox, oy, x, y, q);
    CopyAt(l.cells, l.countX, l.countY, nx, ny, -ox, -oy, empty, x + ox, y + oy);
  }

  /** Moving the offset back by (ox, oy) cells makes cell (x, y) cell (x + ox, y + oy) of the grown grid. */
  lemma ShiftedIndex(offset: Vec2, cellSize: Vec2, nx: int, ny: int, ox: int, oy: int, x: int, y: int, q: Vec2)
    requires cellSize.x > 0.0 && cellSize.y > 0.0
    requires 0 <= x + ox < nx && 0 <= y + oy < ny && InCell(offset, cellSize, x, y, q)
    ensures IndexOf(Sub(offset, Mul(cellSize, Vec2(ox as real, oy as real))), cellSize, nx, ny, q) == (y + oy) * nx + (x + ox)
  {
    InCellAfterShift(offset, cellSize, ox, oy, x, y, q);
    assert Sub(offset, Mul(cellSize, Vec2(ox as real, oy as real))) ==
           Vec2(offset.x - (ox as real) * cellSize.x, offset.y - (oy as real) * cellSize.y);
    IndexOfUnique(Sub(offset, Mul(cellSize, Vec2(ox as real, oy as real))), cellSize, nx, ny, q, x + ox, y + oy);
  }

  /**
   * The corrected resize keeps every point of the old grid reading what it
   * read before.
   */
  lemma ResizedKeepsContents<T>(l: Layout<T>, position: Vec2, empty: T, q: Vec2, outside: T)
    requires Shaped(l) && Covered(l.offset, l.cellSize, l.countX, l.countY, q)
    ensures GetAt(Resized(l, position, empty), q, outside) == GetAt(l, q, outside)
  {
    var ix := ShiftedSlot(position.x - l.offset.x, l.cellSize.x, l.cellSize.x);
    var iy := ShiftedSlot(position.y - l.offset.y, l.cellSize.y, l.cellSize.y);
    if !(0 <= ix < l.countX && 0 <= iy < l.countY) {
      var nx, ox := AxisGrowth(ix, l.countX).0, AxisGrowth(ix, l.countX).1;
      var ny, oy := AxisGrowth(iy, l.countY).0, AxisGrowth(iy, l.countY).1;
      AxisGrowthLaws(ix, l.countX);
      AxisGrowthLaws(iy, l.countY);
      GrownKeepsContents(l, nx, ny, ox, oy, empty, q, outside);
    }
  }

  // ---------------------------------------------------------------------
  // The grid objects
  // ---------------------------------------------------------------------

  class Grid<T> {
    var countX: int
    var countY: int
    var offset: Vec2
    var cellSize: Vec2
    var cells: seq<T>
    var outside: T
    /** The value of a default-constructed T. */
    const empty: T

    predicate Valid()
      reads this
    {
      Shaped(Current())
    }

    function Current(): Layout<T>
      reads this
    {
      Layout(countX, countY, offset, cellSize, cells)
    }

    constructor (empty: T)
      ensures Valid() && this.empty == empty && outside == empty
      ensures countX == 0 && countY == 0 && offset == Vec2(0.0, 0.0) && cellSize == Vec2(1.0, 1.0) && cells == []
    {
      this.empty := empty;
      outside := empty;
      countX, countY := 0, 0;
      offset, cellSize := Vec2(0.0, 0.0), Vec2(1.0, 1.0);
      cells := [];
    }

    /** init: a fresh countX by countY grid of empty cells. */
    method Init(offset: Vec2, cellSize: Vec2, countX: int, countY: int)
      requires countX >= 0 && countY >= 0 && cellSize.x > 0.0 && cellSize.y > 0.0
      modifies this
      ensures Valid() && outside == old(outside)
      ensures this.offset == offset && this.cellSize == cellSize && this.countX == countX && this.countY == countY
      ensures cells == seq(countX * countY, _ => empty)
    {
      this.offset := offset;
      this.cellSize := cellSize;
      this.countX := countX;
      this.countY := countY;
      cells := [];
      cells := seq(countY * countX, _ => empty);
    }

    /** get: the cell of the grid containing the position, else outside. */
    method Get(position: Vec2) returns (v: T)
      requires Valid()
      ensures forall ix, iy :: 0 <= ix < countX && 0 <= iy < countY && InCell(offset, cellSize, ix, iy, position) ==>
                v == CellAt(cells, countX, ix, iy, outside)
      ensures !Covered(offset, cellSize, countX, countY, position) ==> v == outside
    {
      var index := IndexOf(offset, cellSize, countX, countY, position);
      IndexOfLaws(offset, cellSize, countX, countY, position);
      if index >= 0 && index < |cells| {
        v := cells[index];
      } else {
        v := outside;
      }
    }

    /**
     * get(position) = value: get returns a reference to the holding cell on
     * the grid and to outside off it, so a write through it lands there and
     * the next get of the position reads it back.
     */
    method AssignThrough(position: Vec2, value: T)
      requires Valid()
      modifies this`cells, this`outside
      ensures Valid()
      ensures Covered(offset, cellSize, countX, countY, position) ==>
                cells == SetCell(old(cells), IndexOf(offset, cellSize, countX, countY, position), value) &&
                outside == old(outside)
      ensures !Covered(offset, cellSize, countX, countY, position) ==> cells == old(cells) && outside == value
      ensures forall ix, iy :: 0 <= ix < countX && 0 <= iy < countY && InCell(offset, cellSize, ix, iy, position) ==>
                CellAt(cells, countX, ix, iy, outside) == value
    {
      var index := IndexOf(offset, cellSize, countX, countY, position);
      IndexOfLaws(offset, cellSize, countX, countY, position);
      if index >= 0 && index < |cells| {
        cells := cells[index := value];
      } else {
        outside := value;
      }
    }

    /** set: store the value in the cell containing the position, if any. */
    method Set(position: Vec2, value: T)
      requires Valid()
      modifies this
      ensures Valid() && Current() == old(Current()).(cells := SetCell(old(cells), IndexOf(offset, cellSize, countX, countY, position), value))
      ensures outside == old(outside)
    {
      var index := IndexOf(offset, cellSize, countX, countY, position);
      if index >= 0 && index < |cells| {
        cells := cells[index := value];
      }
    }

    /** update: move the value from the cell of prevPosition to the cell of position. */
    method Update(position: Vec2, value: T, prevPosition: Vec2) returns (moved: bool)
      requires Valid()
      modifies this
      ensures Valid() && outside == old(outside)
      ensures countX == old(countX) && countY == old(countY) && offset == old(offset) && cellSize == old(cellSize)
      ensures (cells, moved) == UpdateCells(old(cells), IndexOf(offset, cellSize, countX, countY, prevPosition),
                                            IndexOf(offset, cellSize, countX, countY, position), value, empty)
    {
      var prevIndex := IndexOf(offset, cellSize, countX, countY, prevPosition);
      var index := IndexOf(offset, cellSize, countX, countY, position);
      if prevIndex != index {
        if prevIndex >= 0 && prevIndex < |cells| {
          cells := cells[prevIndex := empty];
        }
        if index >= 0 && index < |cells| {
          cells := cells[index := value];
          return true;
        }
        return true;
      } else {
        return false;
      }
    }

    /** reset: empty the cell containing the position, if any. */
    method Reset(position: Vec2, value: T)
      requires Valid()
      modifies this
      ensures Valid() && Current() == old(Current()).(cells := SetCell(old(cells), IndexOf(offset, cellSize, countX, countY, position), empty))
      ensures outside == old(outside)
    {
      var index := IndexOf(offset, cellSize, countX, countY, position);
      if index >= 0 && index < |cells| {
        cells := cells[index := empty];
      }
    }

    /** resizeToFit, with the corrected row computation and copy direction. */
    method ResizeToFit(position: Vec2)
      requires Valid()
      modifies this
      ensures Valid() && outside == old(outside)
      ensures Current() == Resized(old(Current()), position, empty)
    {
      var indexX, indexY := FitCell(position);
      GrowToCell(indexX, indexY);
    }

    /** The first half of resizeToFit: the cell of the position, a cell size further back left of or below the offset. */
    method FitCell(position: Vec2) returns (indexX: int, indexY: int)
      requires Valid()
      ensures indexX == ShiftedSlot(position.x - offset.x, cellSize.x, cellSize.x)
      ensures indexY == ShiftedSlot(position.y - offset.y, cellSize.y, cellSize.y)
    {
      var px, py := position.x, position.y;
      if px < offset.x {
        px := px - cellSize.x;
      }
      if py < offset.y {
        py := py - cellSize.y;
      }
      indexX := Trunc((px - offset.x) / cellSize.x);
      indexY := Trunc((py - offset.y) / cellSize.y);
    }

    /** The second half of resizeToFit: the grid grows until cell (indexX, indexY) is on it. */
    method GrowToCell(indexX: int, indexY: int)
      requires Valid()
      modifies this
      ensures Valid() && outside == old(outside)
      ensures Current() == GrownFor(old(Current()), indexX, indexY, empty)
    {
      ghost var l := Current();
      if indexX < 0 || indexX >= countX || indexY < 0 || indexY >= countY {
        var oldCells := cells;
        var oldCountX, oldCountY := countX, countY;
        var newCountX, newCountY := countX, countY;
        var offsetX, offsetY := 0, 0;
        if indexX >= countX {
          newCountX := indexX + 1;
        }
        if indexY >= countY {
          newCountY := indexY + 1;
        }
        if indexX < 0 {
          newCountX := countX - indexX;
          offsetX := -indexX;
        }
        if indexY < 0 {
          newCountY := countY - indexY;
          offsetY := -indexY;
        }
        assert (newCountX, offsetX) == AxisGrowth(indexX, oldCountX);
        assert (newCountY, offsetY) == AxisGrowth(indexY, oldCountY);
        AxisGrowthLaws(indexX, oldCountX);
        AxisGrowthLaws(indexY, oldCountY);
        cells := CopyCells(oldCells, oldCountX, oldCountY, newCountX, newCountY, offsetX, offsetY, empty);
        countX := newCountX;
        countY := newCountY;
        offset := Sub(offset, Mul(cellSize, Vec2(offsetX as real, offsetY as real)));
        assert Current() == Grown(l, newCountX, newCountY, offsetX, offsetY, -offsetX, -offsetY, empty);
      }
    }
  }

  /**
   * The copy loops of resizeToFit: a new grid of empty cells, each cell
   * (x, y) of which takes old cell (x - offsetX, y - offsetY) when that
   * exists.
   */
  method CopyCells<T>(oldCells: seq<T>, countX: int, countY: int, newCountX: int, newCountY: int,
                      offsetX: int, offsetY: int, empty: T) returns (cells: seq<T>)
    requires 0 <= countX && 0 <= countY && |oldCells| == countX * countY
    requires newCountX >= 0 && newCountY >= 0
    ensures cells == Copy(oldCells, countX, countY, newCountX, newCountY, -offsetX, -offsetY, empty)
  {
    ghost var target := Copy(oldCells, countX, countY, newCountX, newCountY, -offsetX, -offsetY, empty);
    cells := seq(newCountY * newCountX, _ => empty);
    for y := 0 to newCountY
      invariant |cells| == newCountX * newCountY
      invariant forall k :: 0 <= k < |cells| ==> cells[k] == if k < y * newCountX then target[k] else empty
    {
      for x := 0 to newCountX
        invariant |cells| == newCountX * newCountY
        invariant forall k :: 0 <= k < |cells| ==> cells[k] == if k < y * newCountX + x then target[k] else empty
      {
        var oldX, oldY := x - offsetX, y - offsetY;
        var index := y * newCountX + x;
        CopyAt(oldCells, countX, countY, newCountX, newCountY, -offsetX, -offsetY, empty, x, y);
        if oldY >= 0 && oldY < countY {
          if oldX >= 0 && oldX < countX {
            var oldIndex := oldY * countX + oldX;
            CellIndexInRange(oldX, oldY, countX, countY);
            cells := cells[index := oldCells[oldIndex]];
          }
        }
      }
      assert y * newCountX + newCountX == (y + 1) * newCountX;
    }
  }

  /** MultiGridT<T>: a grid of sets; its inherited members are those of its grid. */
  class MultiGrid<T(==)> {
    const grid: Grid<set<T>>

    constructor ()
      ensures fresh(grid) && grid.Valid() && grid.empty == {} && grid.cells == []
    {
      grid := new Grid({});
    }

    /** set: add the value to the cell containing the position, if any. */
    method Set(position: Vec2, value: T)
      requires grid.Valid()
      modifies grid
      ensures grid.Valid() && grid.outside == old(grid.outside)
      ensures grid.Current() == old(grid.Current()).(cells := InsertCell(old(grid.cells), IndexOf(grid.offset, grid.cellSize, grid.countX, grid.countY, position), value))
    {
      var index := IndexOf(grid.offset, grid.cellSize, grid.countX, grid.countY, position);
      if index >= 0 && index < |grid.cells| {
        grid.cells := grid.cells[index := grid.cells[index] + {value}];
      }
    }

    /** update: move the value from the cell of prevPosition to the cell of position. */
    method Update(position: Vec2, value: T, prevPosition: Vec2) returns (moved: bool)
      requires grid.Valid()
      modifies grid
      ensures grid.Valid() && grid.outside == old(grid.outside)
      ensures grid.countX == old(grid.countX) && grid.countY == old(grid.countY)
      ensures grid.offset == old(grid.offset) && grid.cellSize == old(grid.cellSize)
      ensures (grid.cells, moved) == MultiUpdateCells(old(grid.cells),
                IndexOf(grid.offset, grid.cellSize, grid.countX, grid.countY, prevPosition),
                IndexOf(grid.offset, grid.cellSize, grid.countX, grid.countY, position), value)
    {
      var prevIndex := IndexOf(grid.offset, grid.cellSize, grid.countX, grid.countY, prevPosition);
      var index := IndexOf(grid.offset, grid.cellSize, grid.countX, grid.countY, position);
      if prevIndex != index {
        if prevIndex >= 0 && prevIndex < |grid.cells| {
          grid.cells := grid.cells[prevIndex := grid.cells[prevIndex] - {value}];
        }
        if index >= 0 && index < |grid.cells| {
          grid.cells := grid.cells[index := grid.cells[index] + {value}];
          return true;
        }
        return true;
      } else {
        return false;
      }
    }

    /** reset: remove the value from the cell containing the position, if any. */
    method Reset(position: Vec2, value: T)
      requires grid.Valid()
      modifies grid
      ensures grid.Valid() && grid.outside == old(grid.outside)
      ensures grid.Current() == old(grid.Current()).(cells := EraseCell(old(grid.cells), IndexOf(grid.offset, grid.cellSize, grid.countX, grid.countY, position), value))
    {
      var index := IndexOf(grid.offset, grid.cellSize, grid.countX, grid.countY, position);
      if index >= 0 && index < |grid.cells| {
        grid.cells := grid.cells[index := grid.cells[index] - {value}];
      }
    }
  }
}
