/**
 * StaticGridBroadPhase (physics/BroadPhase.cpp): a fixed grid of cells,
 * each a set of bodies, centred on the origin, plus one cell for everything
 * outside it, and a table from body index to the cell the body was last
 * put in. `each` hands every body pair of a cell and its 3x3 neighbourhood
 * to the callback; here it returns those pairs in order. The iteration
 * order of a cell's std::set is left open; any enumeration of the set is
 * allowed.
 */
module BroadPhases {
  import opened Vec
  import opened Bodies
  import opened Grids
  import opened Pairs

  /** A cellByBodyIndex entry: no cell yet (nullptr), grid cell (x, y), or the outside cell. */
  datatype CellId = NoCell | InGrid(x: int, y: int) | Outside

  predicate InRange(x: int, y: int, countX: int, countY: int)
  {
    0 <= x < countX && 0 <= y < countY
  }

  /** init's offset, -cellSize * 0.5 * (cellCountX, cellCountY). */
  function GridOffset(cellSize: Vec2, countX: int, countY: int): Vec2
  {
    Mul(Scale(Neg(cellSize), 0.5), Vec2(countX as real, countY as real))
  }

  /** The grid is centred on the origin: it runs from the offset to minus the offset. */
  lemma GridCentred(cellSize: Vec2, countX: int, countY: int)
    ensures Add(GridOffset(cellSize, countX, countY), Mul(cellSize, Vec2(countX as real, countY as real))) ==
            Neg(GridOffset(cellSize, countX, countY))
  {
  }

  /**
   * getCell: the column and row of the position measured from the offset,
   * where a negative coordinate is first moved back by one cell so that the
   * truncation rounds it down; the grid cell when both are in range,
   * otherwise the outside cell.
   */
  function CellFor(offset: Vec2, cellSize: Vec2, countX: int, countY: int, pos: Vec2): CellId
    requires cellSize.x != 0.0 && cellSize.y != 0.0
  {
    var x := ShiftedSlot(pos.x - offset.x, cellSize.x, cellSize.x);
    var y := ShiftedSlot(pos.y - offset.y, cellSize.y, cellSize.y);
    if InRange(x, y, countX, countY) then InGrid(x, y) else Outside
  }

  /** Along one axis a grid cell is picked exactly when its half-open span holds the coordinate. */
  lemma AxisCell(d: real, size: real, count: int, c: int)
    requires size > 0.0
    ensures (0 <= c < count && ShiftedSlot(d, size, size) == c) <==> (0 <= c < count && Spans(d, c, size))
    ensures (0 <= ShiftedSlot(d, size, size) < count) <==> Within(d, count, size)
  {
    ShiftedSlotBounds(d, size);
    if 0 <= c < count && Spans(d, c, size) {
      SpansUnique(d, size, c, ShiftedSlot(d, size, size));
    }
    AxisWithin(d, count, size);
    if d >= 0.0 {
      assert ShiftedSlot(d, size, size) == Slot(d, size);
    }
  }

  /**
   * getCell picks grid cell (x, y) exactly when the position lies in that
   * cell's half-open box, and the outside cell exactly when the position
   * lies outside the grid's rectangle; it never yields "no cell".
   */
  lemma CellForLaws(offset: Vec2, cellSize: Vec2, countX: int, countY: int, pos: Vec2, x: int, y: int)
    requires cellSize.x > 0.0 && cellSize.y > 0.0
    ensures CellFor(offset, cellSize, countX, countY, pos) != NoCell
    ensures CellFor(offset, cellSize, countX, countY, pos) == InGrid(x, y) <==>
              InRange(x, y, countX, countY) && Spans(pos.x - offset.x, x, cellSize.x) && Spans(pos.y - offset.y, y, cellSize.y)
    ensures CellFor(offset, cellSize, countX, countY, pos) == Outside <==>
              !(Within(pos.x - offset.x, countX, cellSize.x) && Within(pos.y - offset.y, countY, cellSize.y))
  {
    AxisCell(pos.x - offset.x, cellSize.x, countX, x);
    AxisCell(pos.y - offset.y, cellSize.y, countY, y);
  }

  /** The position each() asks getCell about for cell (x, y): offset + cellSize * 0.5 + cellSize * (x, y). */
  function EachCentre(offset: Vec2, cellSize: Vec2, x: int, y: int): Vec2
  {
    Add(Add(offset, Scale(cellSize, 0.5)), Mul(cellSize, Vec2(x as real, y as real)))
  }

  /** The middle of cell c along one axis lies in cell c, whatever the sign of c. */
  lemma CentreSlot(c: int, size: real)
    requires size > 0.0
    ensures ShiftedSlot(CentreOf(c, size), size, size) == c
  {
    var e := CentreOf(c, size);
    MulStrict(c as real, c as real + 0.5, size);
    MulStrict(c as real + 0.5, c as real + 1.0, size);
    if c >= 0 {
      MulMono(0.0, c as real + 0.5, size);
    } else {
      MulStrict(c as real + 0.5, 0.0, size);
    }
    assert Spans(e, c, size);
    ShiftedSlotBounds(e, size);
    SpansUnique(e, size, c, ShiftedSlot(e, size, size));
  }

  /** getCell on the centre each() computes for (x, y) is cell (x, y) when it exists and the outside cell otherwise. */
  lemma CentreCell(offset: Vec2, cellSize: Vec2, countX: int, countY: int, x: int, y: int)
    requires cellSize.x > 0.0 && cellSize.y > 0.0
    ensures CellFor(offset, cellSize, countX, countY, EachCentre(offset, cellSize, x, y)) ==
            if InRange(x, y, countX, countY) then InGrid(x, y) else Outside
  {
    var p := EachCentre(offset, cellSize, x, y);
    assert p.x - offset.x == CentreOf(x, cellSize.x);
    assert p.y - offset.y == CentreOf(y, cellSize.y);
    CentreSlot(x, cellSize.x);
    CentreSlot(y, cellSize.y);
  }

  // ---------------------------------------------------------------------
  // The cell pairs each() visits
  // ---------------------------------------------------------------------

  /** Cell (a, b) is in the 3x3 neighbourhood of (x, y), itself included. */
  predicate Adjacent(x: int, y: int, a: int, b: int)
  {
    -1 <= a - x <= 1 && -1 <= b - y <= 1
  }

  /** A cell on the grid's edge: some neighbour is off the grid. */
  predicate Border(x: int, y: int, countX: int, countY: int)
  {
    x == 0 || x == countX - 1 || y == 0 || y == countY - 1
  }

  /**
   * The cell pairs each() hands to eachCell: outside with itself; every
   * grid cell with each grid cell of its neighbourhood; and every grid cell
   * on the edge with the outside cell.
   */
  predicate Linked(a: CellId, b: CellId, countX: int, countY: int)
  {
    match a
    case NoCell => false
    case Outside => b == Outside
    case InGrid(x, y) =>
      InRange(x, y, countX, countY) &&
      match b
      case NoCell => false
      case Outside => Border(x, y, countX, countY)
      case InGrid(u, v) => InRange(u, v, countX, countY) && Adjacent(x, y, u, v)
  }

  /** A grid cell of the top row of the neighbourhood loops: column x + i, rows y - 1 .. y + j - 1. */
  predicate NearInRow(x: int, y: int, i: int, j: int, c: CellId, countX: int, countY: int)
  {
    c.InGrid? && InRange(c.x, c.y, countX, countY) && c.x == x + i && y - 1 <= c.y < y + j
  }

  /** A grid cell of the neighbourhood of (x, y) in columns x - 1 .. x + i - 1. */
  predicate NearInRows(x: int, y: int, i: int, c: CellId, countX: int, countY: int)
  {
    c.InGrid? && InRange(c.x, c.y, countX, countY) && x - 1 <= c.x < x + i && y - 1 <= c.y <= y + 1
  }

  /** A cell each() has finished with before reaching grid column x: the outside cell and columns 0 .. x - 1. */
  predicate DoneBefore(c: CellId, x: int)
  {
    c == Outside || (c.InGrid? && c.x < x)
  }

  /** One step of the innermost loop: the neighbour b = (x + i, y + j) is taken exactly when it is on the grid. */
  lemma NearRowStep(cellPairs: seq<(CellId, CellId)>, a: CellId, x: int, y: int, i: int, j: int, b: CellId, countX: int, countY: int)
    requires -1 <= j && b == if InRange(x + i, y + j, countX, countY) then InGrid(x + i, y + j) else Outside
    requires forall l :: Count(cellPairs, l) == if l.0 == a && NearInRow(x, y, i, j, l.1, countX, countY) then 1 else 0
    ensures b != Outside ==>
              forall l :: Count(cellPairs + [(a, b)], l) == if l.0 == a && NearInRow(x, y, i, j + 1, l.1, countX, countY) then 1 else 0
    ensures b == Outside ==>
              forall l :: Count(cellPairs, l) == if l.0 == a && NearInRow(x, y, i, j + 1, l.1, countX, countY) then 1 else 0
  {
    forall l ensures Count(cellPairs + [(a, b)], l) == Count(cellPairs, l) + (if (a, b) == l then 1 else 0) {
      CountSnoc(cellPairs, (a, b), l);
    }
  }

  /** One step of the loop over i: a finished column of neighbours joins the ones before it. */
  lemma NearRowsStep(cellPairs: seq<(CellId, CellId)>, row: seq<(CellId, CellId)>, a: CellId, x: int, y: int, i: int, countX: int, countY: int)
    requires -1 <= i
    requires forall l :: Count(cellPairs, l) == if l.0 == a && NearInRows(x, y, i, l.1, countX, countY) then 1 else 0
    requires forall l :: Count(row, l) == if l.0 == a && NearInRow(x, y, i, 2, l.1, countX, countY) then 1 else 0
    ensures forall l :: Count(cellPairs + row, l) == if l.0 == a && NearInRows(x, y, i + 1, l.1, countX, countY) then 1 else 0
  {
    forall l ensures Count(cellPairs + row, l) == Count(cellPairs, l) + Count(row, l) {
      CountAppend(cellPairs, row, l);
    }
  }

  /**
   * The end of the neighbourhood loops: the grid neighbours, and the
   * outside cell when one was off the grid, are exactly the cells Linked
   * names for (x, y).
   */
  lemma NeighbourhoodDone(cellPairs: seq<(CellId, CellId)>, x: int, y: int, outsideHit: bool, countX: int, countY: int)
    requires InRange(x, y, countX, countY)
    requires forall l :: Count(cellPairs, l) == if l.0 == InGrid(x, y) && NearInRows(x, y, 2, l.1, countX, countY) then 1 else 0
    requires outsideHit == !(InRange(x - 1, y - 1, countX, countY) && InRange(x + 1, y + 1, countX, countY))
    ensures var all := if outsideHit then cellPairs + [(InGrid(x, y), Outside)] else cellPairs;
            forall l :: Count(all, l) == if l.0 == InGrid(x, y) && Linked(l.0, l.1, countX, countY) then 1 else 0
  {
    forall l ensures Count(cellPairs + [(InGrid(x, y), Outside)], l) ==
                     Count(cellPairs, l) + (if (InGrid(x, y), Outside) == l then 1 else 0) {
      CountSnoc(cellPairs, (InGrid(x, y), Outside), l);
    }
  }

  /** One step of each()'s loop over rows: the pairs of cell (x, y) join those of the rows before it. */
  lemma ColumnStep(cellPairs: seq<(CellId, CellId)>, more: seq<(CellId, CellId)>, x: int, y: int, countX: int, countY: int)
    requires forall l :: Count(cellPairs, l) ==
               if l.0.InGrid? && l.0.x == x && l.0.y < y && Linked(l.0, l.1, countX, countY) then 1 else 0
    requires forall l :: Count(more, l) == if l.0 == InGrid(x, y) && Linked(l.0, l.1, countX, countY) then 1 else 0
    ensures forall l :: Count(cellPairs + more, l) ==
              if l.0.InGrid? && l.0.x == x && l.0.y < y + 1 && Linked(l.0, l.1, countX, countY) then 1 else 0
  {
    forall l ensures Count(cellPairs + more, l) == Count(cellPairs, l) + Count(more, l) {
      CountAppend(cellPairs, more, l);
    }
  }

  /** One step of each()'s loop over columns: the pairs of column x join those before it. */
  lemma ColumnsStep(cellPairs: seq<(CellId, CellId)>, more: seq<(CellId, CellId)>, x: int, countX: int, countY: int)
    requires forall l :: Count(cellPairs, l) == if DoneBefore(l.0, x) && Linked(l.0, l.1, countX, countY) then 1 else 0
    requires forall l :: Count(more, l) == if l.0.InGrid? && l.0.x == x && Linked(l.0, l.1, countX, countY) then 1 else 0
    ensures forall l :: Count(cellPairs + more, l) == if DoneBefore(l.0, x + 1) && Linked(l.0, l.1, countX, countY) then 1 else 0
  {
    forall l ensures Count(cellPairs + more, l) == Count(cellPairs, l) + Count(more, l) {
      CountAppend(cellPairs, more, l);
    }
  }

  /** The cells' contents: the grid's cells, row-major, and the outside cell. */
  datatype Storage = Storage(cells: seq<set<Body>>, outside: set<Body>)

  /** The bodies in cell c; a cell that does not exist holds none. */
  function MembersOf(st: Storage, countX: int, countY: int, c: CellId): set<Body>
  {
    match c
    case NoCell => {}
    case Outside => st.outside
    case InGrid(x, y) => if InRange(x, y, countX, countY) then CellAt(st.cells, countX, x, y, {}) else {}
  }

  /** A cell getCell can return: the outside cell or a grid cell. */
  predicate IsCell(c: CellId, countX: int, countY: int)
  {
    c == Outside || (c.InGrid? && InRange(c.x, c.y, countX, countY))
  }

  /** The storage with cell c set to s; nothing changes when c is no cell. */
  function Put(st: Storage, countX: int, countY: int, c: CellId, s: set<Body>): Storage
  {
    match c
    case NoCell => st
    case Outside => st.(outside := s)
    case InGrid(x, y) => if InRange(x, y, countX, countY) then st.(cells := SetCell(st.cells, y * countX + x, s)) else st
  }

  /** Setting one cell changes that cell and no other. */
  lemma PutMembers(st: Storage, countX: int, countY: int, c: CellId, s: set<Body>, d: CellId)
    requires countX >= 0 && countY >= 0 && |st.cells| == countX * countY
    ensures |Put(st, countX, countY, c, s).cells| == |st.cells|
    ensures MembersOf(Put(st, countX, countY, c, s), countX, countY, d) ==
            if d == c && IsCell(c, countX, countY) then s else MembersOf(st, countX, countY, d)
  {
    if c.InGrid? && InRange(c.x, c.y, countX, countY) && d.InGrid? && InRange(d.x, d.y, countX, countY) {
      CellIndexInRange(c.x, c.y, countX, countY);
      CellIndexInRange(d.x, d.y, countX, countY);
      if d != c {
        DivModCell(c.x, c.y, countX);
        DivModCell(d.x, d.y, countX);
      }
    }
  }

  /** updateBody's move: the body erased from the current cell (if any), then inserted into the next. */
  function Move(st: Storage, countX: int, countY: int, current: CellId, next: CellId, body: Body): Storage
  {
    var erased := Put(st, countX, countY, current, MembersOf(st, countX, countY, current) - {body});
    Put(erased, countX, countY, next, MembersOf(erased, countX, countY, next) + {body})
  }

  /** A move takes the body out of the current cell and into the next, and leaves every other cell alone. */
  lemma MoveMembers(st: Storage, countX: int, countY: int, current: CellId, next: CellId, body: Body, d: CellId)
    requires countX >= 0 && countY >= 0 && |st.cells| == countX * countY
    requires current != next && IsCell(next, countX, countY)
    ensures |Move(st, countX, countY, current, next, body).cells| == |st.cells|
    ensures MembersOf(Move(st, countX, countY, current, next, body), countX, countY, d) ==
            if d == next then MembersOf(st, countX, countY, d) + {body}
            else if d == current then MembersOf(st, countX, countY, d) - {body}
            else MembersOf(st, countX, countY, d)
  {
    var erased := Put(st, countX, countY, current, MembersOf(st, countX, countY, current) - {body});
    PutMembers(st, countX, countY, current, MembersOf(st, countX, countY, current) - {body}, d);
    PutMembers(st, countX, countY, current, MembersOf(st, countX, countY, current) - {body}, next);
    PutMembers(erased, countX, countY, next, MembersOf(erased, countX, countY, next) + {body}, d);
  }

  /**
   * The index table stays accurate across a move: every body but the moved
   * one keeps its cell and its distinct index, and the moved one's entry
   * now names the next cell.
   */
  lemma MoveIndexed(st: Storage, countX: int, countY: int, table: seq<CellId>, current: CellId, next: CellId, body: Body)
    requires countX >= 0 && countY >= 0 && |st.cells| == countX * countY
    requires current != next && IsCell(next, countX, countY) && 0 <= body.index < |table| && table[body.index] == current
    requires forall c, b :: b in MembersOf(st, countX, countY, c) ==> 0 <= b.index < |table| && table[b.index] == c
    requires forall c, b :: b in MembersOf(st, countX, countY, c) && b != body ==> b.index != body.index
    ensures forall c, b :: b in MembersOf(Move(st, countX, countY, current, next, body), countX, countY, c) ==>
              0 <= b.index < |table| && table[body.index := next][b.index] == c
  {
    var moved := Move(st, countX, countY, current, next, body);
    forall c, b | b in MembersOf(moved, countX, countY, c)
      ensures 0 <= b.index < |table| && table[body.index := next][b.index] == c
    {
      MoveMembers(st, countX, countY, current, next, body, c);
      if b != body {
        assert b in MembersOf(st, countX, countY, c);
      } else if c != next {
        assert false;
      }
    }
  }

  lemma SomeBody(s: set<Body>)
    requires s != {}
    ensures exists b :: b in s
  {
    if forall b :: b !in s {
      assert false;
    }
  }

  /** Walking a std::set: each member exactly once, in an order the model leaves open. */
  method Enumerate(s: set<Body>) returns (order: seq<Body>)
    ensures Distinct(order)
    ensures forall b :: b in s <==> b in order
  {
    order := [];
    var rest := s;
    while rest != {}
      invariant rest <= s
      invariant Distinct(order)
      invariant forall b :: b in order <==> b in s && b !in rest
      decreases |rest|
    {
      SomeBody(rest);
      var b :| b in rest;
      order := order + [b];
      rest := rest - {b};
    }
  }

  class StaticGridBroadPhase {
    var cells: seq<set<Body>>
    var cellByBodyIndex: seq<CellId>
    var cellCountX: int
    var cellCountY: int
    var cellSize: Vec2
    var offset: Vec2
    var outsideCell: set<Body>

    /** The bodies in cell c. */
    function Members(c: CellId): set<Body>
      reads this`cells, this`outsideCell, this`cellCountX, this`cellCountY
    {
      MembersOf(Storage(cells, outsideCell), cellCountX, cellCountY, c)
    }

    /** Every body in some cell. */
    ghost function Tracked(): set<Body>
      reads this`cells, this`outsideCell
    {
      outsideCell + (set k, b | 0 <= k < |cells| && b in cells[k] :: b)
    }

    /**
     * The grid's shape is the one init gave it, and a body in a cell is in
     * the one cell its cellByBodyIndex entry names.
     */
    ghost predicate Valid()
      reads this`cells, this`outsideCell, this`cellCountX, this`cellCountY, this`cellByBodyIndex, this`cellSize, this`offset, Tracked()`index
    {
      cellSize.x > 0.0 && cellSize.y > 0.0 && cellCountX >= 0 && cellCountY >= 0 &&
      |cells| == cellCountX * cellCountY && offset == GridOffset(cellSize, cellCountX, cellCountY) &&
      forall c, b :: b in Members(c) ==> 0 <= b.index < |cellByBodyIndex| && cellByBodyIndex[b.index] == c
    }

    /** The body is in the cell its entry names. */
    ghost predicate Tracks(b: Body)
      reads this`cells, this`outsideCell, this`cellCountX, this`cellCountY, this`cellByBodyIndex, b`index
    {
      0 <= b.index < |cellByBodyIndex| && b in Members(cellByBodyIndex[b.index])
    }

    /** The constructor: init on a fresh object. */
    constructor (cellSize: Vec2, cellCountX: int, cellCountY: int)
      requires cellSize.x > 0.0 && cellSize.y > 0.0 && cellCountX >= 0 && cellCountY >= 0
      ensures Valid()
      ensures this.cellSize == cellSize && this.cellCountX == cellCountX && this.cellCountY == cellCountY
      ensures offset == GridOffset(cellSize, cellCountX, cellCountY)
      ensures cellByBodyIndex == [] && forall c :: Members(c) == {}
    {
      this.cellSize := cellSize;
      this.cellCountX := cellCountX;
      this.cellCountY := cellCountY;
      offset := GridOffset(cellSize, cellCountX, cellCountY);
      cells := seq(cellCountX * cellCountY, _ => {});
      cellByBodyIndex := [];
      outsideCell := {};
    }

    /** init: a new empty grid of cellCountX by cellCountY cells of the given size, centred on the origin. */
    method Init(cellSize: Vec2, cellCountX: int, cellCountY: int)
      requires cellSize.x > 0.0 && cellSize.y > 0.0 && cellCountX >= 0 && cellCountY >= 0
      modifies this
      ensures Valid()
      ensures this.cellSize == cellSize && this.cellCountX == cellCountX && this.cellCountY == cellCountY
      ensures offset == GridOffset(cellSize, cellCountX, cellCountY)
      ensures cellByBodyIndex == [] && forall c :: Members(c) == {}
    {
      cells := seq(cellCountX * cellCountY, _ => {});
      cellByBodyIndex := [];
      outsideCell := {};
      this.cellCountX := cellCountX;
      this.cellCountY := cellCountY;
      this.cellSize := cellSize;
      offset := GridOffset(cellSize, cellCountX, cellCountY);
    }

    /** clearBodies: every cell emptied and the index table dropped; the grid keeps its shape. */
    method ClearBodies()
      requires Valid()
      modifies this`cells, this`outsideCell, this`cellByBodyIndex
      ensures Valid()
      ensures |cells| == old(|cells|) && cellByBodyIndex == [] && forall c :: Members(c) == {}
    {
      cells := seq(|cells|, _ => {});
      outsideCell := {};
      cellByBodyIndex := [];
    }

    /** The index table grown with empty entries so that it has an entry at n. */
    static function Padded(table: seq<CellId>, n: nat): (r: seq<CellId>)
      ensures |r| > n && |r| >= |table| && forall i :: 0 <= i < |table| ==> r[i] == table[i]
      ensures forall i :: |table| <= i < |r| ==> r[i] == NoCell
    {
      if |table| <= n then table + seq(n + 1 - |table|, _ => NoCell) else table
    }

    /**
     * updateBody: when the cell getCell names for the body's position is not
     * the one its entry names, the body leaves the old cell (if there is
     * one), joins the new one and the entry is updated; otherwise nothing
     * changes. The table first grows to reach the body's index.
     */
    method UpdateBody(body: Body)
      requires Valid() && body.index >= 0
      requires forall c, b :: b in Members(c) && b != body ==> b.index != body.index
      modifies this`cells, this`outsideCell, this`cellByBodyIndex
      ensures Valid() && |cells| == old(|cells|)
      ensures var table := Padded(old(cellByBodyIndex), body.index);
              var current, next := table[body.index], CellFor(offset, cellSize, cellCountX, cellCountY, body.position);
              cellByBodyIndex == (if current != next then table[body.index := next] else table) &&
              (forall c :: Members(c) ==
                 if current == next then old(Members(c))
                 else if c == next then old(Members(c)) + {body}
                 else if c == current then old(Members(c)) - {body}
                 else old(Members(c))) &&
              (current != next ==> forall c :: body in Members(c) <==> c == next)
      ensures forall c, b :: b != body ==> (b in Members(c) <==> b in old(Members(c)))
      ensures forall i :: 0 <= i < |cellByBodyIndex| && i != body.index ==>
                cellByBodyIndex[i] == if i < old(|cellByBodyIndex|) then old(cellByBodyIndex)[i] else NoCell
      ensures (body.index < old(|cellByBodyIndex|) && old(cellByBodyIndex)[body.index] != NoCell ==> old(Tracks(body))) ==>
                Tracks(body) && CellOf(body) == CellFor(offset, cellSize, cellCountX, cellCountY, body.position)
    {
      var table := Padded(cellByBodyIndex, body.index);
      var current := table[body.index];
      var next := CellFor(offset, cellSize, cellCountX, cellCountY, body.position);
      CellForLaws(offset, cellSize, cellCountX, cellCountY, body.position, 0, 0);
      var st := Storage(cells, outsideCell);
      if current != next {
        var moved := Move(st, cellCountX, cellCountY, current, next, body);
        forall c ensures MembersOf(moved, cellCountX, cellCountY, c) ==
                           if c == next then MembersOf(st, cellCountX, cellCountY, c) + {body}
                           else if c == current then MembersOf(st, cellCountX, cellCountY, c) - {body}
                           else MembersOf(st, cellCountX, cellCountY, c) {
          MoveMembers(st, cellCountX, cellCountY, current, next, body, c);
        }
        forall c, b | b in MembersOf(st, cellCountX, cellCountY, c) ensures 0 <= b.index < |table| && table[b.index] == c {
          assert b in Members(c);
        }
        forall c, b | b in MembersOf(st, cellCountX, cellCountY, c) && b != body ensures b.index != body.index {
          assert b in Members(c);
        }
        MoveIndexed(st, cellCountX, cellCountY, table, current, next, body);
        cells, outsideCell := moved.cells, moved.outside;
        cellByBodyIndex := table[body.index := next];
      } else {
        cellByBodyIndex := table;
      }
    }

    /** removeBody: the body leaves the cell its entry names, if the entry exists; the table is kept. */
    method RemoveBody(body: Body)
      requires Valid()
      modifies this`cells, this`outsideCell
      ensures Valid() && |cells| == old(|cells|)
      ensures forall c :: Members(c) ==
                if 0 <= body.index < |cellByBodyIndex| && c == cellByBodyIndex[body.index] then old(Members(c)) - {body}
                else old(Members(c))
      ensures forall c :: body !in Members(c)
    {
      if body.index < 0 || |cellByBodyIndex| <= body.index {
        return;
      }
      var current := cellByBodyIndex[body.index];
      var st := Storage(cells, outsideCell);
      var erased := Put(st, cellCountX, cellCountY, current, Members(current) - {body});
      cells, outsideCell := erased.cells, erased.outside;
      forall c ensures MembersOf(erased, cellCountX, cellCountY, c) ==
                         if c == current then MembersOf(st, cellCountX, cellCountY, c) - {body}
                         else MembersOf(st, cellCountX, cellCountY, c) {
        PutMembers(st, cellCountX, cellCountY, current, MembersOf(st, cellCountX, cellCountY, current) - {body}, c);
      }
      forall c, b | b in Members(c) ensures 0 <= b.index < |cellByBodyIndex| && cellByBodyIndex[b.index] == c {
        assert b in old(Members(c));
      }
    }

    /** The pairs eachCell hands over for cells a and b. */
    ghost predicate Fits(chunk: seq<(Body, Body)>, cellPair: (CellId, CellId))
      reads this`cells, this`outsideCell, this`cellCountX, this`cellCountY
    {
      if cellPair.0 == cellPair.1 then Unordered(chunk, Members(cellPair.0))
      else Crossed(chunk, Members(cellPair.0), Members(cellPair.1))
    }

    /** The pairs are the chunks in order, chunk k being what eachCell hands over for cell pair k. */
    ghost predicate Chunked(pairs: seq<(Body, Body)>, chunks: seq<seq<(Body, Body)>>, labels: seq<(CellId, CellId)>)
      reads this`cells, this`outsideCell, this`cellCountX, this`cellCountY
    {
      pairs == Flatten(chunks) && |chunks| == |labels| &&
      forall k :: 0 <= k < |chunks| ==> Fits(chunks[k], labels[k])
    }

    lemma ChunkedOne(chunk: seq<(Body, Body)>, cellPair: (CellId, CellId))
      requires Fits(chunk, cellPair)
      ensures Chunked(chunk, [chunk], [cellPair])
    {
      assert [chunk][..0] == [];
    }

    lemma ChunkedAppend(p: seq<(Body, Body)>, cs: seq<seq<(Body, Body)>>, ls: seq<(CellId, CellId)>,
                        p2: seq<(Body, Body)>, cs2: seq<seq<(Body, Body)>>, ls2: seq<(CellId, CellId)>)
      requires Chunked(p, cs, ls) && Chunked(p2, cs2, ls2)
      ensures Chunked(p + p2, cs + cs2, ls + ls2)
    {
      FlattenAppend(cs, cs2);
      forall k | 0 <= k < |cs + cs2| ensures Fits((cs + cs2)[k], (ls + ls2)[k]) {
        if k >= |cs| {
          assert (cs + cs2)[k] == cs2[k - |cs|] && (ls + ls2)[k] == ls2[k - |cs|];
        }
      }
    }

    /**
     * eachCell: for a cell with itself, every two distinct bodies of it
     * once, in one order or the other; for two different cells, every body
     * of the first with every body of the second, once.
     */
    method EachCell(a: CellId, b: CellId) returns (pairs: seq<(Body, Body)>)
      ensures Fits(pairs, (a, b))
    {
      var s := Enumerate(Members(a));
      if a == b {
        pairs := VisitTriangle(s);
        TrianglePairs(s, Members(a));
      } else {
        var t := Enumerate(Members(b));
        pairs := VisitRectangle(s, t);
        RectanglePairs(s, Members(a), t, Members(b));
      }
    }

    /** getCell on the centre each() computes for (x, y): cell (x, y) when it exists, otherwise the outside cell. */
    method CentreCellOf(x: int, y: int) returns (c: CellId)
      requires Valid()
      ensures c == if InRange(x, y, cellCountX, cellCountY) then InGrid(x, y) else Outside
    {
      c := CellFor(offset, cellSize, cellCountX, cellCountY, EachCentre(offset, cellSize, x, y));
      CentreCell(offset, cellSize, cellCountX, cellCountY, x, y);
    }

    /**
     * One pass of each()'s innermost loop for grid cell (x, y): j from -1 to
     * 1, each grid neighbour (x + i, y + j) taken to eachCell with (x, y); hit
     * says whether a neighbour of the pass was off the grid.
     */
    method NeighbourRow(x: int, y: int, i: int) returns (pairs: seq<(Body, Body)>, ghost chunks: seq<seq<(Body, Body)>>,
                                                         ghost cellPairs: seq<(CellId, CellId)>, hit: bool)
      requires Valid() && InRange(x, y, cellCountX, cellCountY)
      ensures Chunked(pairs, chunks, cellPairs)
      ensures forall l :: Count(cellPairs, l) ==
                if l.0 == InGrid(x, y) && NearInRow(x, y, i, 2, l.1, cellCountX, cellCountY) then 1 else 0
      ensures hit == !(InRange(x + i, y - 1, cellCountX, cellCountY) && InRange(x + i, y + 1, cellCountX, cellCountY))
    {
      var a := CentreCellOf(x, y);
      pairs, hit := [], false;
      chunks, cellPairs := [], [];
      var j := -1;
      while j <= 1
        invariant -1 <= j <= 2
        invariant Chunked(pairs, chunks, cellPairs)
        invariant forall l :: Count(cellPairs, l) ==
                    if l.0 == a && NearInRow(x, y, i, j, l.1, cellCountX, cellCountY) then 1 else 0
        invariant hit == (j > -1 && !(InRange(x + i, y - 1, cellCountX, cellCountY) && InRange(x + i, y + j - 1, cellCountX, cellCountY)))
      {
        var b := CentreCellOf(x + i, y + j);
        NearRowStep(cellPairs, a, x, y, i, j, b, cellCountX, cellCountY);
        if b != Outside {
          var chunk := EachCell(a, b);
          ChunkedOne(chunk, (a, b));
          ChunkedAppend(pairs, chunks, cellPairs, chunk, [chunk], [(a, b)]);
          pairs := pairs + chunk;
          chunks, cellPairs := chunks + [chunk], cellPairs + [(a, b)];
        } else {
          hit := true;
        }
        j := j + 1;
      }
    }

    /**
     * The neighbourhood loops of each() for grid cell (x, y): the cell with
     * each of its grid neighbours, then with the outside cell when some
     * neighbour was off the grid.
     */
    method EachNeighbourhood(x: int, y: int) returns (pairs: seq<(Body, Body)>, ghost chunks: seq<seq<(Body, Body)>>,
                                                     ghost cellPairs: seq<(CellId, CellId)>)
      requires Valid() && InRange(x, y, cellCountX, cellCountY)
      ensures Chunked(pairs, chunks, cellPairs)
      ensures forall l :: Count(cellPairs, l) == if l.0 == InGrid(x, y) && Linked(l.0, l.1, cellCountX, cellCountY) then 1 else 0
    {
      var a := CentreCellOf(x, y);
      pairs := [];
      chunks, cellPairs := [], [];
      var outsideHit := false;
      var i := -1;
      while i <= 1
        invariant -1 <= i <= 2
        invariant Chunked(pairs, chunks, cellPairs)
        invariant forall l :: Count(cellPairs, l) ==
                    if l.0 == a && NearInRows(x, y, i, l.1, cellCountX, cellCountY) then 1 else 0
        invariant outsideHit == (i > -1 && !(InRange(x - 1, y - 1, cellCountX, cellCountY) && InRange(x + i - 1, y + 1, cellCountX, cellCountY)))
      {
        var rowPairs, rowChunks, rowCellPairs, hit := NeighbourRow(x, y, i);
        ChunkedAppend(pairs, chunks, cellPairs, rowPairs, rowChunks, rowCellPairs);
        NearRowsStep(cellPairs, rowCellPairs, a, x, y, i, cellCountX, cellCountY);
        pairs := pairs + rowPairs;
        chunks, cellPairs := chunks + rowChunks, cellPairs + rowCellPairs;
        outsideHit := outsideHit || hit;
        i := i + 1;
      }
      NeighbourhoodDone(cellPairs, x, y, outsideHit, cellCountX, cellCountY);
      if outsideHit {
        var chunk := EachCell(a, Outside);
        ChunkedOne(chunk, (a, Outside));
        ChunkedAppend(pairs, chunks, cellPairs, chunk, [chunk], [(a, Outside)]);
        pairs := pairs + chunk;
        chunks, cellPairs := chunks + [chunk], cellPairs + [(a, Outside)];
      }
    }

    /** each()'s loop over the rows of grid column x. */
    method EachColumn(x: int) returns (pairs: seq<(Body, Body)>, ghost chunks: seq<seq<(Body, Body)>>,
                                       ghost cellPairs: seq<(CellId, CellId)>)
      requires Valid() && 0 <= x < cellCountX
      ensures Chunked(pairs, chunks, cellPairs)
      ensures forall l :: Count(cellPairs, l) == if l.0.InGrid? && l.0.x == x && Linked(l.0, l.1, cellCountX, cellCountY) then 1 else 0
    {
      pairs := [];
      chunks, cellPairs := [], [];
      var y := 0;
      while y < cellCountY
        invariant 0 <= y <= cellCountY
        invariant Chunked(pairs, chunks, cellPairs)
        invariant forall l :: Count(cellPairs, l) ==
                    if l.0.InGrid? && l.0.x == x && l.0.y < y && Linked(l.0, l.1, cellCountX, cellCountY) then 1 else 0
      {
        var more, moreChunks, moreCellPairs := EachNeighbourhood(x, y);
        ChunkedAppend(pairs, chunks, cellPairs, more, moreChunks, moreCellPairs);
        ColumnStep(cellPairs, moreCellPairs, x, y, cellCountX, cellCountY);
        pairs := pairs + more;
        chunks, cellPairs := chunks + moreChunks, cellPairs + moreCellPairs;
        y := y + 1;
      }
    }

    /**
     * each: the outside cell with itself, then every grid cell, column by
     * column, with its neighbourhood; every linked pair of cells is taken to
     * eachCell exactly once, and the body pairs are the ones EachCounts
     * describes.
     */
    method Each() returns (pairs: seq<(Body, Body)>, ghost chunks: seq<seq<(Body, Body)>>,
                           ghost cellPairs: seq<(CellId, CellId)>)
      requires Valid()
      ensures Chunked(pairs, chunks, cellPairs)
      ensures |cellPairs| > 0 && cellPairs[0] == (Outside, Outside)
      ensures forall l :: Count(cellPairs, l) == if Linked(l.0, l.1, cellCountX, cellCountY) then 1 else 0
      ensures forall k :: 0 <= k < |pairs| ==>
                pairs[k].0 != pairs[k].1 && Tracks(pairs[k].0) && Tracks(pairs[k].1) &&
                Linked(CellOf(pairs[k].0), CellOf(pairs[k].1), cellCountX, cellCountY)
      ensures forall p, q :: Tracks(p) && Tracks(q) && p != q && CellOf(p) == CellOf(q) ==>
                Count(pairs, (p, q)) + Count(pairs, (q, p)) == 1
      ensures forall p, q :: Tracks(p) && Tracks(q) && CellOf(p) != CellOf(q) ==>
                Count(pairs, (p, q)) == if Linked(CellOf(p), CellOf(q), cellCountX, cellCountY) then 1 else 0
    {
      pairs := EachCell(Outside, Outside);
      ChunkedOne(pairs, (Outside, Outside));
      chunks, cellPairs := [pairs], [(Outside, Outside)];
      forall l ensures Count(cellPairs, l) == if (Outside, Outside) == l then 1 else 0 {
        CountOne((Outside, Outside), l);
      }
      var x := 0;
      while x < cellCountX
        invariant 0 <= x <= cellCountX
        invariant Chunked(pairs, chunks, cellPairs)
        invariant |cellPairs| > 0 && cellPairs[0] == (Outside, Outside)
        invariant forall l :: Count(cellPairs, l) ==
                    if DoneBefore(l.0, x) && Linked(l.0, l.1, cellCountX, cellCountY) then 1 else 0
      {
        var more, moreChunks, moreCellPairs := EachColumn(x);
        ChunkedAppend(pairs, chunks, cellPairs, more, moreChunks, moreCellPairs);
        ColumnsStep(cellPairs, moreCellPairs, x, cellCountX, cellCountY);
        pairs := pairs + more;
        chunks, cellPairs := chunks + moreChunks, cellPairs + moreCellPairs;
        x := x + 1;
      }
      EachCounts(pairs, chunks, cellPairs);
    }

    /** The cell a body's index table entry names, or no cell. */
    ghost function CellOf(b: Body): CellId
      reads this`cellByBodyIndex, b`index
    {
      if 0 <= b.index < |cellByBodyIndex| then cellByBodyIndex[b.index] else NoCell
    }

    /** A body in cell c is tracked, and c is the cell its entry names. */
    lemma MemberTracked(c: CellId, b: Body)
      requires Valid() && b in Members(c)
      ensures Tracks(b) && CellOf(b) == c && IsCell(c, cellCountX, cellCountY)
    {
    }

    /** Every pair eachCell hands over for (c, d) has its first body in c and its second in d. */
    lemma FitsEntry(chunk: seq<(Body, Body)>, cellPair: (CellId, CellId), k: int)
      requires Fits(chunk, cellPair) && 0 <= k < |chunk|
      ensures chunk[k].0 in Members(cellPair.0) && chunk[k].1 in Members(cellPair.1)
    {
    }

    /** Two bodies of one cell c occur in a chunk, in either order, once if its cell pair is (c, c) and not at all otherwise. */
    lemma ChunkSame(chunk: seq<(Body, Body)>, cellPair: (CellId, CellId), p: Body, q: Body)
      requires Valid() && Fits(chunk, cellPair)
      requires Tracks(p) && Tracks(q) && p != q && CellOf(p) == CellOf(q)
      ensures Count(chunk, (p, q)) + Count(chunk, (q, p)) == if cellPair == (CellOf(p), CellOf(p)) then 1 else 0
    {
      var c := CellOf(p);
      if cellPair != (c, c) {
        forall k | 0 <= k < |chunk| ensures chunk[k] != (p, q) && chunk[k] != (q, p) {
          FitsEntry(chunk, cellPair, k);
          MemberTracked(cellPair.0, chunk[k].0);
          MemberTracked(cellPair.1, chunk[k].1);
        }
        Absent(chunk, (p, q));
        Absent(chunk, (q, p));
      }
    }

    /** A body of cell c and one of cell d != c occur in a chunk once if its cell pair is (c, d) and not at all otherwise. */
    lemma ChunkCross(chunk: seq<(Body, Body)>, cellPair: (CellId, CellId), p: Body, q: Body)
      requires Valid() && Fits(chunk, cellPair)
      requires Tracks(p) && Tracks(q) && CellOf(p) != CellOf(q)
      ensures Count(chunk, (p, q)) == if cellPair == (CellOf(p), CellOf(q)) then 1 else 0
    {
      if cellPair != (CellOf(p), CellOf(q)) {
        forall k | 0 <= k < |chunk| ensures chunk[k] != (p, q) {
          FitsEntry(chunk, cellPair, k);
          MemberTracked(cellPair.0, chunk[k].0);
          MemberTracked(cellPair.1, chunk[k].1);
        }
        Absent(chunk, (p, q));
      }
    }

    /**
     * What each() hands to its callback, given that it visits every linked
     * cell pair once: only pairs of two different tracked bodies whose cells
     * are linked; two bodies sharing a cell once, in one order or the other;
     * and two bodies in different cells once in each order when the cells
     * are neighbours, once as (edge body, outside body) when one is on the
     * grid's edge and the other outside, and never otherwise.
     */
    lemma EachCounts(pairs: seq<(Body, Body)>, chunks: seq<seq<(Body, Body)>>, cellPairs: seq<(CellId, CellId)>)
      requires Valid() && Chunked(pairs, chunks, cellPairs)
      requires forall l :: Count(cellPairs, l) == if Linked(l.0, l.1, cellCountX, cellCountY) then 1 else 0
      ensures forall k :: 0 <= k < |pairs| ==>
                pairs[k].0 != pairs[k].1 && Tracks(pairs[k].0) && Tracks(pairs[k].1) &&
                Linked(CellOf(pairs[k].0), CellOf(pairs[k].1), cellCountX, cellCountY)
      ensures forall p, q :: Tracks(p) && Tracks(q) && p != q && CellOf(p) == CellOf(q) ==>
                Count(pairs, (p, q)) + Count(pairs, (q, p)) == 1
      ensures forall p, q :: Tracks(p) && Tracks(q) && CellOf(p) != CellOf(q) ==>
                Count(pairs, (p, q)) == if Linked(CellOf(p), CellOf(q), cellCountX, cellCountY) then 1 else 0
    {
      forall k | 0 <= k < |pairs|
        ensures pairs[k].0 != pairs[k].1 && Tracks(pairs[k].0) && Tracks(pairs[k].1) &&
                Linked(CellOf(pairs[k].0), CellOf(pairs[k].1), cellCountX, cellCountY)
      {
        var m, h := FlattenMember(chunks, k);
        FitsEntry(chunks[m], cellPairs[m], h);
        MemberTracked(cellPairs[m].0, pairs[k].0);
        MemberTracked(cellPairs[m].1, pairs[k].1);
        Occurs(cellPairs, m);
      }
      forall p, q | Tracks(p) && Tracks(q) && p != q && CellOf(p) == CellOf(q)
        ensures Count(pairs, (p, q)) + Count(pairs, (q, p)) == 1
      {
        var c := CellOf(p);
        forall m | 0 <= m < |chunks|
          ensures Count(chunks[m], (p, q)) + Count(chunks[m], (q, p)) == if cellPairs[m] == (c, c) then 1 else 0
        {
          ChunkSame(chunks[m], cellPairs[m], p, q);
        }
        FlattenCountBoth(chunks, cellPairs, (p, q), (q, p), (c, c));
        MemberTracked(c, p);
      }
      forall p, q | Tracks(p) && Tracks(q) && CellOf(p) != CellOf(q)
        ensures Count(pairs, (p, q)) == if Linked(CellOf(p), CellOf(q), cellCountX, cellCountY) then 1 else 0
      {
        forall m | 0 <= m < |chunks|
          ensures Count(chunks[m], (p, q)) == if cellPairs[m] == (CellOf(p), CellOf(q)) then 1 else 0
        {
          ChunkCross(chunks[m], cellPairs[m], p, q);
        }
        FlattenCount(chunks, cellPairs, (p, q), (CellOf(p), CellOf(q)));
      }
    }
  }
}
