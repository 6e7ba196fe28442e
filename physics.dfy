/**
 * The physics system (physics/PhysicsSystem.cpp): a registry of bodies in
 * slots indexed by Body::index, a grid broad phase and an Euler solver.
 * step integrates every body, asks the broad phase for candidate pairs and
 * runs the collision callback on each pair in the order they come. The
 * callback is specified by Collide, a fold over the bodies' states; the
 * onCollide calls it makes are recorded in order.
 */
module Physics {
  import opened Wrappers
  import opened Vec
  import opened Bodies
  import opened Shapes
  import opened Solvers
  import opened BroadPhases
  import opened Pairs

  /** One onCollide call: the body whose callback runs, the other body, and the body's side of the manifold. */
  datatype Collision = Collision(body: Body, other: Body, point: Point)

  /** step dereferences every slot, so none may be empty. */
  predicate NoNullSlots(bodies: seq<Option<Body>>)
  {
    forall i :: 0 <= i < |bodies| ==> bodies[i].Some?
  }

  /**
   * removeBody empties the slot it names, so the registry then fails what
   * step's first loop, as written, needs of every slot.
   */
  lemma EmptiedSlotHasNull(bodies: seq<Option<Body>>, i: int)
    requires 0 <= i < |bodies|
    ensures !NoNullSlots(bodies[i := None])
  {
    assert bodies[i := None][i] == None;
  }

  /** The bodies of a registry without empty slots. */
  function Objects(bodies: seq<Option<Body>>): (r: seq<Body>)
    requires NoNullSlots(bodies)
    ensures |r| == |bodies| && forall i :: 0 <= i < |r| ==> bodies[i] == Some(r[i])
  {
    seq(|bodies|, i requires 0 <= i < |bodies| => bodies[i].value)
  }

  /**
   * States the collision callback can run on: resolve never divides by a
   * zero total mass, and a shape tagged BOX is a box.
   */
  predicate Collidable(st: seq<BodyState>)
  {
    (forall i, j {:trigger Weighable(st[i], st[j])} :: 0 <= i < |st| && 0 <= j < |st| ==> Weighable(st[i], st[j])) &&
    (forall i :: 0 <= i < |st| ==> st[i].shape.Type() == BoxShape ==> st[i].shape.Box?)
  }

  /** Slots i and j hold two bodies the collision callback can run on. */
  predicate Pairable(st: seq<BodyState>, i: int, j: int)
  {
    0 <= i < |st| && 0 <= j < |st| && i != j && Weighable(st[i], st[j]) &&
    (st[j].shape.Type() == BoxShape ==> st[j].shape.Box?)
  }

  /** st2 differs from st only in positions and velocities. */
  predicate Moves(st: seq<BodyState>, st2: seq<BodyState>)
  {
    |st2| == |st| &&
    forall i :: 0 <= i < |st| ==> st2[i] == st[i].(position := st2[i].position, velocity := st2[i].velocity)
  }

  lemma MovesRefl(st: seq<BodyState>)
    ensures Moves(st, st)
  {
  }

  lemma MovesTrans(st: seq<BodyState>, st2: seq<BodyState>, st3: seq<BodyState>)
    requires Moves(st, st2) && Moves(st2, st3)
    ensures Moves(st, st3)
  {
  }

  /** Moving bodies keeps their types, masses and shapes, so they stay collidable. */
  lemma MovesCollidable(st: seq<BodyState>, st2: seq<BodyState>)
    requires Moves(st, st2) && Collidable(st)
    ensures Collidable(st2)
  {
    forall i, j | 0 <= i < |st2| && 0 <= j < |st2| ensures Weighable(st2[i], st2[j]) {
      assert Weighable(st[i], st[j]);
    }
  }

  /** Slot pairs that name two different slots among n. */
  predicate SlotPairs(slots: seq<(int, int)>, n: int)
  {
    forall k :: 0 <= k < |slots| ==> 0 <= slots[k].0 < n && 0 <= slots[k].1 < n && slots[k].0 != slots[k].1
  }

  /** The onCollide calls for a contact: A's callback first, then B's, each only when it is set. */
  function Calls(m: Manifold, aCalls: bool, bCalls: bool): seq<Collision>
  {
    (if aCalls then [Collision(m.a.body, m.b.body, m.a)] else []) +
    (if bCalls then [Collision(m.b.body, m.a.body, m.b)] else [])
  }

  /**
   * The outcome of the contact test m on the bodies in slots i and j: no
   * contact changes nothing; a contact resolves the pair unless either body
   * is a COLLIDER, and calls the callbacks whatever the types.
   */
  function Contacted(st: seq<BodyState>, i: int, j: int, m: Option<Manifold>): (r: (seq<BodyState>, seq<Collision>))
    requires 0 <= i < |st| && 0 <= j < |st| && Weighable(st[i], st[j])
    ensures Moves(st, r.0)
  {
    match m
    case None => (st, [])
    case Some(m) =>
      ResolvedLaws(m, st[i], st[j]);
      var resolved := Resolved(m, st[i], st[j]);
      (if st[i].bodyType != Collider && st[j].bodyType != Collider then st[i := resolved.0][j := resolved.1] else st,
       Calls(m, st[i].hasOnCollide, st[j].hasOnCollide))
  }

  /** The collision callback on the bodies in slots i and j: A's shape tests for contact with B's. */
  function Touch(bs: seq<Body>, st: seq<BodyState>, i: int, j: int): (r: (seq<BodyState>, seq<Collision>))
    requires |bs| == |st| && Pairable(st, i, j)
    ensures Moves(st, r.0)
  {
    Contacted(st, i, j, Check(bs[i], st[i].shape, st[i].position, bs[j], st[j].shape, st[j].position))
  }

  /** The callback run on each slot pair in turn, with the calls it makes. */
  function Collide(bs: seq<Body>, st: seq<BodyState>, slots: seq<(int, int)>): (r: (seq<BodyState>, seq<Collision>))
    requires |bs| == |st| && Collidable(st) && SlotPairs(slots, |st|)
    ensures Moves(st, r.0)
    decreases |slots|
  {
    if slots == [] then
      MovesRefl(st);
      (st, [])
    else
      var front := Collide(bs, st, slots[..|slots| - 1]);
      MovesCollidable(st, front.0);
      var last := slots[|slots| - 1];
      var next := Touch(bs, front.0, last.0, last.1);
      MovesTrans(st, front.0, next.0);
      (next.0, front.1 + next.1)
  }

  /**
   * A pair whose shapes report no contact changes nothing and calls
   * nothing. A contact calls the callbacks that are set, A's first; it
   * moves the pair as resolve does unless a COLLIDER takes part, and leaves
   * every other slot alone.
   */
  lemma TouchLaws(bs: seq<Body>, st: seq<BodyState>, i: int, j: int)
    requires |bs| == |st| && Pairable(st, i, j)
    ensures var m := Check(bs[i], st[i].shape, st[i].position, bs[j], st[j].shape, st[j].position);
            var r := Touch(bs, st, i, j);
            (m.None? ==> r == (st, [])) &&
            (m.Some? ==>
               |r.1| == (if st[i].hasOnCollide then 1 else 0) + (if st[j].hasOnCollide then 1 else 0) &&
               (forall e :: e in r.1 ==>
                  (e.body == bs[i] && e.other == bs[j] && e.point == m.value.a && st[i].hasOnCollide) ||
                  (e.body == bs[j] && e.other == bs[i] && e.point == m.value.b && st[j].hasOnCollide)) &&
               (forall k :: 0 <= k < |st| && k != i && k != j ==> r.0[k] == st[k]) &&
               (st[i].bodyType == Collider || st[j].bodyType == Collider ==> r.0 == st) &&
               (st[i].bodyType != Collider && st[j].bodyType != Collider ==>
                  r.0[i] == Resolved(m.value, st[i], st[j]).0 && r.0[j] == Resolved(m.value, st[i], st[j]).1))
  {
  }

  /**
   * Collisions move only DYNAMIC bodies: a STATIC body takes a zero share
   * of every correction, and no pair with a COLLIDER is resolved.
   */
  lemma {:induction false} OnlyDynamicMoves(bs: seq<Body>, st: seq<BodyState>, slots: seq<(int, int)>, k: int)
    requires |bs| == |st| && Collidable(st) && SlotPairs(slots, |st|)
    requires 0 <= k < |st| && st[k].bodyType != Dynamic
    ensures Collide(bs, st, slots).0[k] == st[k]
    decreases |slots|
  {
    if slots != [] {
      var front := Collide(bs, st, slots[..|slots| - 1]);
      OnlyDynamicMoves(bs, st, slots[..|slots| - 1], k);
      MovesCollidable(st, front.0);
      var last := slots[|slots| - 1];
      TouchLaws(bs, front.0, last.0, last.1);
      var m := Check(bs[last.0], front.0[last.0].shape, front.0[last.0].position, bs[last.1], front.0[last.1].shape, front.0[last.1].position);
      if m.Some? {
        ResolvedLaws(m.value, front.0[last.0], front.0[last.1]);
      }
    }
  }

  /** A slot no pair names keeps its state. */
  lemma {:induction false} UnpairedStays(bs: seq<Body>, st: seq<BodyState>, slots: seq<(int, int)>, k: int)
    requires |bs| == |st| && Collidable(st) && SlotPairs(slots, |st|) && 0 <= k < |st|
    requires forall h :: 0 <= h < |slots| ==> slots[h].0 != k && slots[h].1 != k
    ensures Collide(bs, st, slots).0[k] == st[k]
    decreases |slots|
  {
    if slots != [] {
      var front := Collide(bs, st, slots[..|slots| - 1]);
      UnpairedStays(bs, st, slots[..|slots| - 1], k);
      MovesCollidable(st, front.0);
      var last := slots[|slots| - 1];
      TouchLaws(bs, front.0, last.0, last.1);
    }
  }

  /** Without any onCollide set, the step calls nothing. */
  lemma {:induction false} NoCallbacksNoCalls(bs: seq<Body>, st: seq<BodyState>, slots: seq<(int, int)>)
    requires |bs| == |st| && Collidable(st) && SlotPairs(slots, |st|)
    requires forall i :: 0 <= i < |st| ==> !st[i].hasOnCollide
    ensures Collide(bs, st, slots).1 == []
    decreases |slots|
  {
    if slots != [] {
      var front := Collide(bs, st, slots[..|slots| - 1]);
      NoCallbacksNoCalls(bs, st, slots[..|slots| - 1]);
      MovesCollidable(st, front.0);
      var last := slots[|slots| - 1];
      TouchLaws(bs, front.0, last.0, last.1);
    }
  }

  /** The fold over the first i + 1 pairs: the callback on pair i, run on the states the earlier pairs left. */
  lemma CollidePrefix(bs: seq<Body>, st: seq<BodyState>, slots: seq<(int, int)>, i: int)
    requires |bs| == |st| && Collidable(st) && SlotPairs(slots, |st|) && 0 <= i < |slots|
    ensures SlotPairs(slots[..i], |st|) && SlotPairs(slots[..i + 1], |st|)
    ensures Collidable(Collide(bs, st, slots[..i]).0) && Pairable(Collide(bs, st, slots[..i]).0, slots[i].0, slots[i].1)
    ensures Collide(bs, st, slots[..i + 1]).0 == Touch(bs, Collide(bs, st, slots[..i]).0, slots[i].0, slots[i].1).0
    ensures Collide(bs, st, slots[..i + 1]).1 == Collide(bs, st, slots[..i]).1 + Touch(bs, Collide(bs, st, slots[..i]).0, slots[i].0, slots[i].1).1
  {
    var all := slots[..i + 1];
    assert all[..i] == slots[..i] && all[i] == slots[i];
    var front := Collide(bs, st, slots[..i]).0;
    MovesCollidable(st, front);
    assert Weighable(front[slots[i].0], front[slots[i].1]);
  }

  lemma CallsAssociate(a: seq<Collision>, b: seq<Collision>, c: seq<Collision>)
    ensures a + b + c == a + (b + c)
  {
  }

  /** The cell a table entry names, or no cell past the end of the table. */
  function CellAt(table: seq<CellId>, i: int): (r: CellId)
    ensures !(0 <= i < |table|) ==> r == NoCell
  {
    if 0 <= i < |table| then table[i] else NoCell
  }

  /** No body occurs in two slots. */
  predicate Injective(objs: seq<Body>)
  {
    forall i, j :: 0 <= i < |objs| && 0 <= j < |objs| && objs[i] == objs[j] ==> i == j
  }

  /** Pair k holds the bodies of the two different slots slots[k] names. */
  predicate PairsAt(pairs: seq<(Body, Body)>, objs: seq<Body>, slots: seq<(int, int)>)
  {
    |pairs| == |slots| && SlotPairs(slots, |objs|) &&
    forall k :: 0 <= k < |slots| ==> pairs[k] == (objs[slots[k].0], objs[slots[k].1])
  }

  /**
   * The slot pairs each() of the grid hands over for the cells the table
   * names: only slots in linked cells; two slots in one cell once, in
   * either order; two slots in different cells once in every order the
   * cells are linked in.
   */
  predicate Scheduled(slots: seq<(int, int)>, table: seq<CellId>, countX: int, countY: int)
  {
    (forall k :: 0 <= k < |slots| ==> Linked(CellAt(table, slots[k].0), CellAt(table, slots[k].1), countX, countY)) &&
    (forall i, j :: 0 <= i < |table| && 0 <= j < |table| && i != j && table[i] == table[j] ==>
       Count(slots, (i, j)) + Count(slots, (j, i)) == 1) &&
    (forall i, j :: 0 <= i < |table| && 0 <= j < |table| && table[i] != table[j] ==>
       Count(slots, (i, j)) == if Linked(table[i], table[j], countX, countY) then 1 else 0)
  }

  /** With no body in two slots, a pair of bodies occurs as often as the pair of their slots. */
  lemma {:induction false} CountAt(pairs: seq<(Body, Body)>, objs: seq<Body>, slots: seq<(int, int)>, i: int, j: int)
    requires PairsAt(pairs, objs, slots) && Injective(objs) && 0 <= i < |objs| && 0 <= j < |objs|
    ensures Count(pairs, (objs[i], objs[j])) == Count(slots, (i, j))
    decreases |pairs|
  {
    if pairs != [] {
      var n := |pairs| - 1;
      assert PairsAt(pairs[..n], objs, slots[..n]) by {
        assert forall k :: 0 <= k < n ==> pairs[..n][k] == pairs[k] && slots[..n][k] == slots[k];
      }
      CountAt(pairs[..n], objs, slots[..n], i, j);
      assert (pairs[n] == (objs[i], objs[j])) == (slots[n] == (i, j));
    }
  }

  /** Every body's EulerSolver::preUpdate with time step dt. */
  function Integrated(st: seq<BodyState>, dt: real): (r: seq<BodyState>)
    ensures |r| == |st| && forall i :: 0 <= i < |st| ==> r[i] == PreUpdated(st[i], dt)
  {
    seq(|st|, i requires 0 <= i < |st| => PreUpdated(st[i], dt))
  }

  /** Integration keeps types, masses and shapes, so it keeps the states collidable. */
  lemma IntegratedCollidable(st: seq<BodyState>, dt: real)
    requires Collidable(st)
    ensures Collidable(Integrated(st, dt))
  {
    var st2 := Integrated(st, dt);
    forall i, j | 0 <= i < |st2| && 0 <= j < |st2| ensures Weighable(st2[i], st2[j]) {
      PreUpdatedKeepsWeights(st[i], st[j], dt);
    }
    forall i | 0 <= i < |st2| ensures st2[i].shape == st[i].shape {
      PreUpdatedLaws(st[i], dt);
    }
  }

  /** The delta times update hands to step: subSteps equal shares of dt, none when subSteps is not positive. */
  function SubSteps(dt: real, subSteps: int): (r: seq<real>)
    ensures |r| == if subSteps > 0 then subSteps else 0
    ensures forall k :: 0 <= k < |r| ==> r[k] * subSteps as real == dt
  {
    if subSteps <= 0 then [] else seq(subSteps, _ => dt / subSteps as real)
  }

  /** The time a sequence of steps covers. */
  function Total(s: seq<real>): real
  {
    if s == [] then 0.0 else Total(s[..|s| - 1]) + s[|s| - 1]
  }

  /** k equal steps cover k times the step. */
  lemma {:induction false} TotalRepeated(k: nat, x: real)
    ensures Total(seq(k, _ => x)) == k as real * x
  {
    if k > 0 {
      assert seq(k, _ => x)[..k - 1] == seq(k - 1, _ => x);
      TotalRepeated(k - 1, x);
    }
  }

  /** The sub-steps of one update cover its whole delta time, and no time when subSteps is not positive. */
  lemma SubStepsCover(dt: real, subSteps: int)
    ensures Total(SubSteps(dt, subSteps)) == if subSteps > 0 then dt else 0.0
  {
    if subSteps > 0 {
      TotalRepeated(subSteps, dt / subSteps as real);
    }
  }

  class PhysicsSystem {
    var defaultShape: Shape
    /** The slots; removeBody empties a slot, nothing compacts them. */
    var bodies: seq<Option<Body>>
    var broadPhase: StaticGridBroadPhase
    var solver: EulerSolver
    /** Every onCollide call made so far, in order. */
    var collisions: seq<Collision>
    /** The time step of every step taken so far. */
    ghost var steps: seq<real>

    /** The bodies in the slots. */
    ghost function Live(): set<Body>
      reads this`bodies
    {
      set i | 0 <= i < |bodies| && bodies[i].Some? :: bodies[i].value
    }

    /** The body is in the slot its index names. */
    ghost predicate Registered(b: Body)
      reads this`bodies, b`index
    {
      0 <= b.index < |bodies| && bodies[b.index] == Some(b)
    }

    /**
     * Each body sits in the slot its index names; every body the broad
     * phase holds is registered; and every registered body with an entry
     * naming a cell is in that cell.
     */
    ghost predicate Valid()
      reads this`bodies, this`broadPhase, broadPhase`cells, broadPhase`outsideCell, broadPhase`cellCountX, broadPhase`cellCountY, broadPhase`cellByBodyIndex, broadPhase`cellSize, broadPhase`offset, broadPhase.Tracked()`index, Live()`index
    {
      broadPhase.Valid() &&
      |broadPhase.cellByBodyIndex| <= |bodies| &&
      (forall i :: 0 <= i < |bodies| && bodies[i].Some? ==> bodies[i].value.index == i) &&
      (forall c, b :: b in broadPhase.Members(c) ==> Registered(b)) &&
      (forall i :: 0 <= i < |broadPhase.cellByBodyIndex| && bodies[i].Some? && broadPhase.cellByBodyIndex[i] != NoCell ==>
                     broadPhase.Tracks(bodies[i].value))
    }

    /** The states of the bodies, slot by slot. */
    ghost function States(): (r: seq<BodyState>)
      reads this`bodies, Live()
      requires NoNullSlots(bodies)
      ensures |r| == |bodies| && forall i :: 0 <= i < |bodies| ==> r[i] == StateOf(bodies[i].value)
    {
      var objects := Objects(bodies);
      assert forall j :: 0 <= j < |objects| ==> objects[j] in Live();
      seq(|objects|, j requires 0 <= j < |objects| reads objects => StateOf(objects[j]))
    }

    /** The state of each slot's body, and None for an empty slot. */
    ghost function SlotStates(): (r: seq<Option<BodyState>>)
      reads this`bodies, Live()
      ensures |r| == |bodies|
      ensures forall i :: 0 <= i < |bodies| ==> (r[i].Some? <==> bodies[i].Some?)
      ensures forall i :: 0 <= i < |bodies| && bodies[i].Some? ==> r[i].value == StateOf(bodies[i].value)
    {
      var slots := bodies;
      var live := Live();
      assert forall j :: 0 <= j < |slots| && slots[j].Some? ==> slots[j].value in live;
      seq(|slots|, j requires 0 <= j < |slots| reads live => if slots[j].Some? && slots[j].value in live then Some(StateOf(slots[j].value)) else None)
    }

    /** What step needs: no empty slot and collidable bodies. */
    ghost predicate Ready()
      reads this`bodies, Live()
    {
      NoNullSlots(bodies) && Collidable(States())
    }

    /** The broad phase holds the body in the cell getCell names for position p. */
    ghost predicate Placed(b: Body, p: Vec2)
      reads this`broadPhase, broadPhase`cells, broadPhase`outsideCell, broadPhase`cellCountX, broadPhase`cellCountY, broadPhase`cellByBodyIndex, broadPhase`cellSize, broadPhase`offset, b`index
      requires broadPhase.cellSize.x > 0.0 && broadPhase.cellSize.y > 0.0
    {
      broadPhase.Tracks(b) &&
      broadPhase.CellOf(b) == CellFor(broadPhase.offset, broadPhase.cellSize, broadPhase.cellCountX, broadPhase.cellCountY, p)
    }

    /** init: a 50 x 50 grid of 2 x 2 cells, an Euler solver and a unit box as the default shape; no bodies yet. */
    constructor ()
      ensures Valid() && bodies == [] && collisions == [] && steps == []
      ensures defaultShape == UnitBox && fresh(broadPhase) && fresh(solver)
      ensures broadPhase.cellSize == Vec2(2.0, 2.0) && broadPhase.cellCountX == 50 && broadPhase.cellCountY == 50
      ensures broadPhase.cellByBodyIndex == [] && forall c :: broadPhase.Members(c) == {}
      ensures solver.deltaTime == 0.01
    {
      broadPhase := new StaticGridBroadPhase(Vec2(2.0, 2.0), 50, 50);
      solver := new EulerSolver();
      defaultShape := UnitBox;
      bodies := [];
      collisions := [];
      steps := [];
    }

    function GetBodyCount(): (r: int)
      reads this`bodies
      ensures r >= 0
    {
      |bodies|
    }

    /** getBody: the body in slot index, or null outside the slots or for an emptied slot. */
    function GetBody(index: int): (r: Option<Body>)
      reads this`bodies
      ensures !(0 <= index < GetBodyCount()) ==> r == None
      ensures r.Some? ==> r.value in Live()
    {
      if 0 <= index < |bodies| then bodies[index] else None
    }

    /** The body getBody returns for an index carries that index. */
    lemma GetBodyIndexed(index: int)
      requires Valid()
      ensures GetBody(index).Some? ==> GetBody(index).value.index == index && Registered(GetBody(index).value)
    {
    }

    /**
     * addBody: a new body with the default shape and the next index goes in
     * a new last slot, so the count grows by one and getBody finds it.
     */
    method AddBody() returns (body: Body)
      requires Valid()
      modifies this`bodies
      ensures Valid() && fresh(body)
      ensures bodies == old(bodies) + [Some(body)]
      ensures GetBodyCount() == old(GetBodyCount()) + 1 && GetBody(body.index) == Some(body)
      ensures body.index == old(|bodies|) && body.shape == defaultShape && body.entity == None
      ensures StateOf(body) == BodyState(Static, Zero, Vec2(1.0, 1.0), 0.0, Zero, 0.0, Zero, Zero, 0.0, Zero, 1.0, defaultShape, false)
    {
      body := new Body(|bodies|, defaultShape);
      bodies := bodies + [Some(body)];
      forall c, b | b in broadPhase.Members(c) ensures Registered(b) {
        assert old(Registered(b));
      }
    }

    /**
     * removeBody: the broad phase drops the body, its index is reset to 0,
     * and the slot it named, when there is one, is emptied; the count and
     * every other slot stay. The slot named must not hold another body.
     */
    method RemoveBody(body: Body)
      requires Valid()
      requires 0 <= body.index < |bodies| ==> bodies[body.index] == None || bodies[body.index] == Some(body)
      modifies broadPhase`cells, broadPhase`outsideCell, this`bodies, body`index
      ensures Valid() && body.index == 0
      ensures bodies == if 0 <= old(body.index) < old(|bodies|) then old(bodies)[old(body.index) := None] else old(bodies)
      ensures GetBodyCount() == old(GetBodyCount()) && body !in Live()
      ensures 0 <= old(body.index) < old(|bodies|) ==> !Ready()
      ensures broadPhase.cellByBodyIndex == old(broadPhase.cellByBodyIndex)
      ensures forall c :: broadPhase.Members(c) == old(broadPhase.Members(c)) - {body}
    {
      broadPhase.RemoveBody(body);
      var index := body.index;
      body.index := 0;
      if 0 <= index < |bodies| {
        bodies := bodies[index := None];
      }
      forall i | 0 <= i < |bodies| && bodies[i].Some?
        ensures bodies[i] == old(bodies[i]) && bodies[i].value != body && bodies[i].value.index == i
      {
        assert i != index;
        assert old(bodies[i].value.index) == i;
      }
      assert body !in Live();
      forall c, b | b in broadPhase.Members(c) ensures Registered(b) {
        assert b != body && old(Registered(b));
      }
      forall i | 0 <= i < |broadPhase.cellByBodyIndex| && bodies[i].Some? && broadPhase.cellByBodyIndex[i] != NoCell
        ensures broadPhase.Tracks(bodies[i].value)
      {
        assert old(broadPhase.Tracks(bodies[i].value));
      }
    }

    /** clearBodies: the broad phase and the registry are both emptied. */
    method ClearBodies()
      requires Valid()
      modifies broadPhase`cells, broadPhase`outsideCell, broadPhase`cellByBodyIndex, this`bodies
      ensures Valid() && bodies == [] && GetBodyCount() == 0
      ensures broadPhase.cellByBodyIndex == [] && forall c :: broadPhase.Members(c) == {}
    {
      broadPhase.ClearBodies();
      bodies := [];
    }

    /**
     * updateBody on a registered body, as step's first loop does: the body
     * is then in the cell for its position, and every other body keeps its
     * cell.
     */
    method PlaceBody(body: Body)
      requires Valid() && Registered(body)
      modifies broadPhase`cells, broadPhase`outsideCell, broadPhase`cellByBodyIndex
      ensures Valid() && Placed(body, body.position)
      ensures forall i :: 0 <= i < |bodies| && bodies[i].Some? && bodies[i].value != body && old(broadPhase.Tracks(bodies[i].value)) ==>
                broadPhase.Tracks(bodies[i].value) && broadPhase.CellOf(bodies[i].value) == old(broadPhase.CellOf(bodies[i].value))
    {
      forall c, b | b in broadPhase.Members(c) && b != body ensures b.index != body.index {
        assert Registered(b);
      }
      broadPhase.UpdateBody(body);
      forall c, b | b in broadPhase.Members(c) ensures Registered(b) {
        assert b == body || b in old(broadPhase.Members(c));
      }
      forall i | 0 <= i < |broadPhase.cellByBodyIndex| && bodies[i].Some? && broadPhase.cellByBodyIndex[i] != NoCell
        ensures broadPhase.Tracks(bodies[i].value)
      {
        if bodies[i].value != body {
          assert old(broadPhase.Tracks(bodies[i].value));
        }
      }
    }

    /** preUpdate on one body; the registry and the broad phase do not look at what it changes. */
    method Integrate(body: Body)
      requires Valid()
      modifies body`force, body`velocity, body`position, body`rotation
      ensures Valid() && StateOf(body) == PreUpdated(old(StateOf(body)), solver.deltaTime)
    {
      solver.PreUpdate(body);
    }

    /**
     * The state of step's first loop, with the check for an empty slot,
     * before the turn of slot i: the bodies of the slots below i are placed
     * by their old positions and integrated, the others are untouched, and
     * before is empty exactly where the slot is.
     */
    ghost predicate PreparedUpTo(i: int, before: seq<Option<BodyState>>, dt: real)
      reads this`bodies, this`broadPhase, broadPhase`cells, broadPhase`outsideCell, broadPhase`cellCountX, broadPhase`cellCountY, broadPhase`cellByBodyIndex, broadPhase`cellSize, broadPhase`offset, broadPhase.Tracked()`index, Live()
      requires |before| == |bodies| && 0 <= i <= |bodies|
    {
      Valid() && broadPhase.cellSize.x > 0.0 && broadPhase.cellSize.y > 0.0 &&
      (forall j :: 0 <= j < |bodies| ==> (before[j].Some? <==> bodies[j].Some?)) &&
      (forall j :: 0 <= j < i && bodies[j].Some? ==> StateOf(bodies[j].value) == PreUpdated(before[j].value, dt)) &&
      (forall j :: i <= j < |bodies| && bodies[j].Some? ==> StateOf(bodies[j].value) == before[j].value) &&
      (forall j :: 0 <= j < i && bodies[j].Some? ==> Placed(bodies[j].value, before[j].value.position))
    }

    /** The turn of a non-empty slot i in step's first loop: updateBody, then preUpdate. */
    method Turn(i: int, body: Body, ghost before: seq<Option<BodyState>>)
      requires |before| == |bodies| && 0 <= i < |bodies| && bodies[i] == Some(body)
      requires PreparedUpTo(i, before, solver.deltaTime)
      modifies broadPhase`cells, broadPhase`outsideCell, broadPhase`cellByBodyIndex
      modifies body`force, body`velocity, body`position, body`rotation
      ensures PreparedUpTo(i + 1, before, solver.deltaTime)
    {
      assert StateOf(body) == before[i].value;
      PlaceBody(body);
      label Placed:
      Integrate(body);
      assert StateOf(body) == PreUpdated(before[i].value, solver.deltaTime);
      forall j | 0 <= j < |bodies| && j != i && bodies[j].Some?
        ensures bodies[j].value != body && StateOf(bodies[j].value) == old(StateOf(bodies[j].value))
      {
        assert bodies[j].value.index == j;
      }
      forall j | 0 <= j <= i && bodies[j].Some? ensures Placed(bodies[j].value, before[j].value.position) {
        assert old@Placed(Placed(bodies[j].value, before[j].value.position));
      }
    }

    /**
     * The corrected first loop of step: an empty slot, which removeBody
     * leaves behind, is skipped; every body, in slot order, is placed by its
     * position so far and then integrated.
     */
    method PrepareLive() returns (ghost before: seq<Option<BodyState>>)
      requires Valid()
      modifies broadPhase`cells, broadPhase`outsideCell, broadPhase`cellByBodyIndex
      modifies Live()`force, Live()`velocity, Live()`position, Live()`rotation
      ensures Valid() && bodies == old(bodies) && solver == old(solver) && solver.deltaTime == old(solver.deltaTime)
      ensures |before| == |bodies| && forall i :: 0 <= i < |bodies| ==> (before[i].Some? <==> bodies[i].Some?)
      ensures forall i :: 0 <= i < |bodies| && bodies[i].Some? ==> before[i].value == old(StateOf(bodies[i].value))
      ensures forall i :: 0 <= i < |bodies| && bodies[i].Some? ==> StateOf(bodies[i].value) == PreUpdated(before[i].value, solver.deltaTime)
      ensures forall i :: 0 <= i < |bodies| && bodies[i].Some? ==> Placed(bodies[i].value, before[i].value.position)
    {
      before := SlotStates();
      PrepareSlots(before);
    }

    /** The loop of PrepareLive, from the untouched registry to the prepared one. */
    method PrepareSlots(ghost before: seq<Option<BodyState>>)
      requires |before| == |bodies| && PreparedUpTo(0, before, solver.deltaTime)
      modifies broadPhase`cells, broadPhase`outsideCell, broadPhase`cellByBodyIndex
      modifies Live()`force, Live()`velocity, Live()`position, Live()`rotation
      ensures PreparedUpTo(|bodies|, before, solver.deltaTime)
    {
      var i := 0;
      while i < |bodies|
        invariant 0 <= i <= |bodies| && PreparedUpTo(i, before, solver.deltaTime)
      {
        var slot := bodies[i];
        if slot.Some? {
          assert slot.value in Live();
          Turn(i, slot.value, before);
        }
        i := i + 1;
      }
    }

    /** step's first loop on a registry without empty slots: every body is placed by its position so far, then integrated. */
    method Prepare() returns (ghost before: seq<BodyState>)
      requires Valid() && NoNullSlots(bodies)
      modifies broadPhase`cells, broadPhase`outsideCell, broadPhase`cellByBodyIndex
      modifies Live()`force, Live()`velocity, Live()`position, Live()`rotation
      ensures Valid() && bodies == old(bodies) && solver == old(solver) && solver.deltaTime == old(solver.deltaTime)
      ensures |before| == |bodies| && forall i :: 0 <= i < |bodies| ==> before[i] == old(StateOf(bodies[i].value))
      ensures forall i :: 0 <= i < |bodies| ==> StateOf(bodies[i].value) == PreUpdated(before[i], solver.deltaTime)
      ensures forall i :: 0 <= i < |bodies| ==> Placed(bodies[i].value, before[i].position)
    {
      ghost var live := PrepareLive();
      before := seq(|live|, j requires 0 <= j < |live| && live[j].Some? => live[j].value);
    }

    /** Each body sits in the slot its index names. */
    ghost predicate Indexed()
      reads this`bodies, Live()`index
    {
      forall i :: 0 <= i < |bodies| && bodies[i].Some? ==> bodies[i].value.index == i
    }

    /** Once every body is in the grid, the grid's members are exactly the bodies, each in the cell its slot's entry names. */
    lemma TrackedSlots()
      requires Valid() && NoNullSlots(bodies)
      requires forall i :: 0 <= i < |bodies| ==> broadPhase.Tracks(bodies[i].value)
      ensures |broadPhase.cellByBodyIndex| == |bodies| && Injective(Objects(bodies))
      ensures forall c, b :: b in broadPhase.Members(c) ==>
                0 <= b.index < |bodies| && Objects(bodies)[b.index] == b && CellAt(broadPhase.cellByBodyIndex, b.index) == broadPhase.CellOf(b)
      ensures forall i :: 0 <= i < |bodies| ==>
                Objects(bodies)[i].index == i && broadPhase.Tracks(Objects(bodies)[i]) && broadPhase.CellOf(Objects(bodies)[i]) == broadPhase.cellByBodyIndex[i]
    {
      var objs := Objects(bodies);
      if |bodies| > 0 {
        assert broadPhase.Tracks(objs[|bodies| - 1]);
      }
      forall c, b | b in broadPhase.Members(c) ensures 0 <= b.index < |objs| && objs[b.index] == b {
        assert Registered(b);
      }
      forall i, j | 0 <= i < |objs| && 0 <= j < |objs| && objs[i] == objs[j] ensures i == j {
        assert objs[i].index == i && objs[j].index == j;
      }
      forall i | 0 <= i < |bodies| ensures objs[i].index == i && broadPhase.Tracks(objs[i]) {
        assert objs[i] == bodies[i].value;
      }
    }

    /** The broad phase's each() once every body is in the grid, with the slots of the pairs it hands over. */
    method Detect() returns (pairs: seq<(Body, Body)>, ghost slots: seq<(int, int)>)
      requires Valid() && NoNullSlots(bodies)
      requires forall i :: 0 <= i < |bodies| ==> broadPhase.Tracks(bodies[i].value)
      ensures |broadPhase.cellByBodyIndex| == |bodies|
      ensures PairsAt(pairs, Objects(bodies), slots)
      ensures Scheduled(slots, broadPhase.cellByBodyIndex, broadPhase.cellCountX, broadPhase.cellCountY)
    {
      ghost var chunks, cellPairs;
      pairs, chunks, cellPairs := broadPhase.Each();
      TrackedSlots();
      ghost var objs := Objects(bodies);
      ghost var table := broadPhase.cellByBodyIndex;
      slots := SlotsOf(pairs);
      forall k | 0 <= k < |pairs|
        ensures 0 <= slots[k].0 < |objs| && 0 <= slots[k].1 < |objs| && slots[k].0 != slots[k].1
        ensures pairs[k] == (objs[slots[k].0], objs[slots[k].1])
        ensures Linked(CellAt(table, slots[k].0), CellAt(table, slots[k].1), broadPhase.cellCountX, broadPhase.cellCountY)
      {
        assert pairs[k].0 in broadPhase.Members(broadPhase.CellOf(pairs[k].0));
        assert pairs[k].1 in broadPhase.Members(broadPhase.CellOf(pairs[k].1));
      }
      SlotsCounted(pairs, slots);
    }

    /** What each() promises for pairs of tracked bodies, read as a promise about slot pairs. */
    lemma SlotsCounted(pairs: seq<(Body, Body)>, slots: seq<(int, int)>)
      requires Valid() && NoNullSlots(bodies)
      requires forall i :: 0 <= i < |bodies| ==> broadPhase.Tracks(bodies[i].value)
      requires PairsAt(pairs, Objects(bodies), slots)
      requires forall p, q :: broadPhase.Tracks(p) && broadPhase.Tracks(q) && p != q && broadPhase.CellOf(p) == broadPhase.CellOf(q) ==>
                 Count(pairs, (p, q)) + Count(pairs, (q, p)) == 1
      requires forall p, q :: broadPhase.Tracks(p) && broadPhase.Tracks(q) && broadPhase.CellOf(p) != broadPhase.CellOf(q) ==>
                 Count(pairs, (p, q)) == if Linked(broadPhase.CellOf(p), broadPhase.CellOf(q), broadPhase.cellCountX, broadPhase.cellCountY) then 1 else 0
      requires forall k :: 0 <= k < |slots| ==>
                 Linked(CellAt(broadPhase.cellByBodyIndex, slots[k].0), CellAt(broadPhase.cellByBodyIndex, slots[k].1), broadPhase.cellCountX, broadPhase.cellCountY)
      ensures |broadPhase.cellByBodyIndex| == |bodies|
      ensures Scheduled(slots, broadPhase.cellByBodyIndex, broadPhase.cellCountX, broadPhase.cellCountY)
    {
      TrackedSlots();
      var objs := Objects(bodies);
      forall i, j | 0 <= i < |objs| && 0 <= j < |objs| ensures Count(pairs, (objs[i], objs[j])) == Count(slots, (i, j)) {
        CountAt(pairs, objs, slots, i, j);
      }
    }

    /**
     * What the collision callback does on a contact m between A and B:
     * resolve unless either body is a COLLIDER, then A's onCollide and B's,
     * each when set. Neither the registry nor the grid changes.
     */
    method Contact(a: Body, b: Body, m: Manifold)
      requires a != b && m.a.body == a && m.b.body == b && Weighable(StateOf(a), StateOf(b))
      modifies a`position, a`velocity, b`position, b`velocity, this`collisions
      ensures a.bodyType != Collider && b.bodyType != Collider ==>
                StateOf(a) == Resolved(m, old(StateOf(a)), old(StateOf(b))).0 &&
                StateOf(b) == Resolved(m, old(StateOf(a)), old(StateOf(b))).1
      ensures a.bodyType == Collider || b.bodyType == Collider ==> StateOf(a) == old(StateOf(a)) && StateOf(b) == old(StateOf(b))
      ensures collisions == old(collisions) + Calls(m, a.hasOnCollide, b.hasOnCollide)
    {
      if a.bodyType != Collider && b.bodyType != Collider {
        solver.Resolve(m);
      }
      var calls := [];
      if a.hasOnCollide {
        calls := calls + [Collision(a, b, m.a)];
      }
      if b.hasOnCollide {
        calls := calls + [Collision(b, a, m.b)];
      }
      collisions := collisions + calls;
    }

    /**
     * The collision callback of step on one pair: A's shape tests for
     * contact with B's, and a contact is handled as Contact says. The
     * bodies end in the states Touch computes.
     */
    method CollidePair(a: Body, b: Body, ghost cur: seq<BodyState>)
      requires Indexed() && NoNullSlots(bodies) && |cur| == |bodies|
      requires Registered(a) && Registered(b) && Pairable(cur, a.index, b.index)
      requires forall k :: 0 <= k < |bodies| ==> StateOf(bodies[k].value) == cur[k]
      modifies a`position, a`velocity, b`position, b`velocity, this`collisions
      ensures forall k :: 0 <= k < |bodies| ==> StateOf(bodies[k].value) == Touch(Objects(bodies), cur, a.index, b.index).0[k]
      ensures collisions == old(collisions) + Touch(Objects(bodies), cur, a.index, b.index).1
    {
      ghost var bs := Objects(bodies);
      assert bs[a.index] == a && bs[b.index] == b && StateOf(a) == cur[a.index] && StateOf(b) == cur[b.index];
      var m := Check(a, a.shape, a.position, b, b.shape, b.position);
      Handle(a, b, m, cur);
    }

    /** The outcome of the shape test on A and B taken to the collision callback, as Contacted says. */
    method Handle(a: Body, b: Body, m: Option<Manifold>, ghost cur: seq<BodyState>)
      requires Indexed() && NoNullSlots(bodies) && |cur| == |bodies|
      requires Registered(a) && Registered(b) && Pairable(cur, a.index, b.index)
      requires forall k :: 0 <= k < |bodies| ==> StateOf(bodies[k].value) == cur[k]
      requires m.Some? ==> m.value.a.body == a && m.value.b.body == b
      modifies a`position, a`velocity, b`position, b`velocity, this`collisions
      ensures forall k :: 0 <= k < |bodies| ==> StateOf(bodies[k].value) == Contacted(cur, a.index, b.index, m).0[k]
      ensures collisions == old(collisions) + Contacted(cur, a.index, b.index, m).1
    {
      var i, j := a.index, b.index;
      ghost var next := Contacted(cur, i, j, m);
      assert bodies[i].value == a && bodies[j].value == b;
      if m.Some? {
        Contact(a, b, m.value);
        assert StateOf(a) == next.0[i] && StateOf(b) == next.0[j];
      }
      forall k | 0 <= k < |bodies| && k != i && k != j ensures StateOf(bodies[k].value) == cur[k] == next.0[k] {
        assert bodies[k].value.index == k;
      }
    }

    /** The slots of the pairs' bodies. */
    ghost function SlotsOf(pairs: seq<(Body, Body)>): (r: seq<(int, int)>)
      reads (set k | 0 <= k < |pairs| :: pairs[k].0)`index, (set k | 0 <= k < |pairs| :: pairs[k].1)`index
      ensures |r| == |pairs| && forall k :: 0 <= k < |pairs| ==> r[k] == (pairs[k].0.index, pairs[k].1.index)
    {
      if pairs == [] then [] else SlotsOf(pairs[..|pairs| - 1]) + [(pairs[|pairs| - 1].0.index, pairs[|pairs| - 1].1.index)]
    }

    /** The state of step's pair loop after the first i pairs: the fold so far, and its calls after log. */
    ghost predicate CollidedUpTo(bs: seq<Body>, start: seq<BodyState>, slots: seq<(int, int)>, i: int, log: seq<Collision>)
      reads this`bodies, this`collisions, Live()
      requires NoNullSlots(bodies) && |bs| == |start| == |bodies| && Collidable(start)
      requires SlotPairs(slots, |start|) && 0 <= i <= |slots|
    {
      (forall k :: 0 <= k < |bodies| ==> StateOf(bodies[k].value) == Collide(bs, start, slots[..i]).0[k]) &&
      collisions == log + Collide(bs, start, slots[..i]).1
    }

    /** One turn of step's pair loop: the collision callback on pair i. */
    method CollideNext(i: int, a: Body, b: Body, ghost pairs: seq<(Body, Body)>, ghost bs: seq<Body>, ghost slots: seq<(int, int)>,
                       ghost start: seq<BodyState>, ghost log: seq<Collision>)
      requires Indexed() && NoNullSlots(bodies) && bs == Objects(bodies)
      requires PairsAt(pairs, bs, slots) && 0 <= i < |pairs| && pairs[i] == (a, b)
      requires |start| == |bodies| && Collidable(start) && CollidedUpTo(bs, start, slots, i, log)
      modifies a`position, a`velocity, b`position, b`velocity, this`collisions
      ensures CollidedUpTo(bs, start, slots, i + 1, log)
    {
      assert a.index == slots[i].0 && b.index == slots[i].1;
      CollidePrefix(bs, start, slots, i);
      ghost var cur := Collide(bs, start, slots[..i]).0;
      ghost var calls := Collide(bs, start, slots[..i]).1;
      ghost var t := Touch(bs, cur, slots[i].0, slots[i].1);
      assert collisions == log + calls;
      CollidePair(a, b, cur);
      assert Objects(bodies) == bs;
      assert forall k :: 0 <= k < |bodies| ==> StateOf(bodies[k].value) == t.0[k];
      CallsAssociate(log, calls, t.1);
    }

    /**
     * step's pair loop: the collision callback on each pair in the order
     * the broad phase hands them over, as the fold Collide over their slots.
     */
    method CollideAll(pairs: seq<(Body, Body)>, ghost slots: seq<(int, int)>, ghost start: seq<BodyState>)
      requires Indexed() && NoNullSlots(bodies) && PairsAt(pairs, Objects(bodies), slots)
      requires |start| == |bodies| && Collidable(start)
      requires forall k :: 0 <= k < |bodies| ==> StateOf(bodies[k].value) == start[k]
      modifies Live()`position, Live()`velocity, this`collisions
      ensures forall k :: 0 <= k < |bodies| ==> StateOf(bodies[k].value) == Collide(Objects(bodies), start, slots).0[k]
      ensures collisions == old(collisions) + Collide(Objects(bodies), start, slots).1
    {
      ghost var bs := Objects(bodies);
      assert [] == slots[..0];
      var i := 0;
      while i < |pairs|
        invariant 0 <= i <= |pairs| && CollidedUpTo(bs, start, slots, i, old(collisions))
      {
        assert pairs[i].0 in Live() && pairs[i].1 in Live() by {
          assert pairs[i].0 == bs[slots[i].0] && pairs[i].1 == bs[slots[i].1];
        }
        CollideNext(i, pairs[i].0, pairs[i].1, pairs, bs, slots, start, old(collisions));
        i := i + 1;
      }
      assert slots[..i] == slots;
    }

    /** Valid holds again once neither the registry, the grid nor a body's slot index has changed. */
    twostate lemma StaysValid()
      requires old(Valid())
      requires old(bodies) == bodies && old(broadPhase) == broadPhase
      requires old(broadPhase.cells) == broadPhase.cells && old(broadPhase.outsideCell) == broadPhase.outsideCell
      requires old(broadPhase.cellCountX) == broadPhase.cellCountX && old(broadPhase.cellCountY) == broadPhase.cellCountY
      requires old(broadPhase.cellByBodyIndex) == broadPhase.cellByBodyIndex
      requires old(broadPhase.cellSize) == broadPhase.cellSize && old(broadPhase.offset) == broadPhase.offset
      requires forall k :: 0 <= k < |bodies| && bodies[k].Some? ==> old(bodies[k].value.index) == bodies[k].value.index
      ensures Valid()
    {
      forall c, b | b in broadPhase.Members(c) ensures Registered(b) && 0 <= b.index < |broadPhase.cellByBodyIndex| && broadPhase.cellByBodyIndex[b.index] == c {
        assert old(b in broadPhase.Members(c));
        assert old(Registered(b));
      }
    }

    /**
     * The second half of step: the collision callback on each pair the
     * grid handed over. The registry, the grid and the body slots stay.
     */
    method Respond(pairs: seq<(Body, Body)>, ghost slots: seq<(int, int)>, ghost start: seq<BodyState>, ghost before: seq<BodyState>)
      requires Valid() && NoNullSlots(bodies) && PairsAt(pairs, Objects(bodies), slots)
      requires |before| == |bodies| && forall i :: 0 <= i < |bodies| ==> Placed(bodies[i].value, before[i].position)
      requires |start| == |bodies| && Collidable(start)
      requires forall k :: 0 <= k < |bodies| ==> StateOf(bodies[k].value) == start[k]
      modifies Live()`position, Live()`velocity, this`collisions
      ensures Valid() && forall i :: 0 <= i < |bodies| ==> Placed(bodies[i].value, before[i].position)
      ensures bodies == old(bodies) && broadPhase == old(broadPhase) && broadPhase.cellByBodyIndex == old(broadPhase.cellByBodyIndex)
      ensures broadPhase.cellCountX == old(broadPhase.cellCountX) && broadPhase.cellCountY == old(broadPhase.cellCountY)
      ensures solver == old(solver) && solver.deltaTime == old(solver.deltaTime) && steps == old(steps)
      ensures forall k :: 0 <= k < |bodies| ==> StateOf(bodies[k].value) == Collide(Objects(bodies), start, slots).0[k]
      ensures collisions == old(collisions) + Collide(Objects(bodies), start, slots).1
    {
      CollideAll(pairs, slots, start);
      StaysValid();
    }

    /**
     * The first half of step: dt becomes the solver's delta time, every
     * body is placed in the grid by its position so far and integrated,
     * and the grid hands over its pairs.
     */
    method Schedule(dt: real) returns (ghost before: seq<BodyState>, pairs: seq<(Body, Body)>, ghost slots: seq<(int, int)>)
      requires Valid() && Ready()
      modifies solver`deltaTime, broadPhase`cells, broadPhase`outsideCell, broadPhase`cellByBodyIndex, this`steps
      modifies Live()`force, Live()`velocity, Live()`position, Live()`rotation
      ensures Valid() && NoNullSlots(bodies) && bodies == old(bodies) && collisions == old(collisions)
      ensures solver.deltaTime == dt && steps == old(steps) + [dt]
      ensures before == old(States()) && Collidable(before) && Collidable(Integrated(before, dt))
      ensures forall i :: 0 <= i < |bodies| ==> Placed(bodies[i].value, before[i].position)
      ensures |broadPhase.cellByBodyIndex| == |bodies| && PairsAt(pairs, Objects(bodies), slots)
      ensures Scheduled(slots, broadPhase.cellByBodyIndex, broadPhase.cellCountX, broadPhase.cellCountY)
      ensures forall k :: 0 <= k < |bodies| ==> StateOf(bodies[k].value) == Integrated(before, dt)[k]
    {
      solver.deltaTime := dt;
      steps := steps + [dt];
      before := Prepare();
      assert before == old(States());
      IntegratedCollidable(before, dt);
      label Placed:
      pairs, slots := Detect();
      StaysValid@Placed();
    }

    /**
     * step: every body is placed in the grid by its position so far and
     * integrated; the grid's pairs then go through the collision callback
     * on the integrated states, in order; postUpdate does nothing. The grid
     * keeps the cells of the positions before integration.
     */
    method Step(dt: real) returns (ghost before: seq<BodyState>, pairs: seq<(Body, Body)>, ghost slots: seq<(int, int)>)
      requires Valid() && Ready()
      modifies solver`deltaTime, broadPhase`cells, broadPhase`outsideCell, broadPhase`cellByBodyIndex, this`collisions, this`steps
      modifies Live()`force, Live()`velocity, Live()`position, Live()`rotation
      ensures Valid() && Ready() && bodies == old(bodies)
      ensures solver.deltaTime == dt && steps == old(steps) + [dt]
      ensures before == old(States()) && Collidable(before) && Collidable(Integrated(before, dt))
      ensures forall i :: 0 <= i < |bodies| ==> Placed(bodies[i].value, before[i].position)
      ensures |broadPhase.cellByBodyIndex| == |bodies| && PairsAt(pairs, Objects(bodies), slots)
      ensures Scheduled(slots, broadPhase.cellByBodyIndex, broadPhase.cellCountX, broadPhase.cellCountY)
      ensures States() == Collide(Objects(bodies), Integrated(before, dt), slots).0
      ensures collisions == old(collisions) + Collide(Objects(bodies), Integrated(before, dt), slots).1
    {
      before, pairs, slots := Schedule(dt);
      ghost var table := broadPhase.cellByBodyIndex;
      ghost var start := Integrated(before, dt);
      Respond(pairs, slots, start, before);
      assert broadPhase.cellByBodyIndex == table;
      ghost var after := Collide(Objects(bodies), start, slots).0;
      assert States() == after;
      MovesCollidable(start, after);
    }

    /** update: subSteps steps, each over an equal share of dt; none when subSteps is not positive. */
    method Update(dt: real, subSteps: int)
      requires Valid() && Ready()
      modifies solver`deltaTime, broadPhase`cells, broadPhase`outsideCell, broadPhase`cellByBodyIndex, this`collisions, this`steps
      modifies Live()`force, Live()`velocity, Live()`position, Live()`rotation
      ensures Valid() && Ready() && bodies == old(bodies)
      ensures steps == old(steps) + SubSteps(dt, subSteps)
    {
      ghost var shares := SubSteps(dt, subSteps);
      var i := 0;
      while i < subSteps
        invariant 0 <= i <= |shares|
        invariant Valid() && Ready() && bodies == old(bodies)
        invariant steps == old(steps) + shares[..i]
      {
        assert shares[..i + 1] == shares[..i] + [dt / subSteps as real];
        var _, _, _ := Step(dt / subSteps as real);
        i := i + 1;
      }
      assert shares[..i] == shares;
    }
  }
}
