/**
 * The entity system of core/EntitySystem.cpp: entities are queued for
 * addition and removal and the queues are applied by update, which then
 * updates every active entity. The virtual init and update hooks of
 * entities and components, the EntityRef::invalidate calls and the deletes
 * are recorded, in order, as the calls update makes; the hooks are assumed
 * not to touch the system or the entities.
 */
module Entities {
  import opened Wrappers
  import opened Vec
  import opened EntityLists
  import opened SwapPops

  class Component {
    constructor ()
    {
    }
  }

  class Entity {
    var components: seq<Option<Component>>
    var active: bool
    var position: Vec2
    var scale: Vec2
    var rotation: real
    var entityIndex: int

    /** A new entity is active, has no components, and belongs to no list yet (index -1). */
    constructor (position: Vec2, scale: Vec2, rotation: real)
      ensures components == [] && active && entityIndex == -1
      ensures this.position == position && this.scale == scale && this.rotation == rotation
    {
      components := [];
      active := true;
      this.position := position;
      this.scale := scale;
      this.rotation := rotation;
      entityIndex := -1;
    }
  }

  /** A call update or clear makes out of the system. */
  datatype Call =
    | Invalidate(entity: Entity)
    | Delete(entity: Entity)
    | Init(entity: Entity)
    | ComponentUpdate(entity: Entity, component: Component)
    | EntityUpdate(entity: Entity)

  /** Each removal invalidates the queued entity, then deletes the one swapped out. */
  function RemovalCalls(rs: seq<Removal<Entity>>): seq<Call>
  {
    if rs == [] then []
    else RemovalCalls(rs[..|rs| - 1]) + [Invalidate(rs[|rs| - 1].queued), Delete(rs[|rs| - 1].deleted)]
  }

  function InitCalls(adds: seq<Entity>): seq<Call>
  {
    if adds == [] then [] else InitCalls(adds[..|adds| - 1]) + [Init(adds[|adds| - 1])]
  }

  /** The non-null components, in order. */
  function ComponentCalls(e: Entity, comps: seq<Option<Component>>): seq<Call>
  {
    if comps == [] then []
    else ComponentCalls(e, comps[..|comps| - 1]) +
         match comps[|comps| - 1] case Some(c) => [ComponentUpdate(e, c)] case None => []
  }

  /** An active entity updates its components, then itself; an inactive one does nothing. */
  function EntityCalls(e: Entity): seq<Call>
    reads e
  {
    if e.active then ComponentCalls(e, e.components) + [EntityUpdate(e)] else []
  }

  function UpdateCalls(ents: seq<Entity>): seq<Call>
    reads set x | x in ents
  {
    if ents == [] then [] else UpdateCalls(ents[..|ents| - 1]) + EntityCalls(ents[|ents| - 1])
  }

  lemma {:induction false} RemovalCallsAppend(rs: seq<Removal<Entity>>, more: seq<Removal<Entity>>)
    ensures RemovalCalls(rs + more) == RemovalCalls(rs) + RemovalCalls(more)
    decreases |more|
  {
    if more != [] {
      var init := more[..|more| - 1];
      var last := more[|more| - 1];
      assert (rs + more)[..|rs + more| - 1] == rs + init && (rs + more)[|rs + more| - 1] == last;
      RemovalCallsAppend(rs, init);
      assert RemovalCalls(rs + more) == RemovalCalls(rs + init) + [Invalidate(last.queued), Delete(last.deleted)];
      assert RemovalCalls(more) == RemovalCalls(init) + [Invalidate(last.queued), Delete(last.deleted)];
    } else {
      assert rs + more == rs;
    }
  }

  /** The i-th removal's calls sit at 2i and 2i + 1: the invalidate comes before the delete. */
  lemma {:induction false} RemovalCallsLaws(rs: seq<Removal<Entity>>)
    ensures |RemovalCalls(rs)| == 2 * |rs|
    ensures forall k :: 0 <= k < |rs| ==>
              RemovalCalls(rs)[2 * k] == Invalidate(rs[k].queued) && RemovalCalls(rs)[2 * k + 1] == Delete(rs[k].deleted)
  {
    if rs != [] {
      var init := rs[..|rs| - 1];
      RemovalCallsLaws(init);
      forall k | 0 <= k < |init| ensures rs[k] == init[k] { }
    }
  }

  lemma InitCallsSnoc(adds: seq<Entity>, e: Entity)
    ensures InitCalls(adds + [e]) == InitCalls(adds) + [Init(e)]
  {
    assert (adds + [e])[..|adds|] == adds;
  }

  /** Init is called once per queued addition, in queue order. */
  lemma {:induction false} InitCallsLaws(adds: seq<Entity>)
    ensures |InitCalls(adds)| == |adds|
    ensures forall k :: 0 <= k < |adds| ==> InitCalls(adds)[k] == Init(adds[k])
  {
    if adds != [] {
      InitCallsLaws(adds[..|adds| - 1]);
    }
  }

  /** Exactly the non-null components are updated, each with its owner. */
  lemma {:induction false} ComponentCallsLaws(e: Entity, comps: seq<Option<Component>>)
    ensures forall c :: ComponentUpdate(e, c) in ComponentCalls(e, comps) <==> Some(c) in comps
    ensures forall call :: call in ComponentCalls(e, comps) ==> call.ComponentUpdate? && call.entity == e
  {
    if comps != [] {
      var init := comps[..|comps| - 1];
      ComponentCallsLaws(e, init);
      assert comps == init + [comps[|comps| - 1]];
    }
  }

  /**
   * Only listed active entities are updated, each once per non-null
   * component and once itself; update's final phase makes no other call.
   */
  lemma {:induction false} UpdateCallsLaws(ents: seq<Entity>)
    ensures forall e :: EntityUpdate(e) in UpdateCalls(ents) <==> e in ents && e.active
    ensures forall e, c :: ComponentUpdate(e, c) in UpdateCalls(ents) <==> e in ents && e.active && Some(c) in e.components
    ensures forall call :: call in UpdateCalls(ents) ==> call.ComponentUpdate? || call.EntityUpdate?
  {
    if ents != [] {
      var init := ents[..|ents| - 1];
      var last := ents[|ents| - 1];
      UpdateCallsLaws(init);
      ComponentCallsLaws(last, last.components);
      assert ents == init + [last];
    }
  }

  /**
   * With entityIndex starting at -1, removing an entity that is still
   * waiting to be added does nothing: from a consistent list, exactly the
   * listed queued entities are removed, each as itself.
   */
  lemma PendingRemovalsIgnored(ents: seq<Entity>, idx: map<Entity, int>, queue: seq<Entity>)
    requires Indexed(ents, idx) && Keyed(ents, idx) && Distinct(queue)
    requires forall x :: x in queue ==> x in idx && (x in ents || idx[x] == -1)
    ensures var (a, b, d) := RemoveAll(ents, idx, queue);
            RemovedExactly(ents, idx, a, b, d, Listed(queue, ents))
  {
    RemoveAllLaws(ents, idx, queue);
  }

  /** The entityIndex field of each of xs. */
  function Fields(xs: set<Entity>): (r: map<Entity, int>)
    reads xs
    ensures r.Keys == xs
  {
    map x | x in xs :: x.entityIndex
  }

  /** idx holds exactly the entityIndex field of each of known. */
  ghost predicate FieldsAre(known: set<Entity>, idx: map<Entity, int>)
    reads known
  {
    idx.Keys == known && forall x :: x in known ==> x.entityIndex == idx[x]
  }

  class EntitySystem {
    var entities: seq<Entity>
    var pendingRemoves: seq<Entity>
    var pendingAdds: seq<Entity>

    /** Every listed entity's entityIndex is its slot. */
    ghost predicate Valid()
      reads this, set x | x in entities
    {
      forall i :: 0 <= i < |entities| ==> entities[i].entityIndex == i
    }

    /** Every entity the system refers to. */
    ghost function Known(): set<Entity>
      reads this
    {
      set x | x in entities + pendingRemoves + pendingAdds
    }

    constructor ()
      ensures entities == [] && pendingRemoves == [] && pendingAdds == []
    {
      entities := [];
      pendingRemoves := [];
      pendingAdds := [];
    }

    /** removeEntity only queues the entity. */
    method RemoveEntity(ent: Entity)
      modifies this
      ensures pendingRemoves == old(pendingRemoves) + [ent]
      ensures entities == old(entities) && pendingAdds == old(pendingAdds)
    {
      pendingRemoves := pendingRemoves + [ent];
    }

    /** addEntity(T*) only queues the entity and hands it back. */
    method AddEntity(ent: Entity) returns (r: Entity)
      modifies this
      ensures r == ent && pendingAdds == old(pendingAdds) + [ent]
      ensures entities == old(entities) && pendingRemoves == old(pendingRemoves)
    {
      pendingAdds := pendingAdds + [ent];
      r := ent;
    }

    /** addEntity(const T&): a new entity, queued. */
    method AddNewEntity(position: Vec2, scale: Vec2, rotation: real) returns (r: Entity)
      modifies this
      ensures fresh(r) && r.entityIndex == -1 && r.active && r.components == []
      ensures r.position == position && r.scale == scale && r.rotation == rotation
      ensures pendingAdds == old(pendingAdds) + [r]
      ensures entities == old(entities) && pendingRemoves == old(pendingRemoves)
    {
      r := new Entity(position, scale, rotation);
      pendingAdds := pendingAdds + [r];
    }

    /**
     * update: all queued removals, then all queued additions, then the
     * entity updates. The list and every entityIndex end as the removal and
     * addition loops compute them, and the calls are made in that order.
     * When the list was consistent and the queues are clean, it is
     * consistent again. Only entityIndex fields of entities change.
     */
    method Update() returns (calls: seq<Call>)
      modifies this, (set x | x in entities + pendingAdds)`entityIndex
      ensures var applied := Applied(old(entities), old(Fields(Known())), old(pendingRemoves), old(pendingAdds));
              entities == applied.0 && Fields(old(Known())) == applied.1 &&
              calls == RemovalCalls(applied.2) + InitCalls(old(pendingAdds)) + UpdateCalls(entities)
      ensures pendingRemoves == [] && pendingAdds == []
      ensures old(Valid()) && CleanQueue(old(entities), old(Fields(Known())), old(pendingRemoves)) &&
              Distinct(old(pendingAdds)) && (forall x :: x in old(pendingAdds) ==> x !in old(entities)) ==>
                Valid()
    {
      ghost var known := Known();
      ghost var ents0 := entities;
      ghost var idx0 := Fields(known);
      ghost var adds := pendingAdds;
      ghost var wasValid := Valid();
      var queueCalls := ApplyQueues(known);
      var updateCalls := UpdateAll(entities);
      calls := queueCalls + updateCalls;
      if wasValid && CleanQueue(ents0, idx0, old(pendingRemoves)) && Distinct(adds) && (forall x :: x in adds ==> x !in ents0) {
        assert Valid() by {
          UpdateKeepsIndexed(ents0, idx0, old(pendingRemoves), adds);
          assert Indexed(entities, Fields(known));
        }
      }
    }

    /** The removal loop, then the addition loop, each clearing its queue. */
    method ApplyQueues(ghost known: set<Entity>) returns (calls: seq<Call>)
      requires known == Known()
      modifies this, (set x | x in entities + pendingAdds)`entityIndex
      ensures var applied := Applied(old(entities), old(Fields(known)), old(pendingRemoves), old(pendingAdds));
              entities == applied.0 && Fields(known) == applied.1 &&
              calls == RemovalCalls(applied.2) + InitCalls(old(pendingAdds))
      ensures pendingRemoves == [] && pendingAdds == []
    {
      var removals, removalCalls := ApplyRemovals(known);
      var initCalls := ApplyAdditions(known);
      calls := removalCalls + initCalls;
    }

    /** The removal loop, then the queue cleared. */
    method ApplyRemovals(ghost known: set<Entity>) returns (removals: seq<Removal<Entity>>, calls: seq<Call>)
      requires forall x :: x in entities || x in pendingRemoves ==> x in known
      modifies this, (set x | x in entities)`entityIndex
      ensures (entities, Fields(known), removals) == RemoveAll(old(entities), old(Fields(known)), old(pendingRemoves))
      ensures calls == RemovalCalls(removals)
      ensures pendingRemoves == [] && pendingAdds == old(pendingAdds)
    {
      ghost var ents0 := entities;
      ghost var idx0 := Fields(known);
      ghost var idx := idx0;
      removals := [];
      calls := [];
      var i := 0;
      while i < |pendingRemoves|
        invariant 0 <= i <= |pendingRemoves|
        invariant pendingRemoves == old(pendingRemoves) && pendingAdds == old(pendingAdds)
        invariant (entities, idx, removals) == RemoveAll(ents0, idx0, pendingRemoves[..i])
        invariant FieldsAre(known, idx)
        invariant calls == RemovalCalls(removals)
        invariant forall x :: x in entities ==> x in ents0
      {
        var ent := pendingRemoves[i];
        assert pendingRemoves[..i + 1] == pendingRemoves[..i] + [ent];
        RemoveAllSnoc(ents0, idx0, pendingRemoves[..i], ent);
        var removal;
        removal, idx := RemoveQueued(ent, known, idx);
        RemovalCallsAppend(removals, removal);
        calls := calls + RemovalCalls(removal);
        removals := removals + removal;
        i := i + 1;
      }
      assert pendingRemoves[..i] == pendingRemoves;
      assert Fields(known) == idx;
      pendingRemoves := [];
    }

    /** One queued removal: swap the last entity into the slot, fix its index, pop. */
    method RemoveQueued(ent: Entity, ghost known: set<Entity>, ghost idx: map<Entity, int>)
      returns (removal: seq<Removal<Entity>>, ghost idx': map<Entity, int>)
      requires ent in known && FieldsAre(known, idx) && forall x :: x in entities ==> x in known
      modifies this, (set x | x in entities)`entityIndex
      ensures (entities, idx', removal) == RemoveOne(old(entities), idx, ent)
      ensures FieldsAre(known, idx')
      ensures pendingRemoves == old(pendingRemoves) && pendingAdds == old(pendingAdds)
    {
      var index := ent.entityIndex;
      removal := [];
      idx' := idx;
      if 0 <= index < |entities| {
        var e := entities[index];
        var last := entities[|entities| - 1];
        entities := SwapPop(entities, index);
        last.entityIndex := index;
        idx' := idx[last := index];
        removal := [Removal(ent, e)];
      }
    }

    /** The addition loop, then the queue cleared. */
    method ApplyAdditions(ghost known: set<Entity>) returns (calls: seq<Call>)
      requires forall x :: x in pendingAdds ==> x in known
      modifies this, (set x | x in pendingAdds)`entityIndex
      ensures (entities, Fields(known)) == AddAll(old(entities), old(Fields(known)), old(pendingAdds))
      ensures calls == InitCalls(old(pendingAdds))
      ensures pendingAdds == [] && pendingRemoves == old(pendingRemoves)
    {
      ghost var ents0 := entities;
      ghost var idx0 := Fields(known);
      ghost var idx := idx0;
      calls := [];
      var i := 0;
      while i < |pendingAdds|
        invariant 0 <= i <= |pendingAdds|
        invariant pendingRemoves == old(pendingRemoves) && pendingAdds == old(pendingAdds)
        invariant (entities, idx) == AddAll(ents0, idx0, pendingAdds[..i])
        invariant FieldsAre(known, idx)
        invariant calls == InitCalls(pendingAdds[..i])
      {
        var ent := pendingAdds[i];
        assert pendingAdds[..i + 1] == pendingAdds[..i] + [ent];
        AddAllSnoc(ents0, idx0, pendingAdds[..i], ent);
        InitCallsSnoc(pendingAdds[..i], ent);
        idx := AddQueued(ent, known, idx);
        calls := calls + [Init(ent)];
        i := i + 1;
      }
      assert pendingAdds[..i] == pendingAdds;
      assert Fields(known) == idx;
      pendingAdds := [];
    }

    /** One queued addition: the entity's index is the current size, then it is appended. */
    method AddQueued(ent: Entity, ghost known: set<Entity>, ghost idx: map<Entity, int>) returns (ghost idx': map<Entity, int>)
      requires ent in known && FieldsAre(known, idx)
      modifies this, ent`entityIndex
      ensures entities == old(entities) + [ent] && idx' == idx[ent := |old(entities)|]
      ensures FieldsAre(known, idx')
      ensures pendingRemoves == old(pendingRemoves) && pendingAdds == old(pendingAdds)
    {
      ent.entityIndex := |entities|;
      idx' := idx[ent := |entities|];
      entities := entities + [ent];
    }

    /** The update loop over the entities. */
    static method UpdateAll(ents: seq<Entity>) returns (calls: seq<Call>)
      ensures calls == UpdateCalls(ents)
    {
      calls := [];
      var i := 0;
      while i < |ents|
        invariant 0 <= i <= |ents|
        invariant calls == UpdateCalls(ents[..i])
      {
        var e := ents[i];
        assert ents[..i + 1][..i] == ents[..i];
        if e.active {
          var componentCalls := ComponentUpdates(e);
          calls := calls + componentCalls + [EntityUpdate(e)];
        }
        i := i + 1;
      }
      assert ents[..i] == ents;
    }

    /** The inner loop of update: each present component of e, in slot order. */
    static method ComponentUpdates(e: Entity) returns (calls: seq<Call>)
      ensures calls == ComponentCalls(e, e.components)
    {
      calls := [];
      var j := 0;
      while j < |e.components|
        invariant 0 <= j <= |e.components|
        invariant calls == ComponentCalls(e, e.components[..j])
      {
        assert e.components[..j + 1][..j] == e.components[..j];
        match e.components[j] {
          case Some(c) => calls := calls + [ComponentUpdate(e, c)];
          case None =>
        }
        j := j + 1;
      }
      assert e.components[..j] == e.components;
    }

    /**
     * clear: every listed entity, then every entity waiting to be added, is
     * invalidated and deleted; all three lists end empty.
     */
    method Clear() returns (calls: seq<Call>)
      modifies this
      ensures entities == [] && pendingRemoves == [] && pendingAdds == []
      ensures calls == RemovalCalls(Selves(old(entities))) + RemovalCalls(Selves(old(pendingAdds)))
    {
      var listed := Dispose(entities);
      entities := [];
      var queued := Dispose(pendingAdds);
      pendingAdds := [];
      pendingRemoves := [];
      calls := listed + queued;
    }

    /** One of clear's loops: invalidate, then delete, each entity in turn. */
    static method Dispose(es: seq<Entity>) returns (calls: seq<Call>)
      ensures calls == RemovalCalls(Selves(es))
    {
      calls := [];
      var i := 0;
      while i < |es|
        invariant 0 <= i <= |es|
        invariant calls == RemovalCalls(Selves(es[..i]))
      {
        assert es[..i + 1][..i] == es[..i];
        calls := calls + [Invalidate(es[i]), Delete(es[i])];
        i := i + 1;
      }
      assert es[..i] == es;
    }
  }
}
