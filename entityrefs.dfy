/**
 * EntityRef (core/EntitySystem.cpp and systems/EntitySystem.cpp): a weak
 * reference to an entity. Every non-null ref is registered in a static map
 * from entity to the set of refs holding it, so that invalidating an entity
 * nulls every ref to it. The static map is the Registry object; an entity
 * is any value with identity (E); a null entity pointer is None.
 */
module EntityRefs {
  import opened Wrappers

  /** operator[] on the static map, read without inserting: the entry, or the empty set. */
  function RefsOf<E, R>(refs: map<E, set<R>>, e: E): set<R>
  {
    if e in refs then refs[e] else {}
  }

  /**
   * set(ent) on the map: the ref leaves the set of the entity it held (the
   * entry is created if missing, and stays even when it ends up empty) and
   * joins the set of the new one.
   */
  function Rebind<E, R>(refs: map<E, set<R>>, from: Option<E>, to: Option<E>, r: R): (m: map<E, set<R>>)
    ensures to.Some? ==> to.value in m && r in m[to.value]
    ensures from.Some? && from != to ==> from.value in m && r !in m[from.value]
  {
    var left := if from.Some? then refs[from.value := RefsOf(refs, from.value) - {r}] else refs;
    if to.Some? then left[to.value := RefsOf(left, to.value) + {r}] else left
  }

  /** Every registered ref points at the entity it is registered under, and every non-null ref is registered. */
  ghost predicate Consistent<E, R>(refs: map<E, set<R>>, pointsTo: map<R, Option<E>>)
  {
    (forall e, r :: e in refs && r in refs[e] ==> r in pointsTo && pointsTo[r] == Some(e)) &&
    (forall r :: r in pointsTo && pointsTo[r].Some? ==> pointsTo[r].value in refs && r in refs[pointsTo[r].value])
  }

  /** Moving one ref from one entity to another keeps the registry consistent, and leaves every other ref's registration alone. */
  lemma RebindLaws<E, R>(refs: map<E, set<R>>, pointsTo: map<R, Option<E>>, r: R, to: Option<E>)
    requires Consistent(refs, pointsTo) && r in pointsTo
    ensures var m := Rebind(refs, pointsTo[r], to, r);
            Consistent(m, pointsTo[r := to]) &&
            forall e, q :: q != r ==> (e in m && q in m[e] <==> e in refs && q in refs[e])
  {
    var m := Rebind(refs, pointsTo[r], to, r);
    var p := pointsTo[r := to];
    forall e, q | e in m && q in m[e] ensures q in p && p[q] == Some(e) {
      if q != r {
        assert e in refs && q in refs[e];
      }
    }
  }

  /** What invalidate(e) does to the refs: those pointing at e become null. */
  ghost function Invalidated<E, R>(pointsTo: map<R, Option<E>>, e: E): map<R, Option<E>>
  {
    map r | r in pointsTo :: if pointsTo[r] == Some(e) then None else pointsTo[r]
  }

  /**
   * In a consistent registry the refs invalidate(e) visits, those registered
   * under e, are exactly the refs pointing at e; after nulling them and
   * erasing the key no ref points at e and the registry is still consistent.
   */
  lemma InvalidateLaws<E, R>(refs: map<E, set<R>>, pointsTo: map<R, Option<E>>, e: E)
    requires Consistent(refs, pointsTo)
    ensures forall r :: r in pointsTo ==> (pointsTo[r] == Some(e) <==> r in RefsOf(refs, e))
    ensures var p := Invalidated(pointsTo, e);
            Consistent(refs - {e}, p) && forall r :: r in p ==> p[r] != Some(e)
  {
  }

  /** The static refs map. */
  class Registry<E(==)> {
    var refs: map<E, set<Ref<E>>>

    constructor ()
      ensures refs == map[]
    {
      refs := map[];
    }
  }

  lemma SomeRef<E>(s: set<Ref<E>>)
    requires s != {}
    ensures exists r :: r in s
  {
    if forall r :: r !in s {
      assert false;
    }
  }

  class Ref<E(==)> {
    var entity: Option<E>
    const registry: Registry<E>

    /**
     * EntityRef(ent), and the copy and move constructors with the other ref's
     * entity: starts null, then set(ent).
     */
    constructor (registry: Registry<E>, ent: Option<E>)
      modifies registry
      ensures this.registry == registry && entity == ent
      ensures registry.refs == Rebind(old(registry.refs), None, ent, this)
    {
      this.registry := registry;
      entity := None;
      new;
      Set(ent);
    }

    /** set: the operator= overloads and the destructor (with None) all call it. */
    method Set(ent: Option<E>)
      modifies this, registry
      ensures entity == ent
      ensures registry.refs == Rebind(old(registry.refs), old(entity), ent, this)
    {
      if entity.Some? {
        registry.refs := registry.refs[entity.value := RefsOf(registry.refs, entity.value) - {this}];
        entity := None;
      }
      entity := ent;
      if entity.Some? {
        registry.refs := registry.refs[entity.value := RefsOf(registry.refs, entity.value) + {this}];
      }
    }

    /**
     * invalidate: every ref registered under ent that still points at it
     * becomes null, and the key is erased. Nothing else changes.
     */
    static method Invalidate(registry: Registry<E>, ent: E)
      modifies registry, RefsOf(registry.refs, ent)
      ensures registry.refs == old(registry.refs) - {ent}
      ensures forall r :: r in old(RefsOf(registry.refs, ent)) ==>
                r.entity == if old(r.entity) == Some(ent) then None else old(r.entity)
    {
      if ent in registry.refs {
        var todo := registry.refs[ent];
        ghost var all := todo;
        while todo != {}
          invariant todo <= all && all == old(RefsOf(registry.refs, ent))
          invariant registry.refs == old(registry.refs)
          invariant forall r :: r in all && r !in todo ==> r.entity == if old(r.entity) == Some(ent) then None else old(r.entity)
          invariant forall r :: r in todo ==> r.entity == old(r.entity)
          decreases |todo|
        {
          SomeRef(todo);
          var r :| r in todo;
          if r.entity == Some(ent) {
            r.entity := None;
          }
          todo := todo - {r};
        }
        registry.refs := registry.refs - {ent};
      }
    }
  }
}
