/**
 * The bookkeeping both entity systems (core/EntitySystem.cpp and
 * systems/EntitySystem.cpp) do on their entity vector. Entities are values of
 * any type with identity; idx stands for every entity's entityIndex field.
 * Queued removals swap the last entity into the vacated slot; queued
 * additions are appended.
 */
module EntityLists {
  import opened SwapPops

  /** Every listed entity's entityIndex is its position in the list. */
  ghost predicate Indexed<E>(ents: seq<E>, idx: map<E, int>)
  {
    forall i :: 0 <= i < |ents| ==> ents[i] in idx && idx[ents[i]] == i
  }

  /** Every listed entity has an entityIndex. */
  ghost predicate Keyed<E>(ents: seq<E>, idx: map<E, int>)
  {
    forall x :: x in ents ==> x in idx
  }

  /** The entity a removal was queued for, and the entity it swapped out and deleted. */
  datatype Removal<E> = Removal(queued: E, deleted: E)

  /**
   * One queued removal: when the queued entity's entityIndex is a valid
   * slot, that slot's entity is deleted, the last entity is moved into the
   * slot and told its new index, and the list shrinks by one; otherwise
   * nothing happens. Results are (entities, entityIndex fields, removals).
   */
  function RemoveOne<E(==)>(ents: seq<E>, idx: map<E, int>, e: E): (r: (seq<E>, map<E, int>, seq<Removal<E>>))
    requires Keyed(ents, idx) && e in idx
    ensures r.1.Keys == idx.Keys && |r.0| <= |ents|
    ensures forall x :: x in r.0 ==> x in ents
  {
    var i := idx[e];
    if 0 <= i < |ents| then
      var last := ents[|ents| - 1];
      (SwapPop(ents, i), idx[last := i], [Removal(e, ents[i])])
    else (ents, idx, [])
  }

  /** The removal loop over the queue, in queue order. */
  function RemoveAll<E(==)>(ents: seq<E>, idx: map<E, int>, queue: seq<E>): (r: (seq<E>, map<E, int>, seq<Removal<E>>))
    requires Keyed(ents, idx) && Keyed(queue, idx)
    ensures r.1.Keys == idx.Keys && |r.0| <= |ents|
    ensures forall x :: x in r.0 ==> x in ents
    decreases |queue|
  {
    if queue == [] then (ents, idx, [])
    else
      var (a, b, d) := RemoveAll(ents, idx, queue[..|queue| - 1]);
      var (a2, b2, d2) := RemoveOne(a, b, queue[|queue| - 1]);
      (a2, b2, d + d2)
  }

  /** The removal loop run one entry further. */
  lemma RemoveAllSnoc<E>(ents: seq<E>, idx: map<E, int>, queue: seq<E>, e: E)
    requires Keyed(ents, idx) && Keyed(queue, idx) && e in idx
    ensures var (a, b, d) := RemoveAll(ents, idx, queue);
            var (a2, b2, d2) := RemoveOne(a, b, e);
            RemoveAll(ents, idx, queue + [e]) == (a2, b2, d + d2)
  {
    assert (queue + [e])[..|queue|] == queue;
  }

  /** The addition loop: each queued entity gets the current size as its index and is appended. */
  function AddAll<E(==)>(ents: seq<E>, idx: map<E, int>, adds: seq<E>): (r: (seq<E>, map<E, int>))
    ensures r.0 == ents + adds
    ensures forall x :: x in idx ==> x in r.1
    ensures forall x :: x in adds ==> x in r.1
    decreases |adds|
  {
    if adds == [] then (ents, idx)
    else
      var (a, b) := AddAll(ents, idx, adds[..|adds| - 1]);
      assert adds == adds[..|adds| - 1] + [adds[|adds| - 1]];
      (a + [adds[|adds| - 1]], b[adds[|adds| - 1] := |a|])
  }

  /** Each entity removed as itself: what a consistent list's removals and clear record. */
  function Selves<E>(es: seq<E>): (r: seq<Removal<E>>)
    ensures |r| == |es|
  {
    if es == [] then [] else Selves(es[..|es| - 1]) + [Removal(es[|es| - 1], es[|es| - 1])]
  }

  /** The addition loop run one entry further. */
  lemma AddAllSnoc<E>(ents: seq<E>, idx: map<E, int>, adds: seq<E>, e: E)
    ensures var (a, b) := AddAll(ents, idx, adds);
            AddAll(ents, idx, adds + [e]) == (a + [e], b[e := |a|])
  {
    assert (adds + [e])[..|adds|] == adds;
  }

  /** No entity appears twice. */
  predicate Distinct<E(==)>(s: seq<E>)
  {
    forall i, j :: 0 <= i < j < |s| ==> s[i] != s[j]
  }

  /** The queued entities that are listed, in queue order. */
  function Listed<E(==)>(queue: seq<E>, ents: seq<E>): (r: seq<E>)
    ensures forall x :: x in r ==> x in queue && x in ents
    ensures forall x :: x in queue && x in ents ==> x in r
    ensures |r| <= |queue|
  {
    if queue == [] then []
    else Listed(queue[..|queue| - 1], ents) + (if queue[|queue| - 1] in ents then [queue[|queue| - 1]] else [])
  }

  /**
   * A removal queue the loop handles as intended: no entity queued twice, and
   * each queued entity either listed or carrying an index outside the list,
   * as an entity still waiting to be added does when its index is -1.
   */
  ghost predicate CleanQueue<E>(ents: seq<E>, idx: map<E, int>, queue: seq<E>)
  {
    Distinct(queue) &&
    forall x :: x in queue ==> x in idx && (x in ents || !(0 <= idx[x] < |ents|))
  }

  /**
   * With a consistent list, removing a listed entity deletes that entity and
   * nothing else and keeps the list consistent; an index outside the list is
   * ignored; only the moved entity's index changes.
   */
  lemma RemoveOneLaws<E>(ents: seq<E>, idx: map<E, int>, e: E)
    requires Indexed(ents, idx) && Keyed(ents, idx) && e in idx
    ensures var (a, b, d) := RemoveOne(ents, idx, e);
            Indexed(a, b) &&
            (forall x :: x in idx && x !in ents ==> b[x] == idx[x]) &&
            (e in ents ==> d == [Removal(e, e)] && |a| == |ents| - 1 && forall x :: x in a <==> x in ents && x != e) &&
            (!(0 <= idx[e] < |ents|) ==> a == ents && b == idx && d == [])
  {
    var i := idx[e];
    if 0 <= i < |ents| {
      var last := ents[|ents| - 1];
      var a := SwapPop(ents, i);
      var b := idx[last := i];
      forall k | 0 <= k < |a| ensures a[k] in b && b[a[k]] == k {
        if k != i {
          assert a[k] == ents[k];
          assert ents[k] != last by { assert idx[ents[k]] == k && idx[last] == |ents| - 1; }
        }
      }
      if e in ents {
        assert ents[i] == e;
        forall x ensures x in a <==> x in ents && x != e {
          if x in a {
            var k :| 0 <= k < |a| && a[k] == x;
            if k == i {
              assert x == last && idx[last] == |ents| - 1;
            } else {
              assert x == ents[k] && idx[ents[k]] == k;
            }
          }
          if x in ents && x != e {
            var j :| 0 <= j < |ents| && ents[j] == x;
            if j < |a| {
              assert a[j] == x;
            } else {
              assert a[i] == x;
            }
          }
        }
      }
    }
  }

  /**
   * What a run of removals has done to (ents, idx): a and b are consistent,
   * unlisted entities keep their index, exactly the entities of gone have
   * left, and d records each of them invalidated and deleted as itself.
   */
  ghost predicate RemovedExactly<E>(ents: seq<E>, idx: map<E, int>, a: seq<E>, b: map<E, int>, d: seq<Removal<E>>, gone: seq<E>)
  {
    Indexed(a, b) &&
    (forall x :: x in idx && x !in ents ==> x in b && b[x] == idx[x]) &&
    |a| == |ents| - |gone| &&
    (forall x :: x in a ==> x in ents && x !in gone) &&
    (forall x :: x in ents && x !in gone ==> x in a) &&
    d == Selves(gone)
  }

  /** One more clean removal extends what RemovedExactly records by that entity, if it is listed. */
  lemma RemoveStep<E>(ents: seq<E>, idx: map<E, int>, a: seq<E>, b: map<E, int>, d: seq<Removal<E>>, gone: seq<E>, e: E)
    requires RemovedExactly(ents, idx, a, b, d, gone)
    requires Keyed(a, b) && |a| <= |ents| && forall x :: x in a ==> x in ents
    requires e in b && e !in gone
    requires e in idx && (e in ents || !(0 <= idx[e] < |ents|))
    ensures var (a2, b2, d2) := RemoveOne(a, b, e);
            RemovedExactly(ents, idx, a2, b2, d + d2, gone + if e in ents then [e] else [])
  {
    RemoveOneLaws(a, b, e);
    var (a2, b2, d2) := RemoveOne(a, b, e);
    forall x | x in idx && x !in ents ensures x in b2 && b2[x] == idx[x] {
      assert x !in a;
    }
    if e in ents {
      assert e in a;
      assert (gone + [e])[..|gone|] == gone;
    } else {
      assert b[e] == idx[e];
      assert d + d2 == d && gone + [] == gone;
    }
  }

  /**
   * The removal loop over a clean queue deletes exactly the queued entities
   * that are listed, each invalidated and deleted as itself, in queue
   * order; the list stays consistent and unlisted entities keep their index.
   */
  lemma {:induction false} RemoveAllLaws<E>(ents: seq<E>, idx: map<E, int>, queue: seq<E>)
    requires Indexed(ents, idx) && Keyed(ents, idx) && CleanQueue(ents, idx, queue)
    ensures var (a, b, d) := RemoveAll(ents, idx, queue);
            RemovedExactly(ents, idx, a, b, d, Listed(queue, ents))
    decreases |queue|
  {
    if queue != [] {
      var init := queue[..|queue| - 1];
      var e := queue[|queue| - 1];
      assert CleanQueue(ents, idx, init) by {
        forall x | x in init ensures x in queue { }
      }
      RemoveAllLaws(ents, idx, init);
      var (a, b, d) := RemoveAll(ents, idx, init);
      assert e !in init by {
        forall k | 0 <= k < |init| ensures init[k] != e { assert queue[k] == init[k]; }
      }
      RemoveStep(ents, idx, a, b, d, Listed(init, ents), e);
    }
  }

  /**
   * Appending distinct entities that are not yet listed keeps the list
   * consistent, and leaves every other entity's index alone.
   */
  lemma {:induction false} AddAllLaws<E>(ents: seq<E>, idx: map<E, int>, adds: seq<E>)
    requires Indexed(ents, idx) && Distinct(adds)
    requires forall x :: x in adds ==> x !in ents
    ensures var (a, b) := AddAll(ents, idx, adds);
            Indexed(a, b) &&
            (forall k :: 0 <= k < |adds| ==> b[adds[k]] == |ents| + k) &&
            (forall x :: x in idx && x !in adds ==> b[x] == idx[x])
    decreases |adds|
  {
    if adds != [] {
      var init := adds[..|adds| - 1];
      var e := adds[|adds| - 1];
      AddAllLaws(ents, idx, init);
      var (a, b) := AddAll(ents, idx, init);
      assert a == ents + init;
      assert e !in a by {
        forall k | 0 <= k < |init| ensures init[k] != e { assert adds[k] == init[k]; }
      }
      var a2 := a + [e];
      var b2 := b[e := |a|];
      assert AddAll(ents, idx, adds) == (a2, b2);
      forall k | 0 <= k < |a2| ensures a2[k] in b2 && b2[a2[k]] == k {
        if k < |a| {
          assert a2[k] == a[k] && a[k] != e;
        }
      }
      forall k | 0 <= k < |adds| ensures b2[adds[k]] == |ents| + k {
        if k < |init| {
          assert adds[k] == init[k] && init[k] != e;
        }
      }
      forall x | x in idx && x !in adds ensures b2[x] == idx[x] {
        assert x !in init;
      }
    }
  }

  /** update's two queue loops together: (entities, entityIndex fields, removals). */
  function Applied<E(==)>(ents: seq<E>, idx: map<E, int>, queue: seq<E>, adds: seq<E>): (seq<E>, map<E, int>, seq<Removal<E>>)
    requires Keyed(ents, idx) && Keyed(queue, idx)
  {
    var removed := RemoveAll(ents, idx, queue);
    var added := AddAll(removed.0, removed.1, adds);
    (added.0, added.1, removed.2)
  }

  /**
   * From a consistent list, with a clean removal queue and distinct new
   * entities, update's queue loops leave the list consistent.
   */
  lemma UpdateKeepsIndexed<E>(ents: seq<E>, idx: map<E, int>, queue: seq<E>, adds: seq<E>)
    requires Indexed(ents, idx) && Keyed(ents, idx) && CleanQueue(ents, idx, queue)
    requires Distinct(adds) && forall x :: x in adds ==> x !in ents
    ensures Indexed(Applied(ents, idx, queue, adds).0, Applied(ents, idx, queue, adds).1)
  {
    RemoveAllLaws(ents, idx, queue);
    var (a, b, d) := RemoveAll(ents, idx, queue);
    AddAllLaws(a, b, adds);
  }
}
