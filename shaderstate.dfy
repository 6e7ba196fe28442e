/**
 * ShaderState (render/ShaderState.h): an ordered list of named uniform values
 * that are later applied to a shader. The element type of the template set
 * members is the type parameter V; null list slots are None.
 */
module ShaderStates {
  import opened Wrappers

  /** Value<T> holds one value, Values<T> a copy of an array. */
  datatype Entry<V> = Single(name: string, value: V) | Multiple(name: string, values: seq<V>)

  /** The first slot holding an entry named name. */
  function FindName<V>(states: seq<Option<Entry<V>>>, name: string): (r: Option<nat>)
    ensures r.Some? ==> r.value < |states| && states[r.value].Some? && states[r.value].value.name == name
    ensures r.Some? ==> forall j :: 0 <= j < r.value ==> !(states[j].Some? && states[j].value.name == name)
    ensures r.None? ==> forall j :: 0 <= j < |states| ==> !(states[j].Some? && states[j].value.name == name)
  {
    if |states| == 0 then None
    else match FindName(states[..|states| - 1], name)
      case Some(i) => Some(i)
      case None =>
        var last := states[|states| - 1];
        if last.Some? && last.value.name == name then Some(|states| - 1) else None
  }

  /** The list after set: the named slot replaced in place, or e appended. */
  function SetSpec<V>(states: seq<Option<Entry<V>>>, e: Entry<V>): seq<Option<Entry<V>>>
  {
    match FindName(states, e.name)
    case Some(i) => states[i := Some(e)]
    case None => states + [Some(e)]
  }

  /** All entry names differ. */
  predicate NamesDistinct<V>(states: seq<Option<Entry<V>>>)
  {
    forall i, j :: 0 <= i < j < |states| && states[i].Some? && states[j].Some? ==>
      states[i].value.name != states[j].value.name
  }

  /** The entries in stored order, null slots skipped: what apply hands to the shader. */
  function Present<V>(states: seq<Option<Entry<V>>>): seq<Entry<V>>
  {
    if |states| == 0 then []
    else Present(states[..|states| - 1]) + (if states[|states| - 1].Some? then [states[|states| - 1].value] else [])
  }

  /** The uniform a name is bound to, the reference view of the list. */
  function Bindings<V>(states: seq<Option<Entry<V>>>): map<string, Entry<V>>
  {
    if |states| == 0 then map[]
    else
      var m := Bindings(states[..|states| - 1]);
      var last := states[|states| - 1];
      if last.Some? then m[last.value.name := last.value] else m
  }

  /** An existing name is replaced in place: same length, every other slot unchanged. */
  lemma SetReplacesInPlace<V>(states: seq<Option<Entry<V>>>, e: Entry<V>)
    requires FindName(states, e.name).Some?
    ensures var i := FindName(states, e.name).value;
            var r := SetSpec(states, e);
            |r| == |states| && r[i] == Some(e) &&
            forall j :: 0 <= j < |states| && j != i ==> r[j] == states[j]
  {
  }

  /** A new name appends exactly one entry at the end. */
  lemma SetAppendsNewName<V>(states: seq<Option<Entry<V>>>, e: Entry<V>)
    requires forall j :: 0 <= j < |states| ==> !(states[j].Some? && states[j].value.name == e.name)
    ensures SetSpec(states, e) == states + [Some(e)]
  {
  }

  /** Names stay pairwise distinct across set. */
  lemma SetKeepsNamesDistinct<V>(states: seq<Option<Entry<V>>>, e: Entry<V>)
    requires NamesDistinct(states)
    ensures NamesDistinct(SetSpec(states, e))
  {
    var r := SetSpec(states, e);
    match FindName(states, e.name)
    case Some(i) =>
      forall a, b | 0 <= a < b < |r| && r[a].Some? && r[b].Some?
        ensures r[a].value.name != r[b].value.name
      {
        if a == i {
          assert r[b] == states[b];
        } else if b == i {
          assert r[a] == states[a];
        } else {
          assert r[a] == states[a] && r[b] == states[b];
        }
      }
    case None =>
      forall a, b | 0 <= a < b < |r| && r[a].Some? && r[b].Some?
        ensures r[a].value.name != r[b].value.name
      {
        if b == |states| {
          assert r[a] == states[a];
        } else {
          assert r[a] == states[a] && r[b] == states[b];
        }
      }
  }

  lemma {:induction false} BindingsUpdateSlot<V>(states: seq<Option<Entry<V>>>, i: nat, e: Entry<V>)
    requires NamesDistinct(states) && i < |states| && states[i].Some? && states[i].value.name == e.name
    ensures Bindings(states[i := Some(e)]) == Bindings(states)[e.name := e]
    decreases |states|
  {
    var n := |states|;
    var r := states[i := Some(e)];
    assert r[..n - 1] == if i < n - 1 then states[..n - 1][i := Some(e)] else states[..n - 1];
    if i < n - 1 {
      assert NamesDistinct(states[..n - 1]);
      BindingsUpdateSlot(states[..n - 1], i, e);
      if states[n - 1].Some? {
        assert states[n - 1].value.name != e.name;
      }
    } else {
      BindingsMissing(states[..n - 1], e.name);
    }
  }

  lemma {:induction false} BindingsMissing<V>(states: seq<Option<Entry<V>>>, name: string)
    requires forall j :: 0 <= j < |states| ==> !(states[j].Some? && states[j].value.name == name)
    ensures name !in Bindings(states)
    decreases |states|
  {
    if |states| > 0 {
      BindingsMissing(states[..|states| - 1], name);
    }
  }

  /**
   * With distinct names, set is a map update: afterwards name is bound to the
   * new entry and every other binding is as before.
   */
  lemma SetIsMapUpdate<V>(states: seq<Option<Entry<V>>>, e: Entry<V>)
    requires NamesDistinct(states)
    ensures Bindings(SetSpec(states, e)) == Bindings(states)[e.name := e]
  {
    match FindName(states, e.name)
    case Some(i) =>
      BindingsUpdateSlot(states, i, e);
    case None =>
      assert (states + [Some(e)])[..|states|] == states;
  }

  /** apply hands over every present entry once per slot, in stored order. */
  lemma {:induction false} PresentCount<V>(states: seq<Option<Entry<V>>>)
    ensures |Present(states)| <= |states|
    ensures (forall j :: 0 <= j < |states| ==> states[j].Some?) ==> |Present(states)| == |states|
    ensures forall x :: x in Present(states) ==> Some(x) in states
    ensures forall j :: 0 <= j < |states| && states[j].Some? ==> states[j].value in Present(states)
    ensures forall x :: multiset(Present(states))[x] == multiset(states)[Some(x)]
    decreases |states|
  {
    if |states| > 0 {
      var init := states[..|states| - 1];
      PresentCount(init);
      assert states == init + [states[|states| - 1]];
      forall j | 0 <= j < |states| && states[j].Some?
        ensures states[j].value in Present(states)
      {
        if j < |init| {
          assert init[j] == states[j];
        }
      }
    }
  }

  class ShaderState<V> {
    var states: seq<Option<Entry<V>>>

    constructor ()
      ensures states == []
    {
      states := [];
    }

    /** The scan of set: replace the first entry with e's name, or append e. */
    method Put(e: Entry<V>)
      modifies this
      ensures states == SetSpec(old(states), e)
    {
      var i := 0;
      while i < |states|
        invariant 0 <= i <= |states| && states == old(states)
        invariant forall j :: 0 <= j < i ==> !(states[j].Some? && states[j].value.name == e.name)
      {
        var state := states[i];
        if state.Some? && state.value.name == e.name {
          states := states[i := Some(e)];
          return;
        }
        i := i + 1;
      }
      states := states + [Some(e)];
    }

    /** set(uniform, value). */
    method Set(uniform: string, value: V)
      modifies this
      ensures states == SetSpec(old(states), Single(uniform, value))
    {
      Put(Single(uniform, value));
    }

    /** set(uniform, values, count): stores a copy of the first count values. */
    method SetArray(uniform: string, values: array<V>, count: int)
      requires 0 <= count <= values.Length
      modifies this
      ensures states == SetSpec(old(states), Multiple(uniform, values[..count]))
    {
      Put(Multiple(uniform, values[..count]));
    }

    /** apply(shader): the entries applied to the shader, in order. */
    method Apply() returns (applied: seq<Entry<V>>)
      ensures applied == Present(states)
    {
      applied := [];
      var i := 0;
      while i < |states|
        invariant 0 <= i <= |states| && applied == Present(states[..i])
      {
        assert states[..i + 1][..i] == states[..i];
        if states[i].Some? {
          applied := applied + [states[i].value];
        }
        i := i + 1;
      }
      assert states[..i] == states;
    }
  }
}
