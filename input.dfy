/**
 * Input (systems/Input.cpp): edge detection for keyboard keys and mouse buttons,
 * named actions bound to keys and buttons, and the mouse wheel and cursor
 * latches. The window's raw key and button state is a parameter of update.
 * Keys and buttons are their integer codes.
 */
module Inputs {
  import opened Wrappers
  import opened Vec

  datatype State = State(down: bool, pressed: bool, released: bool)

  /** A default-constructed State. */
  function Idle(): State { State(false, false, false) }

  /** One poll of one key: now is allowInputs && the raw state. */
  function Transition(s: State, now: bool): State
  {
    State(now, now && !s.down, !now && s.down)
  }

  /** A key is pressed when it goes down, released when it goes up, and never both. */
  lemma TransitionLaws(s: State, now: bool)
    ensures Transition(s, now).down == now
    ensures Transition(s, now).pressed <==> now && !s.down
    ensures Transition(s, now).released <==> s.down && !now
    ensures !(Transition(s, now).pressed && Transition(s, now).released)
    ensures Transition(Transition(s, now), now).pressed == false && Transition(Transition(s, now), now).released == false
  {
  }

  /** Every tracked entry polled once; untracked codes stay untracked. */
  function Polled(m: map<int, State>, isDown: int -> bool, allowInputs: bool): map<int, State>
  {
    map k | k in m :: Transition(m[k], allowInputs && isDown(k))
  }

  /** With inputs disabled every key reads as up, and every held key reports released once. */
  lemma DisabledInputsRelease(m: map<int, State>, isDown: int -> bool)
    ensures var p := Polled(m, isDown, false);
            p.Keys == m.Keys &&
            forall k :: k in p ==> !p[k].down && !p[k].pressed && (p[k].released <==> m[k].down)
  {
  }

  function Lookup(m: map<int, State>, k: int): State
  {
    if k in m then m[k] else Idle()
  }

  /** operator[] on the map: the entry, inserted as Idle if it was missing. */
  function Touch(m: map<int, State>, k: int): (r: map<int, State>)
    ensures r.Keys == m.Keys + {k}
    ensures forall j :: Lookup(r, j) == Lookup(m, j)
  {
    m[k := Lookup(m, k)]
  }

  datatype Binding = KeyBinding(key: int) | ButtonBinding(button: int)

  datatype Action = Action(name: string, entries: seq<Binding>)

  function BindingState(b: Binding, keys: map<int, State>, buttons: map<int, State>): State
  {
    match b
    case KeyBinding(k) => Lookup(keys, k)
    case ButtonBinding(n) => Lookup(buttons, n)
  }

  function Or(a: State, b: State): State
  {
    State(a.down || b.down, a.pressed || b.pressed, a.released || b.released)
  }

  /** The state the loop of get(action) accumulates over the entries. */
  function Combined(entries: seq<Binding>, keys: map<int, State>, buttons: map<int, State>): State
  {
    if |entries| == 0 then Idle()
    else Or(Combined(entries[..|entries| - 1], keys, buttons), BindingState(entries[|entries| - 1], keys, buttons))
  }

  /** An action is down, pressed or released exactly when one of its entries is. */
  lemma {:induction false} CombinedIsAny(entries: seq<Binding>, keys: map<int, State>, buttons: map<int, State>)
    ensures Combined(entries, keys, buttons).down <==>
            exists i :: 0 <= i < |entries| && BindingState(entries[i], keys, buttons).down
    ensures Combined(entries, keys, buttons).pressed <==>
            exists i :: 0 <= i < |entries| && BindingState(entries[i], keys, buttons).pressed
    ensures Combined(entries, keys, buttons).released <==>
            exists i :: 0 <= i < |entries| && BindingState(entries[i], keys, buttons).released
  {
    if |entries| > 0 {
      var init := entries[..|entries| - 1];
      CombinedIsAny(init, keys, buttons);
      assert forall i :: 0 <= i < |init| ==> init[i] == entries[i];
    }
  }

  /** The maps after get(action): every bound key and button queried once. */
  function TouchKeys(entries: seq<Binding>, keys: map<int, State>): map<int, State>
  {
    if |entries| == 0 then keys
    else
      var m := TouchKeys(entries[..|entries| - 1], keys);
      match entries[|entries| - 1]
      case KeyBinding(k) => Touch(m, k)
      case ButtonBinding(_) => m
  }

  function TouchButtons(entries: seq<Binding>, buttons: map<int, State>): map<int, State>
  {
    if |entries| == 0 then buttons
    else
      var m := TouchButtons(entries[..|entries| - 1], buttons);
      match entries[|entries| - 1]
      case KeyBinding(_) => m
      case ButtonBinding(n) => Touch(m, n)
  }

  /** Touching inserts Idle entries only: every lookup is as before. */
  lemma {:induction false} TouchPreservesLookups(entries: seq<Binding>, keys: map<int, State>, buttons: map<int, State>)
    ensures forall j :: Lookup(TouchKeys(entries, keys), j) == Lookup(keys, j)
    ensures forall j :: Lookup(TouchButtons(entries, buttons), j) == Lookup(buttons, j)
    ensures TouchKeys(entries, keys).Keys == keys.Keys + set i | 0 <= i < |entries| && entries[i].KeyBinding? :: entries[i].key
  {
    if |entries| > 0 {
      TouchPreservesLookups(entries[..|entries| - 1], keys, buttons);
    }
  }

  /** bindAction's effect on the action table. */
  function Bind(actions: map<string, Action>, name: string, b: Binding, reset: bool): map<string, Action>
  {
    var previous := if name in actions && !reset then actions[name].entries else [];
    actions[name := Action(name, previous + [b])]
  }

  /**
   * Binding with reset makes the action exactly its new entry; binding without
   * reset adds the entry's state to the action's. Other actions are untouched.
   */
  lemma BindLaws(actions: map<string, Action>, name: string, b: Binding, reset: bool,
                 keys: map<int, State>, buttons: map<int, State>)
    ensures var r := Bind(actions, name, b, reset);
            name in r && r[name].name == name &&
            (forall other :: other != name ==> (other in r <==> other in actions) && (other in actions ==> r[other] == actions[other])) &&
            (reset ==> Combined(r[name].entries, keys, buttons) == Or(Idle(), BindingState(b, keys, buttons))) &&
            (!reset && name in actions ==>
               Combined(r[name].entries, keys, buttons) ==
               Or(Combined(actions[name].entries, keys, buttons), BindingState(b, keys, buttons)))
  {
    var r := Bind(actions, name, b, reset);
    var previous := if name in actions && !reset then actions[name].entries else [];
    assert (previous + [b])[..|previous|] == previous;
  }

  lemma SomeCode(codes: set<int>)
    requires codes != {}
    ensures exists k :: k in codes
  {
    if forall k :: k !in codes {
      assert false;
    }
  }

  /** No pending cursor move. */
  function NoWarp(): Vec2 { Vec2(-1.0, -1.0) }

  class Input {
    var keys: map<int, State>
    var buttons: map<int, State>
    var actions: map<string, Action>
    var allowInputs: bool
    var wheel: real
    var wheelUpdate: real
    var mousePosition: Vec2
    var mousePositionUpdate: Vec2

    constructor ()
      ensures keys == map[] && buttons == map[] && actions == map[]
      ensures wheel == 0.0 && wheelUpdate == 0.0 && allowInputs && mousePositionUpdate == NoWarp()
    {
      keys := map[];
      buttons := map[];
      actions := map[];
      allowInputs := true;
      wheel := 0.0;
      wheelUpdate := 0.0;
      mousePosition := Vec2(0.0, 0.0);
      mousePositionUpdate := NoWarp();
    }

    /** The scroll callback registered by init. */
    method Scroll(y: real)
      modifies this
      ensures wheelUpdate == old(wheelUpdate) + y
      ensures keys == old(keys) && buttons == old(buttons) && actions == old(actions) && wheel == old(wheel)
    {
      wheelUpdate := wheelUpdate + y;
    }

    /** The loop over one map in update. */
    static method Poll(states: map<int, State>, isDown: int -> bool, allowInputs: bool) returns (polled: map<int, State>)
      ensures polled == Polled(states, isDown, allowInputs)
    {
      polled := states;
      var todo := states.Keys;
      while todo != {}
        invariant todo <= states.Keys && polled.Keys == states.Keys
        invariant forall k :: k in states ==>
                    polled[k] == if k in todo then states[k] else Transition(states[k], allowInputs && isDown(k))
        decreases todo
      {
        SomeCode(todo);
        var k :| k in todo;
        var s := polled[k];
        var now := allowInputs && isDown(k);
        polled := polled[k := State(now, now && !s.down, !now && s.down)];
        todo := todo - {k};
      }
      var expected := Polled(states, isDown, allowInputs);
      assert polled.Keys == expected.Keys;
      assert forall k :: k in polled ==> polled[k] == expected[k];
    }

    /**
     * update. windowPresent is false when there is no window or no context;
     * cursor is the position the window reports. warp is the cursor move sent
     * to the window, if one was pending.
     */
    method Update(windowPresent: bool, keyIsDown: int -> bool, buttonIsDown: int -> bool, cursor: Vec2)
      returns (warp: Option<Vec2>)
      modifies this
      ensures actions == old(actions) && allowInputs == old(allowInputs)
      ensures !windowPresent ==> warp == None && keys == old(keys) && buttons == old(buttons) &&
                                 wheel == old(wheel) && wheelUpdate == old(wheelUpdate) &&
                                 mousePosition == old(mousePosition) && mousePositionUpdate == old(mousePositionUpdate)
      ensures windowPresent ==>
                keys == Polled(old(keys), keyIsDown, allowInputs) &&
                buttons == Polled(old(buttons), buttonIsDown, allowInputs) &&
                mousePosition == cursor &&
                warp == (if old(mousePositionUpdate) != NoWarp() then Some(old(mousePositionUpdate)) else None) &&
                mousePositionUpdate == NoWarp() &&
                wheel == (if allowInputs then old(wheelUpdate) else 0.0) && wheelUpdate == 0.0
    {
      if !windowPresent {
        return None;
      }
      keys := Poll(keys, keyIsDown, allowInputs);
      buttons := Poll(buttons, buttonIsDown, allowInputs);
      mousePosition := cursor;
      warp := None;
      if mousePositionUpdate != NoWarp() {
        warp := Some(mousePositionUpdate);
        mousePositionUpdate := NoWarp();
      }
      wheel := if allowInputs then wheelUpdate else 0.0;
      wheelUpdate := 0.0;
    }

    /** get(key): the key's state; an unknown key is inserted as Idle and tracked from now on. */
    method GetKey(key: int) returns (s: State)
      modifies this
      ensures s == Lookup(old(keys), key) && keys == Touch(old(keys), key)
      ensures buttons == old(buttons) && actions == old(actions)
    {
      if key !in keys {
        keys := keys[key := Idle()];
      }
      s := keys[key];
    }

    /** get(button), the same for mouse buttons. */
    method GetButton(button: int) returns (s: State)
      modifies this
      ensures s == Lookup(old(buttons), button) && buttons == Touch(old(buttons), button)
      ensures keys == old(keys) && actions == old(actions)
    {
      if button !in buttons {
        buttons := buttons[button := Idle()];
      }
      s := buttons[button];
    }

    /** get(action): the OR of the bound entries' states, Idle for an unknown action. */
    method GetActionState(name: string) returns (s: State)
      modifies this
      ensures name !in old(actions) ==> s == Idle() && keys == old(keys) && buttons == old(buttons)
      ensures name in old(actions) ==>
                var entries := old(actions)[name].entries;
                s == Combined(entries, old(keys), old(buttons)) &&
                keys == TouchKeys(entries, old(keys)) && buttons == TouchButtons(entries, old(buttons))
      ensures actions == old(actions)
    {
      s := Idle();
      if name !in actions {
        return;
      }
      var entries := actions[name].entries;
      var i := 0;
      while i < |entries|
        invariant 0 <= i <= |entries| && actions == old(actions)
        invariant keys == TouchKeys(entries[..i], old(keys)) && buttons == TouchButtons(entries[..i], old(buttons))
        invariant s == Combined(entries[..i], old(keys), old(buttons))
      {
        assert entries[..i + 1][..i] == entries[..i];
        TouchPreservesLookups(entries[..i], old(keys), old(buttons));
        var e := entries[i];
        var t;
        if e.ButtonBinding? {
          t := GetButton(e.button);
        } else {
          t := GetKey(e.key);
        }
        s := State(s.down || t.down, s.pressed || t.pressed, s.released || t.released);
        i := i + 1;
      }
      assert entries[..i] == entries;
    }

    /** bindAction for a key or a button. */
    method BindAction(name: string, b: Binding, reset: bool)
      modifies this
      ensures actions == Bind(old(actions), name, b, reset)
      ensures keys == old(keys) && buttons == old(buttons)
    {
      var entries := if name in actions then actions[name].entries else [];
      actions := actions[name := Action(name, entries)];
      if reset {
        actions := actions[name := Action(name, [])];
      }
      actions := actions[name := Action(name, actions[name].entries + [b])];
    }

    /** getAction: the bound action, None for an unknown name. */
    function GetAction(name: string): (r: Option<Action>)
      reads this
      ensures r.Some? <==> name in actions
      ensures r.Some? ==> r.value == actions[name]
    {
      if name in actions then Some(actions[name]) else None
    }

    /** setMousePosition in window coordinates: the move is sent on the next update. */
    method SetMousePosition(position: Vec2)
      modifies this
      ensures mousePositionUpdate == position
      ensures keys == old(keys) && buttons == old(buttons) && actions == old(actions) && mousePosition == old(mousePosition)
    {
      mousePositionUpdate := position;
    }
  }
}
