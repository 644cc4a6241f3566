/** The virtual mouse driver (vmouse_driver/vmouse.c): the shared struct, the key filter
    and the work item, as methods and as the small steps in which they interleave. */
module VMouse {
  import opened Gearbox

  const EV_KEY := 1
  const KEY_LEFTCTRL := 29
  const KEY_LEFTALT := 56
  const KEY_CAPSLOCK := 58

  /** What a call of the filter has still to do. */
  datatype Filter =
    | Idle
    | Toggling(code: int, value: int)     // about to take the lock and set keep_speed
    | Posting(code: int, value: int)      // about to store the event code
    | HalfPosted(code: int, value: int)   // about to store the value
    | Posted(code: int, value: int)       // about to call schedule_work

  datatype Worker =
    | Resting
    | Started                // its pending bit is cleared, it has not taken the lock
    | Reading(code: int)     // it holds the lock and has switched on the code

  /** struct vmouse, the workqueue's pending bit, and the two program counters. */
  datatype Driver = Driver(mouse: Mouse, ctrl: int, alt: int, caps: bool,
                           code: int, value: int, pending: bool, filter: Filter, worker: Worker)
  {
    /** Both modifiers are held; the fields hold the last value of the key, up being 0. */
    predicate Chord() { ctrl != 0 && alt != 0 }
  }

  const INITIAL := Driver(Mouse(INITIAL_GEAR, false, WHEEL_DEFAULT_SPEED, []), 0, 0, false, 0, 0, false, Idle, Resting)

  // ----- Steps of the filter -----

  function Decide(d: Driver, code: int, value: int): Driver {
    d.(filter := if d.Chord() then Posting(code, value) else Idle)
  }

  /** The filter is called: it records the state of the modifier keys. */
  function Enter(d: Driver, typ: int, code: int, value: int): Driver {
    if typ != EV_KEY then d
    else if code == KEY_LEFTCTRL then
      var d' := d.(ctrl := value);
      if d.mouse.keep then d' else Decide(d', code, value)
    else if code == KEY_LEFTALT then
      var d' := d.(alt := value);
      if d.mouse.keep then d' else Decide(d', code, value)
    else if code == KEY_CAPSLOCK then
      d.(caps := if value == KEY_VAL_DOWN then !d.caps else d.caps, filter := Toggling(code, value))
    else Decide(d, code, value)
  }

  /** Its next step; setting keep_speed waits for a work item that holds the lock. */
  function GoOn(d: Driver): Driver
    requires d.filter != Idle
  {
    match d.filter
    case Toggling(c, v) => Decide(d.(mouse := d.mouse.(keep := d.caps)), c, v)
    case Posting(c, v) => d.(code := c, filter := HalfPosted(c, v))
    case HalfPosted(c, v) => d.(value := v, filter := Posted(c, v))
    case Posted(_, _) => d.(pending := true, filter := Idle)
  }

  function StepsLeft(f: Filter): nat {
    match f
    case Idle => 0
    case Toggling(_, _) => 4
    case Posting(_, _) => 3
    case HalfPosted(_, _) => 2
    case Posted(_, _) => 1
  }

  function Finish(d: Driver): (r: Driver)
    ensures r.filter == Idle
    decreases StepsLeft(d.filter)
  {
    if d.filter == Idle then d else Finish(GoOn(d))
  }

  /** What the filter returns: true takes the event away from other handlers. */
  function Swallowed(d: Driver, typ: int, code: int, value: int): bool {
    typ == EV_KEY &&
    if (code == KEY_LEFTCTRL || code == KEY_LEFTALT) && d.mouse.keep then true
    else
      && Enter(d, typ, code, value).Chord()
      && code in {KEY_P, KEY_N, KEY_B, KEY_F, KEY_SPACE, KEY_M, KEY_V, KEY_U}
  }

  // ----- The code -----

  class VMouse {
    var value: int
    var eventCode: int
    var moveSpeed: int
    var wheelSpeed: int
    var keepSpeed: bool
    var ctrlKeyDown: int
    var altKeyDown: int
    var capslockKeyDown: bool
    var count: int            // static in gearbox
    var step: int             // static in gearbox
    var pending: bool         // of the work item
    var out: seq<Report>      // sent to the input device

    /** The driver between calls. */
    ghost function State(): Driver
      reads this
    {
      Driver(Mouse(Gear(count, step, moveSpeed), keepSpeed, wheelSpeed, out),
             ctrlKeyDown, altKeyDown, capslockKeyDown, eventCode, value, pending, Idle, Resting)
    }

    /** vmouse_init, on zeroed memory. */
    constructor ()
      ensures State() == INITIAL
      ensures count == 0 && step == 1 && moveSpeed == 2 && wheelSpeed == 5 && !keepSpeed && out == []
      ensures ctrlKeyDown == altKeyDown == 0 && !capslockKeyDown && !pending
    {
      value, eventCode, ctrlKeyDown, altKeyDown := 0, 0, 0, 0;
      keepSpeed, capslockKeyDown, pending, out := false, false, false, [];
      moveSpeed, wheelSpeed := MOVE_DEFAULT_SPEED, WHEEL_DEFAULT_SPEED;
      count, step := 0, STEP_DEFAULT_VALUE;
    }

    method WheelSpeedStore(x: int)
      modifies this
      ensures State() == old(State()).(mouse := old(State()).mouse.(wheel := ClampWheel(x)))
      ensures 1 <= wheelSpeed <= 7 && forall v :: 1 <= v <= 7 ==> Distance(x, wheelSpeed) <= Distance(x, v)
    {
      var speed := x;
      speed := if speed < WHEEL_MIN_SPEED then WHEEL_MIN_SPEED
               else if speed > WHEEL_MAX_SPEED then WHEEL_MAX_SPEED else speed;
      wheelSpeed := speed;
    }

    method Gearbox(keyValue: int)
      modifies `count, `step, `moveSpeed
      ensures Gear(count, step, moveSpeed) == Shift(Gear(old(count), old(step), old(moveSpeed)), keyValue, keepSpeed)
    {
      if keyValue == KEY_VAL_UP {
        count := 0;
      } else if keyValue == KEY_VAL_DOWN {
        count := 0;
        if !keepSpeed {
          moveSpeed := MOVE_DEFAULT_SPEED;
          step := STEP_DEFAULT_VALUE;
        }
      } else if keyValue == KEY_VAL_PRESS {
        if !keepSpeed {
          count := count + 1;
          if count == step {
            if moveSpeed < MOVE_MAX_SPEED {
              moveSpeed := moveSpeed * 2;
              step := step + STEP_GAIN_VALUE;
            }
            count := 0;
          }
        }
      }
    }

    /** vms_func, under the lock. Of the event, the slot holds code and value. */
    method VmsFunc()
      modifies this
      ensures State() == old(State()).(mouse := Handle(old(State()).mouse, Event(old(eventCode), old(value))))
      ensures var c, c', code := old(EffectOf(out)), EffectOf(out), old(eventCode);
              && c'.x == c.x + (if code == 33 then moveSpeed else if code == 48 then -moveSpeed else 0)
              && c'.y == c.y + (if code == 49 then moveSpeed else if code == 25 then -moveSpeed else 0)
              && c'.wheel == c.wheel + (if code == 22 then wheelSpeed else if code == 47 then -wheelSpeed else 0)
              && c'.left == c.left + (if code == 57 then [old(value)] else [])
              && c'.right == c.right + (if code == 50 then [old(value)] else [])
    {
      HandleEffect(State().mouse, Event(eventCode, value));
      var report: seq<Report> := [];
      if eventCode == KEY_P {
        Gearbox(value);
        report := [Rel(0, -moveSpeed)];
      } else if eventCode == KEY_N {
        Gearbox(value);
        report := [Rel(0, moveSpeed)];
      } else if eventCode == KEY_B {
        Gearbox(value);
        report := [Rel(-moveSpeed, 0)];
      } else if eventCode == KEY_F {
        Gearbox(value);
        report := [Rel(moveSpeed, 0)];
      } else if eventCode == KEY_V {
        report := [Wheel(-wheelSpeed)];
      } else if eventCode == KEY_U {
        report := [Wheel(wheelSpeed)];
      } else if eventCode == KEY_SPACE {
        report := [Button(true, value)];
      } else if eventCode == KEY_M {
        report := [Button(false, value)];
      }
      out := out + report;
    }

    /** vkbd_filter: run on its own, it does what its small steps do in sequence. */
    method VkbdFilter(typ: int, code: int, val: int) returns (swallow: bool)
      modifies this
      ensures State() == Finish(Enter(old(State()), typ, code, val))
      ensures swallow == Swallowed(old(State()), typ, code, val)
      ensures swallow <==>
                && typ == 1
                && if code == 29 || code == 56 then old(keepSpeed)
                   else code in {22, 25, 33, 47, 48, 49, 50, 57} && old(ctrlKeyDown) != 0 && old(altKeyDown) != 0
    {
      SwallowedIff(State(), typ, code, val);
      if typ == EV_KEY {
        if code == KEY_LEFTCTRL {
          ctrlKeyDown := val;
          if keepSpeed {
            return true;
          }
        } else if code == KEY_LEFTALT {
          altKeyDown := val;
          if keepSpeed {
            return true;
          }
        } else if code == KEY_CAPSLOCK {
          if val == KEY_VAL_DOWN {
            capslockKeyDown := !capslockKeyDown;
          }
          keepSpeed := capslockKeyDown;
        }
        swallow := PostInChord(code, val);
        return swallow;
      }
      return false;
    }

    /** The end of the filter: the event is posted if both modifiers are held. */
    method PostInChord(code: int, val: int) returns (swallow: bool)
      modifies this
      ensures State() == Finish(Decide(old(State()), code, val))
      ensures swallow == (old(State()).Chord() && code in {KEY_P, KEY_N, KEY_B, KEY_F, KEY_SPACE, KEY_M, KEY_V, KEY_U})
    {
      FinishPost(Decide(State(), code, val));
      if ctrlKeyDown != 0 && altKeyDown != 0 {
        eventCode := code;
        value := val;
        pending := true;
        return code in {KEY_P, KEY_N, KEY_B, KEY_F, KEY_SPACE, KEY_M, KEY_V, KEY_U};
      }
      return false;
    }
  }

  /** Which events are taken away: the modifier keys (29 and 56) while keep_speed is set, and
      the eight keys of the mouse while both modifiers are held. */
  lemma SwallowedIff(d: Driver, typ: int, code: int, value: int)
    ensures Swallowed(d, typ, code, value) <==>
              && typ == 1
              && if code == 29 || code == 56 then d.mouse.keep
                 else code in {22, 25, 33, 47, 48, 49, 50, 57} && d.ctrl != 0 && d.alt != 0
  {
  }

  /** Posting from the first store to the scheduled work. */
  lemma FinishPost(d: Driver)
    requires d.filter == Idle || d.filter.Posting?
    ensures Finish(d) == if d.filter == Idle then d
                         else d.(code := d.filter.code, value := d.filter.value, pending := true, filter := Idle)
  {
    if d.filter.Posting? {
      var d1 := GoOn(d);
      var d2 := GoOn(d1);
      var d3 := GoOn(d2);
      assert Finish(d) == Finish(d1);
      assert Finish(d1) == Finish(d2);
      assert Finish(d2) == Finish(d3) == d3;
    }
  }

  // ----- What a call, and a history of calls, does -----

  /** A call posts its event exactly if both modifiers are then held, unless it is a
      modifier key while keep_speed is set; nothing else touches the slot. */
  lemma CallPostsIff(d: Driver, typ: int, code: int, value: int)
    requires d.filter == Idle
    ensures var r := Finish(Enter(d, typ, code, value));
            var ctrl := if typ == 1 && code == 29 then value else d.ctrl;
            var alt := if typ == 1 && code == 56 then value else d.alt;
            && r.ctrl == ctrl && r.alt == alt
            && if typ == 1 && ctrl != 0 && alt != 0 && !(d.mouse.keep && (code == 29 || code == 56))
               then r.code == code && r.value == value && r.pending
               else r.code == d.code && r.value == d.value && r.pending == d.pending
  {
    var e := Enter(d, typ, code, value);
    if e.filter.Toggling? {
      assert Finish(e) == Finish(GoOn(e));
      FinishPost(GoOn(e));
    } else {
      FinishPost(e);
    }
  }

  datatype Key = Key(typ: int, code: int, value: int)

  function FilterAll(d: Driver, keys: seq<Key>): Driver
    decreases |keys|
  {
    if keys == [] then d
    else
      var k := keys[|keys| - 1];
      Finish(Enter(FilterAll(d, keys[..|keys| - 1]), k.typ, k.code, k.value))
  }

  /** The value that the latest event of a key had. */
  function Latest(keys: seq<Key>, code: int, initial: int): int
    decreases |keys|
  {
    if keys == [] then initial
    else if keys[|keys| - 1].typ == 1 && keys[|keys| - 1].code == code then keys[|keys| - 1].value
    else Latest(keys[..|keys| - 1], code, initial)
  }

  /** How often CAPSLOCK went down. */
  function Toggles(keys: seq<Key>): nat
    decreases |keys|
  {
    if keys == [] then 0
    else Toggles(keys[..|keys| - 1]) +
         if keys[|keys| - 1] == Key(1, 58, 1) then 1 else 0
  }

  /** Over every history of events, the two modifier fields hold the latest value of their
      keys, and keep_speed is the parity of the CAPSLOCK presses. */
  lemma {:induction false} HistoryOfKeys(keys: seq<Key>)
    ensures var d := FilterAll(INITIAL, keys);
            && d.filter == Idle
            && d.ctrl == Latest(keys, 29, 0)
            && d.alt == Latest(keys, 56, 0)
            && d.mouse.keep == d.caps == (Toggles(keys) % 2 == 1)
    decreases |keys|
  {
    if keys != [] {
      var k, before := keys[|keys| - 1], FilterAll(INITIAL, keys[..|keys| - 1]);
      HistoryOfKeys(keys[..|keys| - 1]);
      CallPostsIff(before, k.typ, k.code, k.value);
      CallTogglesIff(before, k.typ, k.code, k.value);
    }
  }

  /** So over every history: an event is taken away if it is a modifier after an odd number
      of CAPSLOCK presses, or a key of the mouse while both modifiers were last seen held. */
  lemma HistorySwallows(keys: seq<Key>, typ: int, code: int, value: int)
    ensures Swallowed(FilterAll(INITIAL, keys), typ, code, value) <==>
              && typ == 1
              && if code == 29 || code == 56 then Toggles(keys) % 2 == 1
                 else && code in {22, 25, 33, 47, 48, 49, 50, 57}
                      && Latest(keys, 29, 0) != 0 && Latest(keys, 56, 0) != 0
  {
    HistoryOfKeys(keys);
    SwallowedIff(FilterAll(INITIAL, keys), typ, code, value);
  }

  lemma CallTogglesIff(d: Driver, typ: int, code: int, value: int)
    requires d.filter == Idle && d.mouse.keep == d.caps
    ensures var r := Finish(Enter(d, typ, code, value));
            && r.mouse.keep == r.caps
            && r.caps == if typ == EV_KEY && code == KEY_CAPSLOCK && value == KEY_VAL_DOWN then !d.caps else d.caps
  {
    var e := Enter(d, typ, code, value);
    if e.filter.Toggling? {
      assert Finish(e) == Finish(GoOn(e));
      FinishPost(GoOn(e));
    } else {
      FinishPost(e);
    }
  }
}
