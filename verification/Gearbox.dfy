/** The virtual mouse's reaction to one key event (vmouse_driver/vmouse.c): a gearbox that
    doubles the speed as a direction key repeats, and the motion reported. */
module Gearbox {

  const KEY_VAL_UP := 0
  const KEY_VAL_DOWN := 1
  const KEY_VAL_PRESS := 2

  const KEY_U := 22
  const KEY_P := 25
  const KEY_F := 33
  const KEY_V := 47
  const KEY_B := 48
  const KEY_N := 49
  const KEY_M := 50
  const KEY_SPACE := 57

  const MOVE_DEFAULT_SPEED := 2
  const MOVE_MAX_SPEED := 64
  const WHEEL_DEFAULT_SPEED := 5
  const WHEEL_MAX_SPEED := 7
  const WHEEL_MIN_SPEED := 1
  const STEP_DEFAULT_VALUE := 1
  const STEP_GAIN_VALUE := 2

  /** The two static variables of gearbox and the speed it drives. */
  datatype Gear = Gear(count: int, step: int, speed: int)

  const INITIAL_GEAR := Gear(0, STEP_DEFAULT_VALUE, MOVE_DEFAULT_SPEED)

  function Shift(g: Gear, value: int, keep: bool): Gear {
    if value == KEY_VAL_UP then g.(count := 0)
    else if value == KEY_VAL_DOWN then
      if keep then g.(count := 0) else INITIAL_GEAR
    else if value == KEY_VAL_PRESS && !keep then
      if g.count + 1 != g.step then g.(count := g.count + 1)
      else if g.speed < MOVE_MAX_SPEED then Gear(0, g.step + STEP_GAIN_VALUE, 2 * g.speed)
      else g.(count := 0)
    else g
  }

  const TOP_GEAR := 5

  /** The speed in gear `k`: 2 to the power k + 1. */
  function SpeedIn(k: nat): (v: nat)
    ensures v >= 2
  {
    if k == 0 then 2 else 2 * SpeedIn(k - 1)
  }

  /** In gear `k` the speed is 2^(k+1) and the next shift comes after 2k + 1 repeats. */
  ghost predicate InGear(g: Gear, k: nat) {
    k <= TOP_GEAR && g.speed == SpeedIn(k) && g.step == 2 * k + 1 && 0 <= g.count < g.step
  }

  ghost predicate Geared(g: Gear) { exists k: nat :: InGear(g, k) }

  lemma SpeedTable()
    ensures SpeedIn(0) == 2 && SpeedIn(1) == 4 && SpeedIn(2) == 8
    ensures SpeedIn(3) == 16 && SpeedIn(4) == 32 && SpeedIn(5) == 64
  {
    assert SpeedIn(2) == 2 * SpeedIn(1);
    assert SpeedIn(3) == 2 * SpeedIn(2);
    assert SpeedIn(4) == 2 * SpeedIn(3);
    assert SpeedIn(5) == 2 * SpeedIn(4);
  }

  /** Whatever the value, even one paired with the code of another event, a gear follows a gear. */
  lemma ShiftGeared(g: Gear, value: int, keep: bool)
    requires Geared(g)
    ensures Geared(Shift(g, value, keep))
  {
    var k: nat :| InGear(g, k);
    SpeedTable();
    assert InGear(INITIAL_GEAR, 0);
    var g' := Shift(g, value, keep);
    assert InGear(g', k) || InGear(g', k + 1) || g' == INITIAL_GEAR;
  }

  // ----- The events that the work item handles -----

  datatype Event = Event(code: int, value: int) {

    predicate Direction() { code == KEY_P || code == KEY_N || code == KEY_B || code == KEY_F }
  }

  datatype Report = Rel(dx: int, dy: int) | Wheel(d: int) | Button(left: bool, pressed: int)

  datatype Mouse = Mouse(gear: Gear, keep: bool, wheel: int, out: seq<Report>)

  function Reports(e: Event, speed: int, wheel: int): seq<Report> {
    if e.code == KEY_P then [Rel(0, -speed)]
    else if e.code == KEY_N then [Rel(0, speed)]
    else if e.code == KEY_B then [Rel(-speed, 0)]
    else if e.code == KEY_F then [Rel(speed, 0)]
    else if e.code == KEY_V then [Wheel(-wheel)]
    else if e.code == KEY_U then [Wheel(wheel)]
    else if e.code == KEY_SPACE then [Button(true, e.value)]
    else if e.code == KEY_M then [Button(false, e.value)]
    else []
  }

  /** vms_func on the event it reads. */
  function Handle(m: Mouse, e: Event): Mouse {
    var g := if e.Direction() then Shift(m.gear, e.value, m.keep) else m.gear;
    m.(gear := g, out := m.out + Reports(e, g.speed, m.wheel))
  }

  function HandleAll(m: Mouse, evs: seq<Event>): Mouse
    decreases |evs|
  {
    if evs == [] then m else Handle(HandleAll(m, evs[..|evs| - 1]), evs[|evs| - 1])
  }

  // ----- Closed form -----

  function Abs(x: int): nat { if x < 0 then -x else x }

  /** The total motion in a list of reports, in both axes. */
  function Motion(out: seq<Report>): nat
    decreases |out|
  {
    if out == [] then 0
    else Motion(out[..|out| - 1]) + match out[|out| - 1] { case Rel(dx, dy) => Abs(dx) + Abs(dy) case _ => 0 }
  }

  lemma MotionOne(out: seq<Report>, r: Report)
    ensures Motion(out + [r]) == Motion(out) + match r { case Rel(dx, dy) => Abs(dx) + Abs(dy) case _ => 0 }
  {
    assert (out + [r])[..|out|] == out;
  }

  /** How many of the events are direction keys. */
  function Moves(evs: seq<Event>): (n: nat)
    ensures n <= |evs|
    decreases |evs|
  {
    if evs == [] then 0 else Moves(evs[..|evs| - 1]) + if evs[|evs| - 1].Direction() then 1 else 0
  }

  /** The integer square root. */
  function Isqrt(n: nat): (r: nat)
    ensures r * r <= n < (r + 1) * (r + 1)
  {
    if n == 0 then 0
    else
      var r := Isqrt(n - 1);
      if (r + 1) * (r + 1) <= n then r + 1 else r
  }

  /** The gear after `n` repeats. */
  function Level(n: nat): (k: nat)
    ensures k <= TOP_GEAR
  {
    if n < 1 then 0 else if n < 4 then 1 else if n < 9 then 2 else if n < 16 then 3 else if n < 25 then 4 else 5
  }

  /** It is the integer square root of the number of repeats, up to the top gear. */
  lemma LevelIsRoot(n: nat)
    ensures Level(n) == if Isqrt(n) < TOP_GEAR then Isqrt(n) else TOP_GEAR
  {
    var r := Isqrt(n);
    if r >= TOP_GEAR {
      SquareMono(TOP_GEAR, r);
    } else {
      assert r == 0 || r == 1 || r == 2 || r == 3 || r == 4;
    }
  }

  lemma SquareMono(a: nat, b: nat)
    requires a <= b
    ensures a * a <= b * b
  {
    assert b * b - a * a == (b - a) * (b + a);
  }

  /** The whole gear after a DOWN and `n` repeats, in gear `k`: the thresholds 1, 3, 5, ...
      add up to the square of `k`. */
  function GearAt(n: nat, k: nat): Gear {
    Gear(if k < TOP_GEAR then n - k * k else (n - 25) % 11, 2 * k + 1, SpeedIn(k))
  }

  /** The motion reported for the DOWN and the `n` repeats. */
  function MotionAt(n: nat, k: nat): int {
    (n - k * k + 2 * k - 2) * SpeedIn(k) + 6
  }

  function GearAfter(n: nat): Gear { GearAt(n, Level(n)) }

  function MotionAfter(n: nat): int { MotionAt(n, Level(n)) }

  lemma AfterTable(n: nat)
    ensures Level(n) == 0 ==> GearAfter(n) == Gear(n, 1, 2) && MotionAfter(n) == (n - 2) * 2 + 6
    ensures Level(n) == 1 ==> GearAfter(n) == Gear(n - 1, 3, 4) && MotionAfter(n) == (n - 1) * 4 + 6
    ensures Level(n) == 2 ==> GearAfter(n) == Gear(n - 4, 5, 8) && MotionAfter(n) == (n - 2) * 8 + 6
    ensures Level(n) == 3 ==> GearAfter(n) == Gear(n - 9, 7, 16) && MotionAfter(n) == (n - 5) * 16 + 6
    ensures Level(n) == 4 ==> GearAfter(n) == Gear(n - 16, 9, 32) && MotionAfter(n) == (n - 10) * 32 + 6
    ensures Level(n) == 5 ==> GearAfter(n) == Gear((n - 25) % 11, 11, 64) && MotionAfter(n) == (n - 17) * 64 + 6
  {
    SpeedTable();
  }

  lemma PressNext(n: nat)
    ensures Shift(GearAfter(n), KEY_VAL_PRESS, false) == GearAfter(n + 1)
    ensures MotionAfter(n + 1) == MotionAfter(n) + GearAfter(n + 1).speed
  {
    AfterTable(n);
    AfterTable(n + 1);
  }

  // ----- Directions, wheel and buttons -----

  /** What the reports sent so far have done: the place of the cursor, y growing downwards,
      the turn of the wheel, and the values sent for each button. */
  datatype Effect = Effect(x: int, y: int, wheel: int, left: seq<int>, right: seq<int>)

  function Then(c: Effect, r: Report): Effect {
    match r
    case Rel(dx, dy) => c.(x := c.x + dx, y := c.y + dy)
    case Wheel(d) => c.(wheel := c.wheel + d)
    case Button(left, v) => if left then c.(left := c.left + [v]) else c.(right := c.right + [v])
  }

  function EffectOf(out: seq<Report>): Effect
    decreases |out|
  {
    if out == [] then Effect(0, 0, 0, [], []) else Then(EffectOf(out[..|out| - 1]), out[|out| - 1])
  }

  lemma EffectOne(out: seq<Report>, r: Report)
    ensures EffectOf(out + [r]) == Then(EffectOf(out), r)
  {
    assert (out + [r])[..|out|] == out;
  }

  /** One event, in the numbers of the key codes: P (25) moves up and N (49) down, B (48)
      left and F (33) right, by the speed that the gear then has; V (47) turns the wheel down
      and U (22) up; SPACE (57) is the left button and M (50) the right one. */
  lemma HandleEffect(m: Mouse, e: Event)
    ensures var v, c, c' := Handle(m, e).gear.speed, EffectOf(m.out), EffectOf(Handle(m, e).out);
            && c'.x == c.x + (if e.code == 33 then v else if e.code == 48 then -v else 0)
            && c'.y == c.y + (if e.code == 49 then v else if e.code == 25 then -v else 0)
            && c'.wheel == c.wheel + (if e.code == 22 then m.wheel else if e.code == 47 then -m.wheel else 0)
            && c'.left == c.left + (if e.code == 57 then [e.value] else [])
            && c'.right == c.right + (if e.code == 50 then [e.value] else [])
  {
    HandleSteps(m, e);
    HandleTurns(m, e);
    HandleButtons(m, e);
  }

  lemma HandleSteps(m: Mouse, e: Event)
    ensures var v, c, c' := Handle(m, e).gear.speed, EffectOf(m.out), EffectOf(Handle(m, e).out);
            && c'.x == c.x + (if e.code == 33 then v else if e.code == 48 then -v else 0)
            && c'.y == c.y + (if e.code == 49 then v else if e.code == 25 then -v else 0)
  {
    ReportsOne(m, e, Reports(e, Handle(m, e).gear.speed, m.wheel));
  }

  lemma HandleTurns(m: Mouse, e: Event)
    ensures EffectOf(Handle(m, e).out).wheel
         == EffectOf(m.out).wheel + (if e.code == 22 then m.wheel else if e.code == 47 then -m.wheel else 0)
  {
    ReportsOne(m, e, Reports(e, Handle(m, e).gear.speed, m.wheel));
  }

  lemma HandleButtons(m: Mouse, e: Event)
    ensures var c, c' := EffectOf(m.out), EffectOf(Handle(m, e).out);
            && c'.left == (if e.code == 57 then c.left + [e.value] else c.left)
            && c'.right == (if e.code == 50 then c.right + [e.value] else c.right)
  {
    ReportsOne(m, e, Reports(e, Handle(m, e).gear.speed, m.wheel));
  }

  lemma ReportsOne(m: Mouse, e: Event, rs: seq<Report>)
    requires rs == Reports(e, Handle(m, e).gear.speed, m.wheel)
    ensures EffectOf(Handle(m, e).out) == if rs == [] then EffectOf(m.out) else Then(EffectOf(m.out), rs[0])
  {
    if rs == [] {
      assert m.out + rs == m.out;
    } else {
      EffectOne(m.out, rs[0]);
    }
  }

  /** The speeds at which the events of one key were handled, added up. */
  function Moved(m: Mouse, evs: seq<Event>, code: int): int
    decreases |evs|
  {
    if evs == [] then 0
    else Moved(m, evs[..|evs| - 1], code) + if evs[|evs| - 1].code == code then HandleAll(m, evs).gear.speed else 0
  }

  /** The values of the events of one key. */
  function ValuesOf(evs: seq<Event>, code: int): seq<int>
    decreases |evs|
  {
    if evs == [] then []
    else if evs[|evs| - 1].code == code then ValuesOf(evs[..|evs| - 1], code) + [evs[|evs| - 1].value]
    else ValuesOf(evs[..|evs| - 1], code)
  }

  /** Over any list of events, with signs: each direction comes from its own key alone, the
      wheel turns once per event of its two keys, and each button gets the values of its own. */
  lemma NetEffect(m: Mouse, evs: seq<Event>)
    ensures var c, c' := EffectOf(m.out), EffectOf(HandleAll(m, evs).out);
            && c'.x == c.x + Moved(m, evs, 33) - Moved(m, evs, 48)
            && c'.y == c.y + Moved(m, evs, 49) - Moved(m, evs, 25)
            && c'.wheel == c.wheel + m.wheel * (|ValuesOf(evs, 22)| - |ValuesOf(evs, 47)|)
            && c'.left == c.left + ValuesOf(evs, 57)
            && c'.right == c.right + ValuesOf(evs, 50)
  {
    NetMotion(m, evs);
    NetTurns(m, evs);
    NetButtons(m, evs);
  }

  lemma {:induction false} NetMotion(m: Mouse, evs: seq<Event>)
    ensures var c, c' := EffectOf(m.out), EffectOf(HandleAll(m, evs).out);
            && c'.x == c.x + Moved(m, evs, 33) - Moved(m, evs, 48)
            && c'.y == c.y + Moved(m, evs, 49) - Moved(m, evs, 25)
    decreases |evs|
  {
    if evs != [] {
      NetMotion(m, evs[..|evs| - 1]);
      HandleSteps(HandleAll(m, evs[..|evs| - 1]), evs[|evs| - 1]);
    }
  }

  lemma {:induction false} NetTurns(m: Mouse, evs: seq<Event>)
    ensures HandleAll(m, evs).wheel == m.wheel
    ensures EffectOf(HandleAll(m, evs).out).wheel
         == EffectOf(m.out).wheel + m.wheel * (|ValuesOf(evs, 22)| - |ValuesOf(evs, 47)|)
    decreases |evs|
  {
    if evs != [] {
      var init, e := evs[..|evs| - 1], evs[|evs| - 1];
      NetTurns(m, init);
      HandleTurns(HandleAll(m, init), e);
      TurnsNext(m.wheel, |ValuesOf(init, 22)| - |ValuesOf(init, 47)|, evs, e);
    }
  }

  lemma TurnsNext(w: int, n: int, evs: seq<Event>, e: Event)
    requires evs != [] && e == evs[|evs| - 1]
    requires n == |ValuesOf(evs[..|evs| - 1], 22)| - |ValuesOf(evs[..|evs| - 1], 47)|
    ensures w * (|ValuesOf(evs, 22)| - |ValuesOf(evs, 47)|)
         == w * n + (if e.code == 22 then w else if e.code == 47 then -w else 0)
  {
    Turns(w, n);
  }

  lemma Turns(w: int, n: int)
    ensures w * (n + 1) == w * n + w && w * (n - 1) == w * n - w
  {
  }

  lemma {:induction false} NetButtons(m: Mouse, evs: seq<Event>)
    ensures var c, c' := EffectOf(m.out), EffectOf(HandleAll(m, evs).out);
            && c'.left == c.left + ValuesOf(evs, 57)
            && c'.right == c.right + ValuesOf(evs, 50)
    decreases |evs|
  {
    if evs != [] {
      NetButtons(m, evs[..|evs| - 1]);
      HandleButtons(HandleAll(m, evs[..|evs| - 1]), evs[|evs| - 1]);
      ButtonNext(EffectOf(m.out).left, evs, 57);
      ButtonNext(EffectOf(m.out).right, evs, 50);
    }
  }

  lemma ButtonNext(before: seq<int>, evs: seq<Event>, code: int)
    requires evs != []
    ensures var init, e := evs[..|evs| - 1], evs[|evs| - 1];
            before + ValuesOf(evs, code) ==
            if e.code == code then before + ValuesOf(init, code) + [e.value] else before + ValuesOf(init, code)
  {
  }

  /** A key held down alone: after its DOWN (1) and `n` repeats (2) the cursor has moved by
      the closed form, straight in the direction of the key. */
  lemma SignedClosedForm(m: Mouse, code: int, evs: seq<Event>)
    requires !m.keep && code in {25, 33, 48, 49}
    requires forall i :: 0 <= i < |evs| && evs[i].code in {25, 33, 48, 49} ==> evs[i] == Event(code, 2)
    ensures var c, c' := EffectOf(m.out), EffectOf(HandleAll(Handle(m, Event(code, 1)), evs).out);
            var n := |ValuesOf(evs, code)|;
            var d := MotionAt(n, if Isqrt(n) < TOP_GEAR then Isqrt(n) else TOP_GEAR);
            && c'.x == c.x + (if code == 33 then d else if code == 48 then -d else 0)
            && c'.y == c.y + (if code == 49 then d else if code == 25 then -d else 0)
  {
    LevelIsRoot(|ValuesOf(evs, code)|);
    RunOneKey(m, code, evs);
    SignedAfter(m, code, evs, 2 + Moved(Handle(m, Event(code, 1)), evs, code));
  }

  lemma SignedAfter(m: Mouse, code: int, evs: seq<Event>, d: int)
    requires code in {25, 33, 48, 49} && Handle(m, Event(code, 1)).gear.speed == 2
    requires forall i :: 0 <= i < |evs| && evs[i].code in {25, 33, 48, 49} ==> evs[i].code == code
    requires d == 2 + Moved(Handle(m, Event(code, 1)), evs, code)
    ensures var c, c' := EffectOf(m.out), EffectOf(HandleAll(Handle(m, Event(code, 1)), evs).out);
            && c'.x == c.x + (if code == 33 then d else if code == 48 then -d else 0)
            && c'.y == c.y + (if code == 49 then d else if code == 25 then -d else 0)
  {
    HandleSteps(m, Event(code, 1));
    OneKeyNet(Handle(m, Event(code, 1)), code, evs, d - 2);
  }

  lemma OneKeyNet(m: Mouse, code: int, evs: seq<Event>, d: int)
    requires code in {25, 33, 48, 49} && d == Moved(m, evs, code)
    requires forall i :: 0 <= i < |evs| && evs[i].code in {25, 33, 48, 49} ==> evs[i].code == code
    ensures var c, c' := EffectOf(m.out), EffectOf(HandleAll(m, evs).out);
            && c'.x == c.x + (if code == 33 then d else if code == 48 then -d else 0)
            && c'.y == c.y + (if code == 49 then d else if code == 25 then -d else 0)
  {
    forall c | c in {25, 33, 48, 49} && c != code
      ensures Moved(m, evs, c) == 0
    {
      NeverMoved(m, evs, c);
    }
    NetMotion(m, evs);
  }

  lemma {:induction false} RunOneKey(m: Mouse, code: int, evs: seq<Event>)
    requires !m.keep && code in {25, 33, 48, 49}
    requires forall i :: 0 <= i < |evs| && evs[i].code in {25, 33, 48, 49} ==> evs[i] == Event(code, 2)
    ensures var m1, n := Handle(m, Event(code, 1)), |ValuesOf(evs, code)|;
            && m1.gear.speed == 2
            && HandleAll(m1, evs).gear == GearAfter(n) && !HandleAll(m1, evs).keep
            && 2 + Moved(m1, evs, code) == MotionAfter(n)
    decreases |evs|
  {
    if evs == [] {
      AfterTable(0);
    } else {
      RunOneKey(m, code, evs[..|evs| - 1]);
      PressNext(|ValuesOf(evs[..|evs| - 1], code)|);
    }
  }

  lemma {:induction false} NeverMoved(m: Mouse, evs: seq<Event>, code: int)
    requires forall i :: 0 <= i < |evs| ==> evs[i].code != code
    ensures Moved(m, evs, code) == 0
    decreases |evs|
  {
    if evs != [] {
      NeverMoved(m, evs[..|evs| - 1], code);
    }
  }

  // ----- Releases -----

  /** An UP (0) clears the count and keeps speed and threshold, whatever keep_speed is. */
  lemma UpClearsCount(m: Mouse, e: Event)
    requires e.code in {25, 33, 48, 49} && e.value == 0
    ensures Handle(m, e).gear == Gear(0, m.gear.step, m.gear.speed)
  {
  }

  /** The gear after a DOWN and `n` repeats in a row, and the motion of these. */
  function GearRun(n: nat): Gear {
    if n == 0 then INITIAL_GEAR else Shift(GearRun(n - 1), KEY_VAL_PRESS, false)
  }

  function Travel(n: nat): int {
    if n == 0 then 2 else Travel(n - 1) + GearRun(n).speed
  }

  lemma {:induction false} RunClosed(n: nat)
    ensures GearRun(n) == GearAt(n, Level(n)) && Travel(n) == MotionAt(n, Level(n))
  {
    if n == 0 {
      AfterTable(0);
    } else {
      RunClosed(n - 1);
      PressNext(n - 1);
    }
  }

  /** How many repeats in a row would lead to the gear that `evs` leads to: an UP throws
      those back that have not yet led to a shift. */
  function Repeats(evs: seq<Event>): nat
    decreases |evs|
  {
    if evs == [] then 0
    else
      var n, e := Repeats(evs[..|evs| - 1]), evs[|evs| - 1];
      if !e.Direction() then n else if e.value == 0 then Shifts(n) else n + 1
  }

  /** The repeats, of `n` in a row, up to the last shift. */
  function Shifts(n: nat): nat { Level(n) * Level(n) }

  /** The motion of the UPs and of the repeats that they throw back. */
  function ThrownBack(evs: seq<Event>): int
    decreases |evs|
  {
    if evs == [] then 0
    else
      var n, e := Repeats(evs[..|evs| - 1]), evs[|evs| - 1];
      ThrownBack(evs[..|evs| - 1]) + if e.Direction() && e.value == 0 then OneBack(n) else 0
  }

  function OneBack(n: nat): int { Travel(n) - Travel(Shifts(n)) + GearRun(n).speed }

  lemma UpNext(n: nat)
    ensures GearRun(Shifts(n)) == Gear(0, GearRun(n).step, GearRun(n).speed)
    ensures OneBack(n) == (n - Level(n) * Level(n) + 1) * SpeedIn(Level(n))
  {
    RunClosed(n);
    RunClosed(Shifts(n));
    UpNextClosed(n, Level(n));
  }

  lemma UpNextClosed(n: nat, k: nat)
    requires k == Level(n)
    ensures GearAfter(k * k) == Gear(0, GearAfter(n).step, GearAfter(n).speed)
    ensures MotionAfter(n) - MotionAfter(k * k) + SpeedIn(k) == (n - k * k + 1) * SpeedIn(k)
  {
    assert k == 0 || k == 1 || k == 2 || k == 3 || k == 4 || k == 5;
    assert k * k == 0 || k * k == 1 || k * k == 4 || k * k == 9 || k * k == 16 || k * k == 25;
    AfterTable(n);
    AfterTable(k * k);
    SpeedTable();
  }

  lemma {:induction false} RunWithUps(m: Mouse, down: Event, evs: seq<Event>)
    requires !m.keep && down.Direction() && down.value == KEY_VAL_DOWN
    requires forall i :: 0 <= i < |evs| && evs[i].Direction() ==> evs[i].value == 2 || evs[i].value == 0
    ensures var m', n := HandleAll(Handle(m, down), evs), Repeats(evs);
            && !m'.keep && m'.gear == GearRun(n) && m'.gear.speed >= 0
            && Motion(m'.out) == Motion(m.out) + Travel(n) + ThrownBack(evs)
    decreases |evs|
  {
    if evs == [] {
      HandleMotionOnce(m, down);
    } else {
      var init, e := evs[..|evs| - 1], evs[|evs| - 1];
      RunWithUps(m, down, init);
      HandleMotion(HandleAll(Handle(m, down), init), e);
      UpClears(Repeats(init));
    }
  }

  lemma UpClears(n: nat)
    ensures GearRun(Shifts(n)) == Gear(0, GearRun(n).step, GearRun(n).speed)
    ensures GearRun(n).speed >= 0 && GearRun(n + 1).speed >= 0
  {
    UpNext(n);
    RunClosed(n);
    RunClosed(n + 1);
  }

  /** The closed form across UPs, in any mix of repeats and releases after a DOWN: the gear
      is that of the repeats not thrown back, and each UP adds, in gear `k` after `n` of
      them, (n - k * k + 1) times the speed to the motion. */
  lemma ClosedFormWithUps(m: Mouse, down: Event, evs: seq<Event>)
    requires !m.keep && down.Direction() && down.value == KEY_VAL_DOWN
    requires forall i :: 0 <= i < |evs| && evs[i].Direction() ==> evs[i].value == 2 || evs[i].value == 0
    ensures var m', n := HandleAll(Handle(m, down), evs), Repeats(evs);
            && m'.gear == GearAt(n, Level(n))
            && Motion(m'.out) == Motion(m.out) + MotionAt(n, Level(n)) + ThrownBack(evs)
  {
    RunWithUps(m, down, evs);
    RunClosed(Repeats(evs));
  }

  lemma HandleMotionOnce(m: Mouse, down: Event)
    requires !m.keep && down.Direction() && down.value == KEY_VAL_DOWN
    ensures Handle(m, down).gear == INITIAL_GEAR && Motion(Handle(m, down).out) == Motion(m.out) + 2
  {
    MotionOne(m.out, Reports(down, MOVE_DEFAULT_SPEED, m.wheel)[0]);
  }

  // ----- Any mix of directions -----

  lemma {:induction false} RunTo(m: Mouse, down: Event, evs: seq<Event>)
    requires !m.keep && down.Direction() && down.value == KEY_VAL_DOWN
    requires forall i :: 0 <= i < |evs| && evs[i].Direction() ==> evs[i].value == KEY_VAL_PRESS
    ensures var m' := HandleAll(Handle(m, down), evs);
            && !m'.keep && m'.wheel == m.wheel
            && m'.gear == GearAfter(Moves(evs))
            && Motion(m'.out) == Motion(m.out) + MotionAfter(Moves(evs))
    decreases |evs|
  {
    if evs == [] {
      AfterTable(0);
      MotionOne(m.out, Reports(down, MOVE_DEFAULT_SPEED, m.wheel)[0]);
    } else {
      var init, e := evs[..|evs| - 1], evs[|evs| - 1];
      RunTo(m, down, init);
      PressNext(Moves(init));
      var before := HandleAll(Handle(m, down), init);
      HandleMotion(before, e);
    }
  }

  /** After a DOWN with keep_speed off, and then any list of events whose direction keys all
      repeat, in any mix of directions and with any other keys between: speed, threshold and
      total motion depend on the number of repeats alone, through its integer square root. */
  lemma ClosedForm(m: Mouse, down: Event, evs: seq<Event>)
    requires !m.keep && down.Direction() && down.value == KEY_VAL_DOWN
    requires forall i :: 0 <= i < |evs| && evs[i].Direction() ==> evs[i].value == KEY_VAL_PRESS
    ensures var m' := HandleAll(Handle(m, down), evs);
            var n := Moves(evs);
            var k := if Isqrt(n) < TOP_GEAR then Isqrt(n) else TOP_GEAR;
            m'.gear == GearAt(n, k) && Motion(m'.out) == Motion(m.out) + MotionAt(n, k)
  {
    RunTo(m, down, evs);
    LevelIsRoot(Moves(evs));
  }

  lemma HandleMotion(m: Mouse, e: Event)
    requires m.gear.speed >= 0
    ensures var m' := Handle(m, e);
            m'.gear.speed >= 0 ==>
            Motion(m'.out) == Motion(m.out) + if e.Direction() then m'.gear.speed else 0
  {
    var m' := Handle(m, e);
    var rs := Reports(e, m'.gear.speed, m.wheel);
    if rs == [] {
      assert m.out + rs == m.out;
    } else {
      assert rs == [rs[0]];
      MotionOne(m.out, rs[0]);
    }
  }

  /** With keep_speed on, no event changes the speed or the threshold. */
  lemma KeepHolds(m: Mouse, e: Event)
    requires m.keep
    ensures Handle(m, e).gear.speed == m.gear.speed && Handle(m, e).gear.step == m.gear.step
    ensures Handle(m, e).gear.count ==
            if e.code in {25, 33, 48, 49} && e.value in {0, 1} then 0 else m.gear.count
  {
  }

  /** Nor does the event of another key, or one with another value, change the gear. */
  lemma OthersDoNotShift(m: Mouse, e: Event)
    requires e.code !in {25, 33, 48, 49} || e.value !in {0, 1, 2}
    ensures Handle(m, e).gear == m.gear
  {
  }

  lemma HandleGeared(m: Mouse, e: Event)
    requires Geared(m.gear)
    ensures Geared(Handle(m, e).gear)
  {
    ShiftGeared(m.gear, e.value, m.keep);
  }

  function Distance(x: int, y: int): nat { Abs(x - y) }

  /** vmouse_wheel_speed_store: check_val takes the number in the permitted range that is
      nearest to the one given. */
  function ClampWheel(x: int): (w: int)
    ensures 1 <= w <= 7
    ensures forall v :: 1 <= v <= 7 ==> Distance(x, w) <= Distance(x, v)
  {
    if x < WHEEL_MIN_SPEED then WHEEL_MIN_SPEED else if x > WHEEL_MAX_SPEED then WHEEL_MAX_SPEED else x
  }
}
