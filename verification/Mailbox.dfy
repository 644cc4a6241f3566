/** The single-slot mailbox between the key filter and the work item of the virtual mouse
    (vmouse_driver/vmouse.c), over every interleaving of their steps. The filter stores
    code and value without the lock, so the work item may read them from two events. */
module Mailbox {
  import opened Gearbox
  import opened VMouse

  /** The driver and what has happened so far. */
  datatype World = World(
    d: Driver,
    toggles: nat,         // CAPSLOCK presses
    written: seq<Event>,  // events whose code has been stored
    posted: seq<Event>,   // events that have been scheduled
    starts: seq<nat>,     // for each run of the work item, the events posted when it started
    seen: seq<nat>,       // for each run that has read the code, the events written by then
    vals: seq<nat>,       // for each finished run, the values stored by the time it read one
    handled: seq<Event>)  // for each finished run, what it handled

  const INIT := World(INITIAL, 0, [], [], [], [], [], [])

  datatype Action =
    | Input(typ: int, code: int, value: int)   // the filter is called
    | Filter                                   // its next step
    | Start                                    // the pending bit is cleared, the work item runs
    | ReadCode                                 // it takes the lock and reads the code
    | HandleSlot                               // it reads the value, reports, releases the lock
    | SetWheel(speed: int)                     // vmouse_wheel_speed_store

  predicate Enabled(w: World, a: Action) {
    match a
    case Input(_, _, _) => w.d.filter == Idle
    case Filter => w.d.filter != Idle && (w.d.filter.Toggling? ==> !w.d.worker.Reading?)
    case Start => w.d.pending && w.d.worker == Resting
    case ReadCode => w.d.worker == Started
    case HandleSlot => w.d.worker.Reading?
    case SetWheel(_) => !w.d.worker.Reading?
  }

  /** How many values have been stored: the event half posted lacks its own. */
  function ValuesStored(w: World): nat { |w.posted| + if w.d.filter.Posted? then 1 else 0 }

  function Next(w: World, a: Action): World
    requires Enabled(w, a)
  {
    var d := w.d;
    match a
    case Input(typ, code, value) =>
      w.(d := Enter(d, typ, code, value),
         toggles := w.toggles + if typ == EV_KEY && code == KEY_CAPSLOCK && value == KEY_VAL_DOWN then 1 else 0)
    case Filter =>
      w.(d := GoOn(d),
         written := if d.filter.Posting? then w.written + [Event(d.filter.code, d.filter.value)] else w.written,
         posted := if d.filter.Posted? then w.posted + [Event(d.filter.code, d.filter.value)] else w.posted)
    case Start =>
      w.(d := d.(pending := false, worker := Started), starts := w.starts + [|w.posted|])
    case ReadCode =>
      w.(d := d.(worker := Reading(d.code)), seen := w.seen + [|w.written|])
    case HandleSlot =>
      var e := Event(d.worker.code, d.value);
      w.(d := d.(mouse := Handle(d.mouse, e), worker := Resting),
         vals := w.vals + [ValuesStored(w)], handled := w.handled + [e])
    case SetWheel(speed) =>
      w.(d := d.(mouse := d.mouse.(wheel := ClampWheel(speed))))
  }

  /** The actions are possible one after the other from `w`, and lead to `w'`. */
  ghost predicate Leads(w: World, acts: seq<Action>, w': World)
    decreases |acts|
  {
    if acts == [] then w' == w else Enabled(w, acts[0]) && Leads(Next(w, acts[0]), acts[1..], w')
  }

  ghost predicate Reaches(acts: seq<Action>, w: World) { Leads(INIT, acts, w) }

  // ----- The gear and the speed lock -----

  ghost predicate GearInv(w: World) {
    Geared(w.d.mouse.gear) && WHEEL_MIN_SPEED <= w.d.mouse.wheel <= WHEEL_MAX_SPEED
  }

  lemma GearStep(w: World, a: Action)
    requires GearInv(w) && Enabled(w, a)
    ensures GearInv(Next(w, a))
  {
    if a.HandleSlot? {
      HandleGeared(w.d.mouse, Event(w.d.worker.code, w.d.value));
    }
  }

  predicate KeepInv(w: World) {
    && w.d.caps == (w.toggles % 2 == 1)
    && (!w.d.filter.Toggling? ==> w.d.mouse.keep == w.d.caps)
  }

  lemma KeepStep(w: World, a: Action)
    requires KeepInv(w) && Enabled(w, a)
    ensures KeepInv(Next(w, a))
  {
  }

  // ----- The slot -----

  function Last<T>(s: seq<T>): T
    requires s != []
  {
    s[|s| - 1]
  }

  /** The filter is not between its first store and schedule_work. */
  predicate Calm(f: Filter) { f == Idle || f.Toggling? || f.Posting? }

  /** What the slot holds. */
  predicate SlotInv(w: World) {
    var d := w.d;
    && (Calm(d.filter) && w.posted != [] ==> Event(d.code, d.value) == Last(w.posted))
    && (d.filter.HalfPosted? ==> d.code == d.filter.code && (w.posted != [] ==> d.value == Last(w.posted).value))
    && (d.filter.Posted? ==> d.code == d.filter.code && d.value == d.filter.value)
  }

  lemma SlotStep(w: World, a: Action)
    requires SlotInv(w) && Enabled(w, a)
    ensures SlotInv(Next(w, a))
  {
  }

  /** Unless work is pending, a run has started for the last event posted. */
  predicate LatestInv(w: World) {
    w.d.pending || w.posted == [] || (w.starts != [] && Last(w.starts) == |w.posted|)
  }

  lemma LatestStep(w: World, a: Action)
    requires LatestInv(w) && Enabled(w, a)
    ensures LatestInv(Next(w, a))
  {
  }

  // ----- Counting runs -----

  predicate CountInv(w: World) {
    && |w.starts| + (if w.d.pending then 1 else 0) <= |w.posted|
    && |w.handled| + (if w.d.worker == Resting then 0 else 1) == |w.starts|
    && |w.seen| == |w.handled| + (if w.d.worker.Reading? then 1 else 0)
  }

  lemma CountStep(w: World, a: Action)
    requires CountInv(w) && Enabled(w, a)
    ensures CountInv(Next(w, a))
  {
  }

  /** The events written are those posted and, while a post is under way, its event. */
  predicate LogInv(w: World) {
    && w.written == w.posted + (if Calm(w.d.filter) then [] else [Event(w.d.filter.code, w.d.filter.value)])
    && (w.written != [] ==> Last(w.written).code == w.d.code)
  }

  lemma LogStep(w: World, a: Action)
    requires LogInv(w) && Enabled(w, a)
    ensures LogInv(Next(w, a))
  {
    if a.Filter? && w.d.filter.Posting? {
      assert w.posted + [] == w.posted;
    }
  }

  predicate Increasing(s: seq<nat>) { forall i, j :: 0 <= i < j < |s| ==> s[i] < s[j] }

  predicate Monotone(s: seq<nat>) { forall i, j :: 0 <= i < j < |s| ==> s[i] <= s[j] }

  predicate Within(s: seq<nat>, hi: nat) { forall i :: 0 <= i < |s| ==> 1 <= s[i] <= hi }

  /** Each run starts after a post that the run before had not seen. */
  predicate StartsInv(w: World) {
    && Increasing(w.starts) && Within(w.starts, |w.posted|)
    && (w.d.pending ==> w.posted != [] && (w.starts == [] || Last(w.starts) < |w.posted|))
  }

  lemma StartsStep(w: World, a: Action)
    requires StartsInv(w) && Enabled(w, a)
    ensures StartsInv(Next(w, a))
  {
    if a.Start? && w.starts != [] {
      assert forall i :: 0 <= i < |w.starts| ==> w.starts[i] <= Last(w.starts);
    }
  }

  /** Later runs see no fewer events than earlier ones, and each run those it started for. */
  predicate SeenInv(w: World) {
    && |w.seen| <= |w.starts|
    && Monotone(w.seen) && Within(w.seen, |w.written|)
    && (forall i :: 0 <= i < |w.seen| ==> w.starts[i] <= w.seen[i])
  }

  lemma SeenStep(w: World, a: Action)
    requires CountInv(w) && LogInv(w) && StartsInv(w) && SeenInv(w) && Enabled(w, a)
    ensures SeenInv(Next(w, a))
  {
    if a.ReadCode? {
      assert |w.seen| < |w.starts| && w.starts[|w.seen|] <= |w.written|;
    }
  }

  /** A run reads at most one event ahead of the posts that later runs start for. */
  predicate AheadInv(w: World) {
    && |w.vals| <= |w.seen|
    && (forall i, j :: 0 <= i < |w.seen| && i < j < |w.starts| ==> w.seen[i] <= w.starts[j] + 1)
    && (forall i, j :: 0 <= i < |w.vals| && i < j < |w.starts| ==> w.vals[i] <= w.starts[j] + 1)
  }

  lemma AheadStep(w: World, a: Action)
    requires CountInv(w) && LogInv(w) && SeenInv(w) && PaceInv(w) && AheadInv(w) && Enabled(w, a)
    ensures AheadInv(Next(w, a))
  {
    assert |w.written| <= |w.posted| + 1;
  }

  predicate CodeOf(written: seq<Event>, r: nat, code: int) {
    1 <= r <= |written| && written[r - 1].code == code
  }

  /** The code handled by a run is that of the event it read. */
  predicate CodeInv(w: World) {
    && |w.handled| <= |w.seen|
    && (forall i :: 0 <= i < |w.handled| ==> CodeOf(w.written, w.seen[i], w.handled[i].code))
    && (w.d.worker.Reading? ==> w.seen != [] && CodeOf(w.written, Last(w.seen), w.d.worker.code))
  }

  lemma CodeStep(w: World, a: Action)
    requires CountInv(w) && LogInv(w) && StartsInv(w) && CodeInv(w) && Enabled(w, a)
    ensures CodeInv(Next(w, a))
  {
    if a.ReadCode? {
      assert w.starts[|w.starts| - 1] >= 1;
      assert CodeOf(w.written, |w.written|, w.d.code);
    }
  }

  predicate ValueOf(written: seq<Event>, v: nat, value: int) {
    1 <= v <= |written| && written[v - 1].value == value
  }

  /** The value handled by a run is that of an event whose value had been stored. */
  predicate ValueInv(w: World) {
    && |w.vals| == |w.handled|
    && (forall i :: 0 <= i < |w.handled| ==> ValueOf(w.written, w.vals[i], w.handled[i].value))
  }

  lemma ValueStep(w: World, a: Action)
    requires CountInv(w) && LogInv(w) && StartsInv(w) && SlotInv(w) && ValueInv(w) && Enabled(w, a)
    ensures ValueInv(Next(w, a))
  {
    if a.HandleSlot? {
      SlotValue(w);
    }
  }

  /** That event is the one before the event whose code the run read, or no earlier; and
      no earlier than the last one the run started for. */
  predicate PaceInv(w: World) {
    && |w.vals| == |w.handled| <= |w.seen| <= |w.starts|
    && Monotone(w.vals)
    && (forall i :: 0 <= i < |w.vals| ==>
          w.seen[i] <= w.vals[i] + 1 && w.starts[i] <= w.vals[i] <= ValuesStored(w))
  }

  lemma PaceStep(w: World, a: Action)
    requires CountInv(w) && LogInv(w) && StartsInv(w) && SeenInv(w) && PaceInv(w) && Enabled(w, a)
    ensures PaceInv(Next(w, a))
  {
    assert |w.written| <= ValuesStored(w) + 1;
  }

  /** The slot holds the last value stored. */
  lemma SlotValue(w: World)
    requires CountInv(w) && LogInv(w) && StartsInv(w) && SlotInv(w) && w.d.worker.Reading?
    ensures ValueOf(w.written, ValuesStored(w), w.d.value)
  {
    assert w.starts[|w.starts| - 1] >= 1;
  }

  // ----- Every run of the system -----

  ghost predicate Inv(w: World) {
    && GearInv(w) && KeepInv(w) && SlotInv(w) && LatestInv(w)
    && CountInv(w) && LogInv(w) && StartsInv(w) && SeenInv(w) && AheadInv(w) && CodeInv(w)
    && ValueInv(w) && PaceInv(w)
  }

  lemma InvStep(w: World, a: Action)
    requires Inv(w) && Enabled(w, a)
    ensures Inv(Next(w, a))
  {
    GearStep(w, a);
    KeepStep(w, a);
    SlotStep(w, a);
    LatestStep(w, a);
    CountStep(w, a);
    LogStep(w, a);
    StartsStep(w, a);
    SeenStep(w, a);
    AheadStep(w, a);
    CodeStep(w, a);
    ValueStep(w, a);
    PaceStep(w, a);
  }

  lemma {:induction false} LeadsInv(w: World, acts: seq<Action>, w': World)
    requires Inv(w) && Leads(w, acts, w')
    ensures Inv(w')
    decreases |acts|
  {
    if acts != [] {
      InvStep(w, acts[0]);
      LeadsInv(Next(w, acts[0]), acts[1..], w');
    }
  }

  lemma AlwaysInv(acts: seq<Action>, w: World)
    requires Reaches(acts, w)
    ensures Inv(w)
  {
    SpeedTable();
    assert InGear(INITIAL_GEAR, 0);
    LeadsInv(INIT, acts, w);
  }

  /** Nothing is under way. */
  predicate Quiet(w: World) { w.d.filter == Idle && !w.d.pending && w.d.worker == Resting }

  /** Whenever everything has come to rest, the last run took both the code and the value
      of the very last event posted, however many equal events came before it; and the work
      item never runs more often than events were posted. */
  lemma QuietIsUpToDate(acts: seq<Action>, w: World)
    requires Reaches(acts, w)
    ensures Quiet(w) && w.posted != [] ==>
              && |w.handled| == |w.seen| == |w.vals| > 0
              && Last(w.seen) == Last(w.vals) == |w.posted|
              && Last(w.handled) == Last(w.posted)
    ensures |w.handled| <= |w.starts| <= |w.posted|
  {
    AlwaysInv(acts, w);
    if Quiet(w) && w.posted != [] {
      LastRunsFor(w);
    }
  }

  lemma LastRunsFor(w: World)
    requires Inv(w) && Calm(w.d.filter) && w.posted != [] && !w.d.pending
    ensures w.d.worker.Reading? ==>
              && |w.seen| > 0 && Last(w.seen) == |w.posted|
              && CodeOf(w.posted, |w.posted|, w.d.worker.code)
    ensures w.d.worker == Resting ==>
              && |w.handled| == |w.seen| == |w.vals| > 0
              && Last(w.seen) == Last(w.vals) == |w.posted|
              && Last(w.handled) == Last(w.posted)
  {
    assert w.written == w.posted;
    var n := |w.starts| - 1;
    if w.d.worker == Resting {
      assert CodeOf(w.written, w.seen[n], w.handled[n].code) && ValueOf(w.written, w.vals[n], w.handled[n].value);
    }
  }

  /** At any moment, for every event posted so far, equal to others or not, work is pending
      or a run has started after it was posted. That run has not yet read the slot, or holds
      the code of this event or a later one, or is done with such a code and value. */
  lemma NothingLost(acts: seq<Action>, w: World, k: nat) returns (i: nat)
    requires Reaches(acts, w) && 1 <= k <= |w.posted|
    ensures w.d.pending ||
            (&& i < |w.starts| && w.starts[i] >= k
             && (if i < |w.seen| then w.seen[i] >= k else i == |w.starts| - 1 && w.d.worker == Started)
             && (if i < |w.vals| then w.vals[i] >= k else i == |w.starts| - 1 && w.d.worker != Resting))
  {
    AlwaysInv(acts, w);
    i := if w.starts == [] then 0 else |w.starts| - 1;
  }

  /** Between posts, for the last event itself: the run holds, or has handled, just its code and value. */
  lemma LastNotLost(acts: seq<Action>, w: World)
    requires Reaches(acts, w) && Calm(w.d.filter) && w.posted != [] && !w.d.pending
    ensures match w.d.worker
            case Started => true
            case Reading(c) => |w.seen| > 0 && Last(w.seen) == |w.posted| && Event(c, w.d.value) == Last(w.posted)
            case Resting => && |w.handled| == |w.seen| == |w.vals| > 0
                            && Last(w.seen) == Last(w.vals) == |w.posted| && Last(w.handled) == Last(w.posted)
  {
    AlwaysInv(acts, w);
    LastRunsFor(w);
  }

  // ----- Exactly once -----

  /** Every event posted was handled by a run of its own, which took its code and value. */
  predicate OnceEach(w: World) {
    && |w.handled| == |w.posted| == |w.seen| == |w.vals|
    && Counts(w.seen) && Counts(w.vals)
  }

  /** 1, 2, 3 and so on. */
  predicate Counts(s: seq<nat>) { forall i :: 0 <= i < |s| ==> s[i] == i + 1 }

  /** The filter stores a code only if no run is to come that has not read one, and a value
      only if no run stands between its two reads. */
  predicate Undisturbed(w: World, a: Action) {
    a.Filter? ==>
      && (w.d.filter.Posting? ==> !w.d.pending && w.d.worker != Started)
      && (w.d.filter.HalfPosted? ==> !w.d.worker.Reading?)
  }

  ghost predicate AllUndisturbed(w: World, acts: seq<Action>)
    decreases |acts|
  {
    acts != [] && Enabled(w, acts[0]) ==>
      Undisturbed(w, acts[0]) && AllUndisturbed(Next(w, acts[0]), acts[1..])
  }

  /** What holds as long as no store has been disturbed. */
  predicate OnceInv(w: World) {
    && Counts(w.starts) && Counts(w.seen) && Counts(w.vals)
    && |w.starts| + (if w.d.pending then 1 else 0) == |w.posted|
    && (w.d.pending ==> w.d.worker == Resting && Calm(w.d.filter))
    && (w.d.worker == Started ==> Calm(w.d.filter))
    && (w.d.worker.Reading? ==> !w.d.filter.Posted?)
  }

  lemma OnceStep(w: World, a: Action)
    requires CountInv(w) && LogInv(w) && PaceInv(w) && OnceInv(w) && Enabled(w, a) && Undisturbed(w, a)
    ensures OnceInv(Next(w, a))
  {
  }

  predicate Past(s: seq<nat>) { exists i :: 0 <= i < |s| && s[i] > i + 1 }

  /** What holds for ever once a store has been disturbed: a run has read an event later
      than its own number, or is bound to. */
  predicate Disturbed(w: World) {
    || Past(w.seen)
    || Past(w.vals)
    || ((w.d.pending || w.d.worker == Started) && |w.written| > |w.seen| + 1)
    || (w.d.worker.Reading? && ValuesStored(w) > |w.vals| + 1)
  }

  lemma DisturbedBy(w: World, a: Action)
    requires CountInv(w) && LogInv(w) && PaceInv(w) && Enabled(w, a) && !Undisturbed(w, a)
    ensures Disturbed(Next(w, a))
  {
  }

  lemma DisturbedStep(w: World, a: Action)
    requires CountInv(w) && LogInv(w) && PaceInv(w) && Disturbed(w) && Enabled(w, a)
    ensures Disturbed(Next(w, a))
  {
    var w' := Next(w, a);
    PastAppend(w.seen, |w.written|);
    PastAppend(w.vals, ValuesStored(w));
  }

  lemma PastAppend(s: seq<nat>, x: nat)
    ensures Past(s + [x]) <==> Past(s) || x > |s| + 1
  {
    var t := s + [x];
    if Past(s) {
      var i :| 0 <= i < |s| && s[i] > i + 1;
      assert t[i] > i + 1;
    }
    if x > |s| + 1 {
      assert t[|s|] > |s| + 1;
    }
  }

  lemma {:induction false} OnceWhileUndisturbed(w: World, acts: seq<Action>, w': World)
    requires Inv(w) && OnceInv(w) && Leads(w, acts, w')
    ensures if AllUndisturbed(w, acts) then OnceInv(w') else Disturbed(w')
    decreases |acts|
  {
    if acts != [] {
      InvStep(w, acts[0]);
      if Undisturbed(w, acts[0]) {
        OnceStep(w, acts[0]);
        OnceWhileUndisturbed(Next(w, acts[0]), acts[1..], w');
      } else {
        DisturbedBy(w, acts[0]);
        StaysDisturbed(Next(w, acts[0]), acts[1..], w');
      }
    }
  }

  lemma {:induction false} StaysDisturbed(w: World, acts: seq<Action>, w': World)
    requires Inv(w) && Disturbed(w) && Leads(w, acts, w')
    ensures Disturbed(w')
    decreases |acts|
  {
    if acts != [] {
      InvStep(w, acts[0]);
      DisturbedStep(w, acts[0]);
      StaysDisturbed(Next(w, acts[0]), acts[1..], w');
    }
  }

  /** Once everything is at rest, each event posted has been handled exactly once, whole and
      in order, if and only if no store of the filter was disturbed; the events handled are
      then those posted. */
  lemma OnceEachIff(acts: seq<Action>, w: World)
    requires Reaches(acts, w) && Quiet(w)
    ensures OnceEach(w) <==> AllUndisturbed(INIT, acts)
    ensures OnceEach(w) ==> w.handled == w.posted
  {
    AlwaysInv([], INIT);
    AlwaysInv(acts, w);
    OnceWhileUndisturbed(INIT, acts, w);
    if OnceEach(w) {
      OnceEachInOrder(w);
    }
  }

  lemma OnceEachInOrder(w: World)
    requires LogInv(w) && CodeInv(w) && ValueInv(w) && Quiet(w) && OnceEach(w)
    ensures w.handled == w.posted
  {
    assert w.written == w.posted;
    forall i | 0 <= i < |w.handled|
      ensures w.handled[i] == w.posted[i]
    {
      assert CodeOf(w.written, w.seen[i], w.handled[i].code) && ValueOf(w.written, w.vals[i], w.handled[i].value);
    }
  }

  // ----- How events are lost and torn -----

  /** Runs handle the codes and the values of events in the order in which these were
      written, and neither the code nor the value of an event more than three times. */
  lemma AtMostThrice(acts: seq<Action>, w: World)
    requires Reaches(acts, w)
    ensures |w.handled| == |w.vals| <= |w.seen| && Monotone(w.seen) && Monotone(w.vals)
    ensures forall i :: 0 <= i < |w.handled| ==> CodeOf(w.written, w.seen[i], w.handled[i].code)
    ensures forall i :: 0 <= i < |w.handled| ==> ValueOf(w.written, w.vals[i], w.handled[i].value)
    ensures forall i :: 0 <= i && i + 3 < |w.seen| ==> w.seen[i] < w.seen[i + 3]
    ensures forall i :: 0 <= i && i + 3 < |w.vals| ==> w.vals[i] < w.vals[i + 3]
  {
    AlwaysInv(acts, w);
    forall i | 0 <= i && i + 3 < |w.seen|
      ensures w.seen[i] < w.seen[i + 3]
      ensures i + 3 < |w.vals| ==> w.vals[i] < w.vals[i + 3]
    {
      assert w.starts[i + 1] < w.starts[i + 2] < w.starts[i + 3];
    }
  }

  /** A run may pair the code of one event with the value of another, but only of the event
      just before it or of a later one, and values are handled in the order written too. */
  lemma TornOnlySo(acts: seq<Action>, w: World)
    requires Reaches(acts, w)
    ensures |w.vals| == |w.handled| <= |w.seen| && Monotone(w.vals)
    ensures forall i :: 0 <= i < |w.handled| ==>
              ValueOf(w.written, w.vals[i], w.handled[i].value) && w.seen[i] <= w.vals[i] + 1
  {
    AlwaysInv(acts, w);
  }

  /** One more action after those that lead from `w` to `w'`. */
  lemma {:induction false} OneMore(w: World, acts: seq<Action>, w': World, a: Action)
    requires Leads(w, acts, w') && Enabled(w', a)
    ensures Leads(w, acts + [a], Next(w', a))
    decreases |acts|
  {
    if acts == [] {
      assert acts + [a] == [a];
      assert Leads(Next(w, a), [a][1..], Next(w, a));
    } else {
      assert (acts + [a])[1..] == acts[1..] + [a];
      OneMore(Next(w, acts[0]), acts[1..], w', a);
    }
  }

  lemma Then(acts: seq<Action>, w: World, a: Action) returns (acts': seq<Action>, w': World)
    requires Reaches(acts, w) && Enabled(w, a)
    ensures Reaches(acts', w') && w' == Next(w, a)
  {
    OneMore(INIT, acts, w, a);
    acts', w' := acts + [a], Next(w, a);
  }

  /** A whole call of the filter for an event of a chord. */
  lemma ThenPost(acts: seq<Action>, w: World, code: int, value: int) returns (acts': seq<Action>, w': World)
    requires Reaches(acts, w) && w.d.filter == Idle && Enter(w.d, EV_KEY, code, value).filter == Posting(code, value)
    ensures Reaches(acts', w')
    ensures w'.d == Enter(w.d, EV_KEY, code, value).(code := code, value := value, pending := true, filter := Idle)
    ensures w' == w.(d := w'.d, toggles := w'.toggles,
                     written := w.written + [Event(code, value)], posted := w.posted + [Event(code, value)])
  {
    acts', w' := Then(acts, w, Input(EV_KEY, code, value));
    acts', w' := Then(acts', w', Filter);
    acts', w' := Then(acts', w', Filter);
    acts', w' := Then(acts', w', Filter);
  }

  /** A whole run of the work item. */
  lemma ThenRun(acts: seq<Action>, w: World) returns (acts': seq<Action>, w': World)
    requires Reaches(acts, w) && w.d.pending && w.d.worker == Resting
    ensures Reaches(acts', w')
    ensures w'.d == w.d.(pending := false, mouse := w'.d.mouse)
    ensures w'.posted == w.posted && w'.written == w.written
    ensures w'.starts == w.starts + [|w.posted|] && w'.seen == w.seen + [|w.written|]
    ensures w'.vals == w.vals + [ValuesStored(w)] && w'.handled == w.handled + [Event(w.d.code, w.d.value)]
  {
    acts', w' := Then(acts, w, Start);
    acts', w' := Then(acts', w', ReadCode);
    acts', w' := Then(acts', w', HandleSlot);
  }

  /** A modifier is held and the other goes down, which is the first event posted; the work
      item has started for it. */
  lemma FirstRunStarted() returns (acts: seq<Action>, w: World)
    ensures Reaches(acts, w)
    ensures w.d == INITIAL.(ctrl := KEY_VAL_DOWN, alt := KEY_VAL_DOWN, code := KEY_LEFTALT, value := KEY_VAL_DOWN,
                            worker := Started)
    ensures w.written == w.posted == [Event(KEY_LEFTALT, KEY_VAL_DOWN)]
    ensures w.starts == [1] && w.seen == w.vals == [] && w.handled == []
  {
    acts, w := Then([], INIT, Input(EV_KEY, KEY_LEFTCTRL, KEY_VAL_DOWN));
    acts, w := ThenPost(acts, w, KEY_LEFTALT, KEY_VAL_DOWN);
    acts, w := Then(acts, w, Start);
  }

  /** Three is not too many: the same key repeat is handled whole three times over, and of
      the two events before it neither code nor value is ever handled. */
  lemma ThriceHappens() returns (acts: seq<Action>, w: World)
    ensures Reaches(acts, w) && Quiet(w)
    ensures var e := Event(KEY_P, KEY_VAL_PRESS);
            && w.posted == [Event(KEY_LEFTALT, KEY_VAL_DOWN), Event(KEY_N, KEY_VAL_DOWN), e]
            && w.seen == w.vals == [3, 3, 3] && w.handled == [e, e, e]
  {
    acts, w := FirstRunStarted();
    acts, w := ThenPost(acts, w, KEY_N, KEY_VAL_DOWN);
    acts, w := Then(acts, w, Input(EV_KEY, KEY_P, KEY_VAL_PRESS));
    acts, w := Then(acts, w, Filter);
    acts, w := Then(acts, w, Filter);
    acts, w := Then(acts, w, ReadCode);
    acts, w := Then(acts, w, HandleSlot);
    acts, w := ThenRun(acts, w);
    acts, w := Then(acts, w, Filter);
    acts, w := ThenRun(acts, w);
  }

  /** A torn pair shows: the press of one key is handled as the press of another, an event
      that was never posted, although every event posted is followed by a run. */
  lemma TornHappens() returns (acts: seq<Action>, w: World)
    ensures Reaches(acts, w) && Quiet(w)
    ensures w.posted == [Event(KEY_LEFTALT, KEY_VAL_DOWN), Event(KEY_N, KEY_VAL_UP)]
    ensures w.handled == [Event(KEY_N, KEY_VAL_DOWN), Event(KEY_N, KEY_VAL_UP)] && w.handled[0] !in w.posted
    ensures w.seen == [2, 2] && w.vals == [1, 2]
  {
    acts, w := FirstRunStarted();
    acts, w := Then(acts, w, Input(EV_KEY, KEY_N, KEY_VAL_UP));
    acts, w := Then(acts, w, Filter);
    acts, w := Then(acts, w, ReadCode);
    acts, w := Then(acts, w, HandleSlot);
    acts, w := Then(acts, w, Filter);
    acts, w := Then(acts, w, Filter);
    acts, w := ThenRun(acts, w);
  }

  /** In every state reached, the mouse is in a gear, keep_speed shows the parity of the
      CAPSLOCK presses once the filter has seen them through, and the wheel is in range. */
  lemma AlwaysGeared(acts: seq<Action>, w: World)
    requires Reaches(acts, w)
    ensures Geared(w.d.mouse.gear) && WHEEL_MIN_SPEED <= w.d.mouse.wheel <= WHEEL_MAX_SPEED
    ensures !w.d.filter.Toggling? ==> (w.d.mouse.keep <==> w.toggles % 2 == 1)
  {
    AlwaysInv(acts, w);
  }

  predicate IsToggle(a: Action) {
    a.Input? && a.typ == EV_KEY && a.code == KEY_CAPSLOCK && a.value == KEY_VAL_DOWN
  }

  /** While keep_speed is set and until the next CAPSLOCK press, nothing that happens changes
      the speed or the threshold of the gearbox. */
  lemma {:induction false} SpeedKept(w: World, acts: seq<Action>, w': World)
    requires w.d.mouse.keep && w.d.caps && Leads(w, acts, w')
    requires forall i :: 0 <= i < |acts| ==> !IsToggle(acts[i])
    ensures w'.d.mouse.keep && w'.d.caps
    ensures w'.d.mouse.gear.speed == w.d.mouse.gear.speed && w'.d.mouse.gear.step == w.d.mouse.gear.step
    decreases |acts|
  {
    if acts != [] {
      KeepStays(w, acts[0]);
      SpeedKept(Next(w, acts[0]), acts[1..], w');
    }
  }

  lemma KeepStays(w: World, a: Action)
    requires w.d.mouse.keep && w.d.caps && Enabled(w, a) && !IsToggle(a)
    ensures var w' := Next(w, a);
            && w'.d.mouse.keep && w'.d.caps
            && w'.d.mouse.gear.speed == w.d.mouse.gear.speed && w'.d.mouse.gear.step == w.d.mouse.gear.step
  {
    if a.HandleSlot? {
      KeepHolds(w.d.mouse, Event(w.d.worker.code, w.d.value));
    }
  }
}
