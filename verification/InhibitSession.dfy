/** Runs of the hot corner and the idle monitor together, over any events at any times. */
module InhibitSession {
  import opened HotCorner
  import opened IdleMonitor
  import opened Options

  datatype Config = Config(corners: HotCorner.Config, idleDelay: nat)

  /** `firings` lists what the corners have fired so far. */
  datatype State = State(tracker: Tracker, idle: Idle, firings: seq<Firing>)

  datatype Event =
    | PointerMoved(pointer: Point)
    | LayoutChanged(extents: Box)
    | CornerTimer
    | IdleTimer
    | Activity
    | DesktopUnlocked
    | NewInhibitor(id: nat)
    | InhibitorGone(id: nat)
    | KeyAction(action: Action)

  /** An event, when it happens, and whether the lock command could be started then. */
  datatype Input = Input(event: Event, time: nat, lockable: bool)

  // ---------- One event ----------

  function Start(c: Config, extents: Box, pointer: Point, now: nat): State {
    State(Started(c.corners, extents, pointer, now), Created(c.idleDelay, now), [])
  }

  /** Applies a corner's transition, and executes the action it fires. */
  function Perform(c: Config, s: State, o: Outcome, lockable: bool): State {
    match o.fired
    case None => s.(tracker := o.tracker)
    case Some(f) => State(o.tracker, Executed(s.idle, ActionOf(c.corners, f), lockable), s.firings + [f])
  }

  /** Timers fire only when due; nothing happens once the assertion has failed. */
  function Step(c: Config, s: State, i: Input): State {
    if s.idle.aborted then s
    else
      match i.event
      case PointerMoved(pointer) => Perform(c, s, Moved(c.corners, s.tracker, pointer, i.time), i.lockable)
      case LayoutChanged(extents) => Perform(c, s, Relaid(c.corners, s.tracker, extents, i.time), i.lockable)
      case CornerTimer =>
        if Due(s.tracker.deadline, i.time) then Perform(c, s, TimerRan(s.tracker), i.lockable) else s
      case IdleTimer => if Due(s.idle.deadline, i.time) then s.(idle := TimerFired(s.idle, i.lockable)) else s
      case Activity => s.(idle := Reset(s.idle, c.idleDelay, i.time))
      case DesktopUnlocked => s.(idle := Unlocked(s.idle, c.idleDelay, i.time))
      case NewInhibitor(id) => s.(idle := InhibitorAdded(s.idle, id))
      case InhibitorGone(id) => s.(idle := InhibitorDestroyed(s.idle, id, i.lockable))
      case KeyAction(action) => s.(idle := Executed(s.idle, action, i.lockable))
  }

  function Run(c: Config, s: State, inputs: seq<Input>): State {
    if inputs == [] then s
    else Step(c, Run(c, s, inputs[..|inputs| - 1]), inputs[|inputs| - 1])
  }

  /** A state the two components start in. */
  ghost predicate Fresh(c: Config, s: State) {
    exists extents, pointer, now :: s == Start(c, extents, pointer, now)
  }

  // ---------- Enter and leave ----------

  /** Firing `n` is an enter if `n` is even, and else the leave of the corner just entered. */
  predicate InTurn(firings: seq<Firing>, n: nat)
    requires n < |firings|
  {
    if n % 2 == 0 then firings[n].Enter? else firings[n] == Leave(firings[n - 1].corner)
  }

  /** Enter, leave, enter, leave, ...: each leave for the corner entered just before it. */
  ghost predicate Alternates(firings: seq<Firing>) {
    forall n :: 0 <= n < |firings| ==> InTurn(firings, n)
  }

  ghost predicate Sound(c: Config, s: State) {
    && Tracks(c.corners, s.tracker)
    && Alternates(s.firings)
    && (s.tracker.triggered <==> |s.firings| % 2 == 1)
    && (s.tracker.triggered ==> s.tracker.corner == Some(s.firings[|s.firings| - 1].corner))
  }

  lemma AlternatesAppend(firings: seq<Firing>, f: Firing)
    requires Alternates(firings)
    requires if |firings| % 2 == 0 then f.Enter? else f == Leave(firings[|firings| - 1].corner)
    ensures Alternates(firings + [f])
  {
    forall n | 0 <= n < |firings + [f]|
      ensures InTurn(firings + [f], n)
    {
      if n < |firings| {
        assert InTurn(firings, n);
      }
    }
  }

  lemma PerformSound(c: Config, s: State, o: Outcome, lockable: bool)
    requires Sound(c, s) && Tracks(c.corners, o.tracker) && FiresProperly(s.tracker, o)
    ensures Sound(c, Perform(c, s, o, lockable))
  {
    if o.fired.Some? {
      if s.firings != [] {
        assert InTurn(s.firings, |s.firings| - 1);
      }
      AlternatesAppend(s.firings, o.fired.value);
    }
  }

  lemma StepSound(c: Config, s: State, i: Input)
    requires Sound(c, s)
    ensures Sound(c, Step(c, s, i))
  {
    var k, t := c.corners, s.tracker;
    match i.event
    case PointerMoved(pointer) =>
      MovedTracks(k, t, pointer, i.time);
      PerformSound(c, s, Moved(k, t, pointer, i.time), i.lockable);
    case LayoutChanged(extents) =>
      RelaidTracks(k, t, extents, i.time);
      PerformSound(c, s, Relaid(k, t, extents, i.time), i.lockable);
    case CornerTimer =>
      if Due(t.deadline, i.time) {
        TimerTracks(k, t, i.time);
        PerformSound(c, s, TimerRan(t), i.lockable);
      }
    case _ =>
  }

  /** In every run the recorded corner is where the pointer is, and what fires is a strictly
      alternating list of enter and leave pairs, each pair for one corner and so from one slot
      of the configuration. */
  lemma {:induction false} RunSound(c: Config, s: State, inputs: seq<Input>)
    requires Fresh(c, s)
    ensures Sound(c, Run(c, s, inputs))
  {
    if inputs == [] {
      var extents, pointer, now :| s == Start(c, extents, pointer, now);
      StartTracks(c.corners, extents, pointer, now);
    } else {
      RunSound(c, s, inputs[..|inputs| - 1]);
      StepSound(c, Run(c, s, inputs[..|inputs| - 1]), inputs[|inputs| - 1]);
    }
  }

  // ---------- An enter action needs a stay ----------

  /** When state number `m` of a run was reached. */
  function TimeOf(start: nat, inputs: seq<Input>, m: nat): nat
    requires m <= |inputs|
  {
    if m == 0 then start else inputs[m - 1].time
  }

  function TrackerAt(c: Config, s: State, inputs: seq<Input>, m: nat): Tracker
    requires m <= |inputs|
  {
    Run(c, s, inputs[..m]).tracker
  }

  /** The pointer arrived in the corner at state `m`, and from there to the end of the run it
      stayed, without the corner being triggered. */
  ghost predicate StaysFrom(c: Config, s: State, inputs: seq<Input>, m: nat, corner: Corner)
    requires m <= |inputs|
  {
    && (m > 0 ==> TrackerAt(c, s, inputs, m - 1).corner != Some(corner))
    && forall n :: m <= n <= |inputs| ==>
         TrackerAt(c, s, inputs, n).corner == Some(corner) && !TrackerAt(c, s, inputs, n).triggered
  }

  /** An event that leaves the timer armed either left it alone or armed it for a corner just
      entered. */
  lemma ArmedStep(c: Config, s: State, i: Input)
    requires Sound(c, s) && Step(c, s, i).tracker.deadline.Some?
    ensures var t, t' := s.tracker, Step(c, s, i).tracker;
            || (t'.deadline == t.deadline && t'.corner == t.corner)
            || (t'.deadline == Some(i.time + c.corners.delay) && t'.corner != t.corner)
  {
  }

  lemma StayExtends(c: Config, s: State, inputs: seq<Input>, m: nat, corner: Corner)
    requires inputs != [] && m < |inputs|
    requires StaysFrom(c, s, inputs[..|inputs| - 1], m, corner)
    requires Run(c, s, inputs).tracker.corner == Some(corner) && !Run(c, s, inputs).tracker.triggered
    ensures StaysFrom(c, s, inputs, m, corner)
  {
    var before := inputs[..|inputs| - 1];
    assert inputs[..|inputs|] == inputs;
    assert forall n :: 0 <= n <= |before| ==> before[..n] == inputs[..n];
    forall n | m <= n <= |inputs|
      ensures TrackerAt(c, s, inputs, n).corner == Some(corner) && !TrackerAt(c, s, inputs, n).triggered
    {
      if n < |inputs| {
        assert TrackerAt(c, s, inputs, n) == TrackerAt(c, s, before, n);
      }
    }
    if m > 0 {
      assert TrackerAt(c, s, inputs, m - 1) == TrackerAt(c, s, before, m - 1);
    }
  }

  /** An armed timer was set on arrival in the corner the pointer has stayed in since. */
  lemma {:induction false} ArmedOnArrival(c: Config, extents: Box, pointer: Point, start: nat, inputs: seq<Input>)
      returns (m: nat)
    requires Run(c, Start(c, extents, pointer, start), inputs).tracker.deadline.Some?
    ensures m <= |inputs|
    ensures var s := Start(c, extents, pointer, start);
            var t := Run(c, s, inputs).tracker;
            && t.corner.Some? && StaysFrom(c, s, inputs, m, t.corner.value)
            && t.deadline == Some(TimeOf(start, inputs, m) + c.corners.delay)
  {
    var s := Start(c, extents, pointer, start);
    RunSound(c, s, inputs);
    assert inputs[..|inputs|] == inputs;
    var t := Run(c, s, inputs).tracker;
    if inputs == [] {
      return 0;
    }
    var before, i := inputs[..|inputs| - 1], inputs[|inputs| - 1];
    RunSound(c, s, before);
    ArmedStep(c, Run(c, s, before), i);
    if t.corner != Run(c, s, before).tracker.corner {
      return |inputs|;
    }
    m := ArmedOnArrival(c, extents, pointer, start, before);
    StayExtends(c, s, inputs, m, t.corner.value);
  }

  /** An enter action fires only once the pointer has stayed in that corner, without a break,
      for the configured delay; and it fires once per stay. */
  lemma {:induction false} EnterAfterStay(c: Config, extents: Box, pointer: Point, start: nat, inputs: seq<Input>,
                                          i: Input, corner: Corner)
      returns (m: nat)
    requires var s := Run(c, Start(c, extents, pointer, start), inputs);
             Step(c, s, i).firings == s.firings + [Enter(corner)]
    ensures m <= |inputs|
    ensures StaysFrom(c, Start(c, extents, pointer, start), inputs, m, corner)
    ensures i.time >= TimeOf(start, inputs, m) + c.corners.delay
  {
    var s := Run(c, Start(c, extents, pointer, start), inputs);
    assert Step(c, s, i).firings[|s.firings|] == Enter(corner);
    m := ArmedOnArrival(c, extents, pointer, start, inputs);
  }

  // ---------- The inhibit counter ----------

  /** Every enter that begins an inhibit is matched by a leave that ends it, and the other way
      round. */
  predicate Paired(slot: Slot) {
    && (slot.enter == InhibitBegin <==> slot.leave == InhibitEnd)
    && slot.enter != InhibitEnd && slot.leave != InhibitBegin
  }

  /** With a delay of 0 the corners never fire. */
  ghost predicate AllPaired(c: HotCorner.Config) {
    c.delay == 0 || forall corner :: Paired(SlotOf(c, corner))
  }

  /** No key begins or ends inhibits. */
  predicate CornersOnly(inputs: seq<Input>) {
    forall n :: 0 <= n < |inputs| ==> NotByKey(inputs[n].event)
  }

  predicate NotByKey(e: Event) {
    e.KeyAction? ==> e.action != InhibitBegin && e.action != InhibitEnd
  }

  /** One for a triggered corner whose enter action began an inhibit. */
  function HeldByCorner(c: HotCorner.Config, t: Tracker): nat {
    if t.triggered && t.corner.Some? && SlotOf(c, t.corner.value).enter == InhibitBegin then 1 else 0
  }

  /** The counter is what it should be. */
  ghost predicate Balanced(c: Config, s: State) {
    !s.idle.aborted && s.idle.inhibits == |s.idle.inhibitors| + HeldByCorner(c.corners, s.tracker)
  }

  lemma PerformCounts(c: Config, s: State, o: Outcome, lockable: bool)
    requires Sound(c, s) && AllPaired(c.corners) && Balanced(c, s)
    requires Tracks(c.corners, o.tracker) && FiresProperly(s.tracker, o)
    ensures Balanced(c, Perform(c, s, o, lockable))
  {
    assert s.tracker.corner.Some? && c.corners.delay > 0 ==> Paired(SlotOf(c.corners, s.tracker.corner.value));
  }

  /** An event for the idle monitor rather than the corners. */
  predicate ForMonitor(e: Event) {
    !e.PointerMoved? && !e.LayoutChanged? && !e.CornerTimer?
  }

  lemma MonitorCounts(c: Config, s: State, i: Input)
    requires ForMonitor(i.event) && NotByKey(i.event) && !s.idle.aborted
    requires s.idle.inhibits >= |s.idle.inhibitors|
    ensures var a, b := s.idle, Step(c, s, i).idle;
            !b.aborted && b.inhibits - |b.inhibitors| == a.inhibits - |a.inhibitors|
  {
  }

  lemma {:induction false} StepCounts(c: Config, s: State, i: Input)
    requires Sound(c, s) && AllPaired(c.corners) && NotByKey(i.event) && Balanced(c, s)
    ensures Balanced(c, Step(c, s, i))
  {
    var k, t := c.corners, s.tracker;
    match i.event
    case PointerMoved(pointer) =>
      MovedTracks(k, t, pointer, i.time);
      PerformCounts(c, s, Moved(k, t, pointer, i.time), i.lockable);
    case LayoutChanged(extents) =>
      RelaidTracks(k, t, extents, i.time);
      PerformCounts(c, s, Relaid(k, t, extents, i.time), i.lockable);
    case CornerTimer =>
      if Due(t.deadline, i.time) {
        TimerTracks(k, t, i.time);
        PerformCounts(c, s, TimerRan(t), i.lockable);
      }
    case _ => MonitorCounts(c, s, i);
  }

  /** With paired slots the counter is, in every run, the number of live inhibitors plus one for
      a corner that holds an inhibit; the assertion never fails. */
  lemma {:induction false} CountsInhibits(c: Config, s: State, inputs: seq<Input>)
    requires Fresh(c, s) && AllPaired(c.corners) && CornersOnly(inputs)
    ensures Balanced(c, Run(c, s, inputs))
  {
    if inputs == [] {
      RunSound(c, s, []);
    } else {
      var before := inputs[..|inputs| - 1];
      CountsInhibits(c, s, before);
      RunSound(c, s, before);
      StepCounts(c, Run(c, s, before), inputs[|inputs| - 1]);
    }
  }

  // ---------- When the assertion is safe ----------

  /** What the assertion needs of a slot: no enter ends an inhibit, and a leave ends one only
      if its enter began it. */
  predicate SafeSlot(slot: Slot) {
    slot.enter != InhibitEnd && (slot.leave == InhibitEnd ==> slot.enter == InhibitBegin)
  }

  ghost predicate Safe(c: HotCorner.Config) {
    c.delay == 0 || forall corner :: SafeSlot(SlotOf(c, corner))
  }

  ghost predicate Covered(c: HotCorner.Config, s: State) {
    !s.idle.aborted && s.idle.inhibits >= |s.idle.inhibitors| + HeldByCorner(c, s.tracker)
  }

  lemma PerformCovered(c: Config, s: State, o: Outcome, lockable: bool)
    requires Sound(c, s) && Safe(c.corners) && Covered(c.corners, s)
    requires Tracks(c.corners, o.tracker) && FiresProperly(s.tracker, o)
    ensures Covered(c.corners, Perform(c, s, o, lockable))
  {
    assert s.tracker.corner.Some? && c.corners.delay > 0 ==> SafeSlot(SlotOf(c.corners, s.tracker.corner.value));
  }

  lemma {:induction false} StepCovered(c: Config, s: State, i: Input)
    requires Sound(c, s) && Safe(c.corners) && NotByKey(i.event) && Covered(c.corners, s)
    ensures Covered(c.corners, Step(c, s, i))
  {
    var k, t := c.corners, s.tracker;
    match i.event
    case PointerMoved(pointer) =>
      MovedTracks(k, t, pointer, i.time);
      PerformCovered(c, s, Moved(k, t, pointer, i.time), i.lockable);
    case LayoutChanged(extents) =>
      RelaidTracks(k, t, extents, i.time);
      PerformCovered(c, s, Relaid(k, t, extents, i.time), i.lockable);
    case CornerTimer =>
      if Due(t.deadline, i.time) {
        TimerTracks(k, t, i.time);
        PerformCovered(c, s, TimerRan(t), i.lockable);
      }
    case _ => MonitorCounts(c, s, i);
  }

  lemma {:induction false} RunCovered(c: Config, s: State, inputs: seq<Input>)
    requires Fresh(c, s) && Safe(c.corners) && CornersOnly(inputs)
    ensures Covered(c.corners, Run(c, s, inputs))
  {
    if inputs == [] {
      RunSound(c, s, []);
    } else {
      var before := inputs[..|inputs| - 1];
      RunCovered(c, s, before);
      RunSound(c, s, before);
      StepCovered(c, Run(c, s, before), inputs[|inputs| - 1]);
    }
  }

  predicate Inside(b: Box, p: Point) {
    b.x <= p.x < b.x + b.width && b.y <= p.y < b.y + b.height
  }

  /** Extents of the layout after the given events. */
  function ExtentsAfter(extents: Box, inputs: seq<Input>): Box {
    if inputs == [] then extents
    else if inputs[|inputs| - 1].event.LayoutChanged? then inputs[|inputs| - 1].event.extents
    else ExtentsAfter(extents, inputs[..|inputs| - 1])
  }

  ghost predicate Ordered(inputs: seq<Input>) {
    forall n, k :: 0 <= n < k < |inputs| ==> inputs[n].time <= inputs[k].time
  }

  /** The pointer moves only inside the layout that event `n` meets. */
  predicate StaysInside(extents: Box, inputs: seq<Input>, n: nat)
    requires n < |inputs|
  {
    inputs[n].event.PointerMoved? ==> Inside(ExtentsAfter(extents, inputs[..n]), inputs[n].event.pointer)
  }

  /** Events as they can arrive: in order of time, none before the start, and with the pointer
      kept inside the layout. */
  ghost predicate Arrives(extents: Box, start: nat, inputs: seq<Input>) {
    && Ordered(inputs)
    && (forall n :: 0 <= n < |inputs| ==> inputs[n].time >= start)
    && (forall n :: 0 <= n < |inputs| ==> StaysInside(extents, inputs, n))
  }

  const SQUARE := Box(0, 0, 3, 3)
  const CENTRE := Point(1, 1)

  /** Into the corner, wait for the timer, and out again. */
  function Visit(corner: Corner, delay: nat, now: nat): (inputs: seq<Input>)
    ensures |inputs| == 5
  {
    [Input(LayoutChanged(SQUARE), now, false), Input(PointerMoved(CENTRE), now, false),
     Input(PointerMoved(PixelOf(SQUARE, corner)), now, false), Input(CornerTimer, now + delay, false),
     Input(PointerMoved(CENTRE), now + delay, false)]
  }

  lemma {:induction false} VisitArrives(extents: Box, corner: Corner, delay: nat, now: nat)
    ensures Arrives(extents, now, Visit(corner, delay, now))
    ensures CornersOnly(Visit(corner, delay, now))
  {
    var inputs := Visit(corner, delay, now);
    forall n | 0 <= n < |inputs|
      ensures StaysInside(extents, inputs, n)
    {
      if n > 0 {
        ExtentsStay(extents, inputs, n);
      }
    }
  }

  /** Without another layout change the layout stays what it became first. */
  lemma {:induction false} ExtentsStay(extents: Box, inputs: seq<Input>, n: nat)
    requires 1 <= n <= |inputs| && inputs[0].event.LayoutChanged?
    requires forall k :: 1 <= k < n ==> !inputs[k].event.LayoutChanged?
    ensures ExtentsAfter(extents, inputs[..n]) == inputs[0].event.extents
    decreases n
  {
    assert inputs[..n][..n - 1] == inputs[..n - 1];
    if n > 1 {
      ExtentsStay(extents, inputs, n - 1);
    }
  }

  lemma RunOfFive(c: Config, s: State, inputs: seq<Input>)
    requires |inputs| == 5
    ensures Run(c, s, inputs) ==
            Step(c, Step(c, Step(c, Step(c, Step(c, s, inputs[0]), inputs[1]), inputs[2]), inputs[3]), inputs[4])
  {
    assert inputs[..4][..3] == inputs[..3] && inputs[..3][..2] == inputs[..2] && inputs[..2][..1] == inputs[..1];
    assert inputs[..1][..0] == [];
    assert Run(c, s, inputs[..1]) == Step(c, s, inputs[0]);
    assert Run(c, s, inputs[..2]) == Step(c, Run(c, s, inputs[..1]), inputs[1]);
    assert Run(c, s, inputs[..3]) == Step(c, Run(c, s, inputs[..2]), inputs[2]);
    assert Run(c, s, inputs[..4]) == Step(c, Run(c, s, inputs[..3]), inputs[3]);
  }

  /** The state in which the pointer waits in the corner, the timer set. */
  function Waiting(c: Config, s: State, corner: Corner, now: nat): State {
    var inputs := Visit(corner, c.corners.delay, now);
    Step(c, Step(c, Step(c, s, inputs[0]), inputs[1]), inputs[2])
  }

  lemma VisitWaits(c: Config, s: State, corner: Corner, now: nat)
    requires Fresh(c, s) && c.corners.delay > 0
    ensures var w := Waiting(c, s, corner, now);
            && w.tracker == Tracker(SQUARE, PixelOf(SQUARE, corner), Some(corner), false, Some(now + c.corners.delay))
            && w.idle == s.idle
  {
    RunSound(c, s, []);
    var s1 := Step(c, s, Input(LayoutChanged(SQUARE), now, false));
    var s2 := Step(c, s1, Input(PointerMoved(CENTRE), now, false));
    assert s2.tracker == Tracker(SQUARE, CENTRE, None, false, None) && s2.idle == s.idle;
  }

  /** What such a visit does to the counter, from any start and at any time. */
  lemma VisitExecutes(c: Config, s: State, corner: Corner, now: nat)
    requires Fresh(c, s) && c.corners.delay > 0
    ensures var slot := SlotOf(c.corners, corner);
            var entered := Executed(s.idle, slot.enter, false);
            Run(c, s, Visit(corner, c.corners.delay, now)).idle ==
            if entered.aborted then entered else Executed(entered, slot.leave, false)
  {
    var inputs := Visit(corner, c.corners.delay, now);
    RunOfFive(c, s, inputs);
    VisitWaits(c, s, corner, now);
    var entered := Step(c, Waiting(c, s, corner, now), inputs[3]);
    assert entered.tracker.corner == Some(corner) && entered.tracker.triggered;
  }

  /** The assertion in uninhibit can never fail exactly when the configuration is safe: any
      other configuration has a run of events that can arrive, from any start, that fails it. */
  lemma {:induction false} NeverAbortsIff(c: Config, extents: Box, pointer: Point, start: nat)
    ensures (forall inputs :: Arrives(extents, start, inputs) && CornersOnly(inputs) ==>
               !Run(c, Start(c, extents, pointer, start), inputs).idle.aborted)
            <==> Safe(c.corners)
  {
    var s := Start(c, extents, pointer, start);
    if Safe(c.corners) {
      forall inputs | CornersOnly(inputs)
        ensures !Run(c, s, inputs).idle.aborted
      {
        RunCovered(c, s, inputs);
      }
    } else {
      var corner :| !SafeSlot(SlotOf(c.corners, corner));
      var inputs := Visit(corner, c.corners.delay, start);
      VisitArrives(extents, corner, c.corners.delay, start);
      VisitExecutes(c, s, corner, start);
      assert Arrives(extents, start, inputs) && CornersOnly(inputs) && Run(c, s, inputs).idle.aborted;
    }
  }

  /** The counter is live inhibitors plus one for a corner that holds an inhibit, in every run of
      events that can arrive, exactly when all slots are paired. */
  lemma {:induction false} CountsInhibitsIff(c: Config, extents: Box, pointer: Point, start: nat)
    ensures (forall inputs :: Arrives(extents, start, inputs) && CornersOnly(inputs) ==>
               Balanced(c, Run(c, Start(c, extents, pointer, start), inputs)))
            <==> AllPaired(c.corners)
  {
    var s := Start(c, extents, pointer, start);
    if AllPaired(c.corners) {
      forall inputs | CornersOnly(inputs)
        ensures Balanced(c, Run(c, s, inputs))
      {
        CountsInhibits(c, s, inputs);
      }
    } else {
      var corner :| !Paired(SlotOf(c.corners, corner));
      var inputs := Visit(corner, c.corners.delay, start);
      VisitArrives(extents, corner, c.corners.delay, start);
      VisitExecutes(c, s, corner, start);
      VisitLeaves(c, s, corner, start);
      assert Arrives(extents, start, inputs) && CornersOnly(inputs) && !Balanced(c, Run(c, s, inputs));
    }
  }

  /** After a visit no corner holds an inhibit. */
  lemma VisitLeaves(c: Config, s: State, corner: Corner, now: nat)
    requires Fresh(c, s) && c.corners.delay > 0
    ensures var r := Run(c, s, Visit(corner, c.corners.delay, now));
            r.idle.aborted || HeldByCorner(c.corners, r.tracker) == 0
  {
    var inputs := Visit(corner, c.corners.delay, now);
    RunOfFive(c, s, inputs);
    VisitWaits(c, s, corner, now);
    var entered := Step(c, Waiting(c, s, corner, now), inputs[3]);
    assert entered.tracker.corner == Some(corner) && entered.tracker.triggered;
  }

  // ---------- Automatic locking ----------

  /** The event ends an inhibit: of a client, by a key, or through a corner's action. */
  predicate EndsInhibit(c: Config, s: State, i: Input) {
    || (i.event.InhibitorGone? && i.event.id in s.idle.inhibitors)
    || i.event == KeyAction(InhibitEnd)
    || Fires(c, s, Step(c, s, i), InhibitEnd)
  }

  /** The last step fired `action` through a corner. */
  predicate Fires(c: Config, s: State, s': State, action: Action) {
    |s'.firings| > |s.firings| && ActionOf(c.corners, s'.firings[|s'.firings| - 1]) == action
  }

  predicate LocksItself(a: Idle, b: Idle) {
    b.autoLocks == a.autoLocks + 1 && b.locked
  }

  lemma PerformAutoLocks(c: Config, s: State, o: Outcome, lockable: bool)
    requires !s.idle.aborted
    ensures var s' := Perform(c, s, o, lockable);
            if lockable && s'.idle.expired && s'.idle.inhibits == 0
               && Fires(c, s, s', InhibitEnd) && s.idle.inhibits > 0
            then LocksItself(s.idle, s'.idle)
            else s'.idle.autoLocks == s.idle.autoLocks
  {
  }

  /** The monitor locks by itself at an event exactly when the lock command can be started, the
      idle timer has expired and nothing inhibits any more, and the event is the timer or the
      end of an inhibit. */
  lemma AutoLocksIff(c: Config, s: State, i: Input)
    requires !s.idle.aborted
    ensures var s' := Step(c, s, i);
            var locks := && i.lockable && s'.idle.expired && s'.idle.inhibits == 0
                         && (if i.event.IdleTimer? then Due(s.idle.deadline, i.time)
                             else EndsInhibit(c, s, i) && s.idle.inhibits > 0);
            if locks then LocksItself(s.idle, s'.idle) else s'.idle.autoLocks == s.idle.autoLocks
  {
    match i.event
    case PointerMoved(pointer) => PerformAutoLocks(c, s, Moved(c.corners, s.tracker, pointer, i.time), i.lockable);
    case LayoutChanged(extents) => PerformAutoLocks(c, s, Relaid(c.corners, s.tracker, extents, i.time), i.lockable);
    case CornerTimer =>
      if Due(s.tracker.deadline, i.time) {
        PerformAutoLocks(c, s, TimerRan(s.tracker), i.lockable);
      }
    case _ =>
  }

  /** While a client's inhibitor lives, or a corner holds an inhibit, the monitor never locks by
      itself. */
  lemma {:induction false} NoAutoLockWhileInhibited(c: Config, s: State, inputs: seq<Input>, i: Input)
    requires Fresh(c, s) && AllPaired(c.corners) && CornersOnly(inputs + [i])
    requires var r := Run(c, s, inputs + [i]); r.idle.inhibitors != [] || HeldByCorner(c.corners, r.tracker) == 1
    ensures Run(c, s, inputs + [i]).idle.autoLocks == Run(c, s, inputs).idle.autoLocks
  {
    assert (inputs + [i])[..|inputs|] == inputs;
    assert forall n :: 0 <= n < |inputs| ==> inputs[n] == (inputs + [i])[n];
    CountsInhibits(c, s, inputs + [i]);
    CountsInhibits(c, s, inputs);
    AutoLocksIff(c, Run(c, s, inputs), i);
  }

  /** The event restarts the idle timer: user activity on an unlocked monitor, or an unlock. */
  predicate Restarts(s: State, i: Input) {
    !s.idle.aborted && ((i.event.Activity? && !s.idle.locked) || (i.event.DesktopUnlocked? && s.idle.locked))
  }

  /** No event from state `m` on restarts the idle timer. */
  ghost predicate IdleFrom(c: Config, s: State, inputs: seq<Input>, m: nat)
    requires m <= |inputs|
  {
    forall n :: m <= n < |inputs| ==> !Restarts(Run(c, s, inputs[..n]), inputs[n])
  }

  /** State `m` was reached by the last event to restart the idle timer, or is the start. */
  ghost predicate LastRestart(c: Config, s: State, inputs: seq<Input>, m: nat) {
    && m <= |inputs|
    && IdleFrom(c, s, inputs, m)
    && (m > 0 ==> Restarts(Run(c, s, inputs[..m - 1]), inputs[m - 1]))
  }

  lemma IdleExtends(c: Config, s: State, inputs: seq<Input>, m: nat)
    requires inputs != [] && m < |inputs|
    requires IdleFrom(c, s, inputs[..|inputs| - 1], m)
    requires !Restarts(Run(c, s, inputs[..|inputs| - 1]), inputs[|inputs| - 1])
    ensures IdleFrom(c, s, inputs, m)
  {
    var before := inputs[..|inputs| - 1];
    forall n | m <= n < |inputs|
      ensures !Restarts(Run(c, s, inputs[..n]), inputs[n])
    {
      if n < |before| {
        assert before[..n] == inputs[..n] && before[n] == inputs[n];
      }
    }
  }

  predicate SameTimer(a: Idle, b: Idle) {
    b.deadline == a.deadline && b.expired == a.expired
  }

  lemma PerformKeepsTimer(c: Config, s: State, o: Outcome, lockable: bool)
    ensures SameTimer(s.idle, Perform(c, s, o, lockable).idle)
  {
  }

  /** What an event that does not restart the timer does to its deadline and expiry. */
  lemma QuietStep(c: Config, s: State, i: Input)
    requires !Restarts(s, i)
    ensures var a, b := s.idle, Step(c, s, i).idle;
            || SameTimer(a, b)
            || (i.event.IdleTimer? && b.deadline == None && b.expired && Due(a.deadline, i.time))
  {
    match i.event
    case PointerMoved(pointer) => PerformKeepsTimer(c, s, Moved(c.corners, s.tracker, pointer, i.time), i.lockable);
    case LayoutChanged(extents) => PerformKeepsTimer(c, s, Relaid(c.corners, s.tracker, extents, i.time), i.lockable);
    case CornerTimer => PerformKeepsTimer(c, s, TimerRan(s.tracker), i.lockable);
    case _ =>
  }

  /** Behind an armed timer is the restart that armed it; behind an expired one also a full
      idle delay. */
  lemma {:induction false} TimerHistory(c: Config, extents: Box, pointer: Point, start: nat, inputs: seq<Input>)
      returns (m: nat)
    requires Ordered(inputs)
    ensures LastRestart(c, Start(c, extents, pointer, start), inputs, m)
    ensures var r := Run(c, Start(c, extents, pointer, start), inputs).idle;
            && (r.deadline.Some? ==> r.deadline.value == TimeOf(start, inputs, m) + c.idleDelay)
            && (r.expired ==> inputs != [] && inputs[|inputs| - 1].time >= TimeOf(start, inputs, m) + c.idleDelay)
  {
    var s := Start(c, extents, pointer, start);
    if inputs == [] {
      return 0;
    }
    var before, i := inputs[..|inputs| - 1], inputs[|inputs| - 1];
    var r := Run(c, s, before);
    if Restarts(r, i) {
      return |inputs|;
    }
    m := TimerHistory(c, extents, pointer, start, before);
    QuietStep(c, r, i);
    IdleExtends(c, s, inputs, m);
    assert m > 0 ==> before[..m - 1] == inputs[..m - 1];
  }

  /** A lock leaves the timer expired, and is no restart. */
  lemma AutoLockNeedsExpiry(c: Config, s: State, i: Input)
    requires Step(c, s, i).idle.autoLocks != s.idle.autoLocks
    ensures Step(c, s, i).idle.expired && !Restarts(s, i)
  {
    AutoLocksIff(c, s, i);
  }

  /** The monitor locks by itself only after the full idle delay without user activity. */
  lemma {:induction false} AutoLockAfterIdling(c: Config, extents: Box, pointer: Point, start: nat, inputs: seq<Input>)
      returns (m: nat)
    requires Ordered(inputs) && inputs != []
    requires var s := Start(c, extents, pointer, start);
             Run(c, s, inputs).idle.autoLocks != Run(c, s, inputs[..|inputs| - 1]).idle.autoLocks
    ensures m < |inputs| && IdleFrom(c, Start(c, extents, pointer, start), inputs, m)
    ensures inputs[|inputs| - 1].time >= TimeOf(start, inputs, m) + c.idleDelay
  {
    var s := Start(c, extents, pointer, start);
    var before, i := inputs[..|inputs| - 1], inputs[|inputs| - 1];
    var r := Run(c, s, before);
    AutoLockNeedsExpiry(c, r, i);
    m := TimerHistory(c, extents, pointer, start, before);
    QuietStep(c, r, i);
    IdleExtends(c, s, inputs, m);
  }
}
