/** The hot corner and the idle monitor read off their events: when the idle timer is armed and
    when it locks, which inhibitors live, what the counter counts, and when a corner acts.  */
module IdleRuns {
  import opened HotCorner
  import opened IdleMonitor
  import opened InhibitSession
  import opened Options

  type Settings = InhibitSession.Config

  // ---------- Once the assertion has failed ----------

  lemma {:induction false} AbortStays(c: Settings, s: State, inputs: seq<Input>, n: nat)
    requires n <= |inputs| && Run(c, s, inputs[..n]).idle.aborted
    ensures Run(c, s, inputs) == Run(c, s, inputs[..n])
    decreases |inputs|
  {
    if n < |inputs| {
      var before := inputs[..|inputs| - 1];
      assert before[..n] == inputs[..n];
      AbortStays(c, s, before, n);
    } else {
      assert inputs[..n] == inputs;
    }
  }

  lemma {:induction false} NotAbortedBefore(c: Settings, s: State, inputs: seq<Input>, n: nat)
    requires n <= |inputs| && !Run(c, s, inputs).idle.aborted
    ensures !Run(c, s, inputs[..n]).idle.aborted
  {
    if Run(c, s, inputs[..n]).idle.aborted {
      AbortStays(c, s, inputs, n);
    }
  }

  /** It fails at exactly the events that end an inhibit when none is counted. */
  lemma AbortsIff(c: Settings, s: State, i: Input)
    requires !s.idle.aborted
    ensures Step(c, s, i).idle.aborted <==> EndsInhibit(c, s, i) && s.idle.inhibits == 0
  {
    match i.event
    case PointerMoved(pointer) => PerformAborts(c, s, Moved(c.corners, s.tracker, pointer, i.time), i.lockable);
    case LayoutChanged(extents) => PerformAborts(c, s, Relaid(c.corners, s.tracker, extents, i.time), i.lockable);
    case CornerTimer =>
      if Due(s.tracker.deadline, i.time) {
        PerformAborts(c, s, TimerRan(s.tracker), i.lockable);
      }
    case _ =>
  }

  lemma PerformAborts(c: Settings, s: State, o: Outcome, lockable: bool)
    requires !s.idle.aborted
    ensures var s' := Perform(c, s, o, lockable);
            s'.idle.aborted <==> Fires(c, s, s', InhibitEnd) && s.idle.inhibits == 0
  {
  }

  // ---------- The idle timer ----------

  /** With a delay the timer is armed whenever it has not expired; without one, neither. */
  lemma {:induction false} ArmedUnlessExpired(c: Settings, extents: Box, pointer: Point, start: nat, inputs: seq<Input>)
    ensures var r := Run(c, Start(c, extents, pointer, start), inputs).idle;
            if c.idleDelay > 0 then r.deadline.Some? <==> !r.expired else r.deadline.None? && !r.expired
  {
    var s := Start(c, extents, pointer, start);
    if inputs != [] {
      var before, i := inputs[..|inputs| - 1], inputs[|inputs| - 1];
      ArmedUnlessExpired(c, extents, pointer, start, before);
      if Restarts(Run(c, s, before), i) {
        RestartArms(c, Run(c, s, before), i);
      } else {
        QuietStep(c, Run(c, s, before), i);
      }
    }
  }

  lemma RestartArms(c: Settings, s: State, i: Input)
    requires Restarts(s, i)
    ensures var r := Step(c, s, i).idle;
            r.deadline == (if c.idleDelay == 0 then None else Some(i.time + c.idleDelay)) && !r.expired
  {
  }

  /** Event `n` finds the timer, last restarted at state `m`, due. */
  ghost predicate Elapsed(c: Settings, s: State, start: nat, inputs: seq<Input>, m: nat, n: nat)
    requires m <= |inputs| && n < |inputs|
  {
    && inputs[n].event.IdleTimer?
    && !Run(c, s, inputs[..n]).idle.aborted
    && inputs[n].time >= TimeOf(start, inputs, m) + c.idleDelay
  }

  /** The timer has run out since its last restart, at state `m`. */
  ghost predicate RanOut(c: Settings, s: State, start: nat, inputs: seq<Input>, m: nat)
    requires m <= |inputs|
  {
    c.idleDelay > 0 && exists n :: m <= n < |inputs| && Elapsed(c, s, start, inputs, m, n)
  }

  /** What the timer must be, given its last restart at state `m`. */
  ghost predicate TimerIs(c: Settings, s: State, start: nat, inputs: seq<Input>, m: nat)
    requires m <= |inputs|
  {
    var r, ranOut := Run(c, s, inputs).idle, RanOut(c, s, start, inputs, m);
    && r.expired == ranOut
    && r.deadline == if c.idleDelay == 0 || ranOut then None else Some(TimeOf(start, inputs, m) + c.idleDelay)
  }

  lemma ElapsedBefore(c: Settings, s: State, start: nat, inputs: seq<Input>, m: nat)
    requires inputs != [] && m < |inputs|
    ensures RanOut(c, s, start, inputs, m) <==>
            || RanOut(c, s, start, inputs[..|inputs| - 1], m)
            || (c.idleDelay > 0 && Elapsed(c, s, start, inputs, m, |inputs| - 1))
  {
    var before := inputs[..|inputs| - 1];
    assert TimeOf(start, before, m) == TimeOf(start, inputs, m);
    forall n | m <= n < |before|
      ensures Elapsed(c, s, start, before, m, n) <==> Elapsed(c, s, start, inputs, m, n)
    {
      assert before[..n] == inputs[..n];
    }
  }

  /** One event that is no restart. */
  lemma TimerStep(c: Settings, s: State, i: Input, restarted: nat, ranOut: bool)
    requires !Restarts(s, i)
    requires s.idle.expired == ranOut
    requires s.idle.deadline == if c.idleDelay == 0 || ranOut then None else Some(restarted + c.idleDelay)
    requires c.idleDelay == 0 ==> !ranOut
    ensures var r := Step(c, s, i).idle;
            var out := ranOut || (c.idleDelay > 0 && i.event.IdleTimer? && !s.idle.aborted
                                  && i.time >= restarted + c.idleDelay);
            && r.expired == out
            && r.deadline == if c.idleDelay == 0 || out then None else Some(restarted + c.idleDelay)
  {
    QuietStep(c, s, i);
  }

  /** Every run: the timer is set to the idle delay after its last restart, and has expired
      exactly when it ran out since. */
  lemma {:induction false} TimerFollows(c: Settings, extents: Box, pointer: Point, start: nat, inputs: seq<Input>)
      returns (m: nat)
    ensures LastRestart(c, Start(c, extents, pointer, start), inputs, m)
    ensures TimerIs(c, Start(c, extents, pointer, start), start, inputs, m)
  {
    var s := Start(c, extents, pointer, start);
    if inputs == [] {
      return 0;
    }
    var before, i := inputs[..|inputs| - 1], inputs[|inputs| - 1];
    if Restarts(Run(c, s, before), i) {
      RestartArms(c, Run(c, s, before), i);
      return |inputs|;
    }
    m := TimerFollows(c, extents, pointer, start, before);
    IdleExtends(c, s, inputs, m);
    assert m > 0 ==> before[..m - 1] == inputs[..m - 1];
    assert TimeOf(start, before, m) == TimeOf(start, inputs, m);
    TimerStep(c, Run(c, s, before), i, TimeOf(start, inputs, m), RanOut(c, s, start, before, m));
    ElapsedBefore(c, s, start, inputs, m);
  }

  lemma LastRestartOnce(c: Settings, s: State, inputs: seq<Input>, m: nat, n: nat)
    requires LastRestart(c, s, inputs, m) && LastRestart(c, s, inputs, n)
    ensures m == n
  {
  }

  /** An idle-timer event makes the monitor lock exactly when it is the first since the last
      restart to find the idle delay elapsed, nothing inhibits, and the lock command starts. */
  lemma {:induction false} TimerLocksIff(c: Settings, extents: Box, pointer: Point, start: nat, inputs: seq<Input>,
                                         m: nat, i: Input)
    requires i.event.IdleTimer? && LastRestart(c, Start(c, extents, pointer, start), inputs, m)
    requires !Run(c, Start(c, extents, pointer, start), inputs).idle.aborted
    ensures var s := Start(c, extents, pointer, start);
            var r := Run(c, s, inputs);
            var locks := && c.idleDelay > 0 && i.time >= TimeOf(start, inputs, m) + c.idleDelay
                         && !RanOut(c, s, start, inputs, m)
                         && r.idle.inhibits == 0 && i.lockable;
            if locks then LocksItself(r.idle, Step(c, r, i).idle) else Step(c, r, i).idle.autoLocks == r.idle.autoLocks
  {
    var s := Start(c, extents, pointer, start);
    var n := TimerFollows(c, extents, pointer, start, inputs);
    LastRestartOnce(c, s, inputs, m, n);
    FirstElapsed(c, Run(c, s, inputs), i, TimeOf(start, inputs, m), RanOut(c, s, start, inputs, m));
  }

  lemma FirstElapsed(c: Settings, s: State, i: Input, restarted: nat, ranOut: bool)
    requires i.event.IdleTimer? && !s.idle.aborted
    requires s.idle.deadline == if c.idleDelay == 0 || ranOut then None else Some(restarted + c.idleDelay)
    ensures var locks := && c.idleDelay > 0 && i.time >= restarted + c.idleDelay && !ranOut
                         && s.idle.inhibits == 0 && i.lockable;
            if locks then LocksItself(s.idle, Step(c, s, i).idle) else Step(c, s, i).idle.autoLocks == s.idle.autoLocks
  {
    AutoLocksIff(c, s, i);
  }

  /** Any other event makes it lock exactly when it ends the last inhibit after the timer has
      run out, and the lock command starts. */
  lemma {:induction false} EndOfInhibitLocksIff(c: Settings, extents: Box, pointer: Point, start: nat,
                                                inputs: seq<Input>, m: nat, i: Input)
    requires !i.event.IdleTimer? && LastRestart(c, Start(c, extents, pointer, start), inputs, m)
    requires !Run(c, Start(c, extents, pointer, start), inputs).idle.aborted
    ensures var s := Start(c, extents, pointer, start);
            var r := Run(c, s, inputs);
            var locks := EndsInhibit(c, r, i) && r.idle.inhibits == 1 && RanOut(c, s, start, inputs, m) && i.lockable;
            if locks then LocksItself(r.idle, Step(c, r, i).idle) else Step(c, r, i).idle.autoLocks == r.idle.autoLocks
  {
    var s := Start(c, extents, pointer, start);
    var n := TimerFollows(c, extents, pointer, start, inputs);
    LastRestartOnce(c, s, inputs, m, n);
    LastInhibitEnds(c, Run(c, s, inputs), i);
  }

  lemma LastInhibitEnds(c: Settings, s: State, i: Input)
    requires !i.event.IdleTimer? && !s.idle.aborted
    ensures var locks := EndsInhibit(c, s, i) && s.idle.inhibits == 1 && s.idle.expired && i.lockable;
            if locks then LocksItself(s.idle, Step(c, s, i).idle) else Step(c, s, i).idle.autoLocks == s.idle.autoLocks
  {
    AutoLocksIff(c, s, i);
    if EndsInhibit(c, s, i) && s.idle.inhibits > 0 {
      EndTakesOne(c, s, i);
    }
  }

  /** Ending an inhibit takes one off the counter, and leaves the timer alone. */
  lemma EndTakesOne(c: Settings, s: State, i: Input)
    requires EndsInhibit(c, s, i) && s.idle.inhibits > 0 && !s.idle.aborted && !i.event.IdleTimer?
    ensures Step(c, s, i).idle.inhibits == s.idle.inhibits - 1
    ensures Step(c, s, i).idle.expired == s.idle.expired
  {
  }

  // ---------- Locked and unlocked ----------

  lemma LockedStep(c: Settings, s: State, i: Input)
    ensures var r := Step(c, s, i).idle;
            r.locked <==> || r.autoLocks != s.idle.autoLocks
                          || (s.idle.locked && (s.idle.aborted || !i.event.DesktopUnlocked?))
  {
    if !s.idle.aborted {
      AutoLocksIff(c, s, i);
      if Step(c, s, i).idle.autoLocks == s.idle.autoLocks {
        LockedKept(c, s, i);
      }
    }
  }

  lemma PerformKeeps(c: Settings, s: State, o: Outcome, lockable: bool)
    ensures var r := Perform(c, s, o, lockable).idle;
            && r.inhibitors == s.idle.inhibitors
            && (r.autoLocks == s.idle.autoLocks ==> r.locked == s.idle.locked)
  {
  }

  /** What only the monitor's own events change. */
  lemma CornersKeep(c: Settings, s: State, i: Input)
    requires !ForMonitor(i.event)
    ensures var r := Step(c, s, i).idle;
            && r.inhibitors == s.idle.inhibitors
            && (r.autoLocks == s.idle.autoLocks ==> r.locked == s.idle.locked)
  {
    match i.event
    case PointerMoved(pointer) => PerformKeeps(c, s, Moved(c.corners, s.tracker, pointer, i.time), i.lockable);
    case LayoutChanged(extents) => PerformKeeps(c, s, Relaid(c.corners, s.tracker, extents, i.time), i.lockable);
    case CornerTimer => PerformKeeps(c, s, TimerRan(s.tracker), i.lockable);
  }

  lemma LockedKept(c: Settings, s: State, i: Input)
    requires !s.idle.aborted && Step(c, s, i).idle.autoLocks == s.idle.autoLocks
    ensures Step(c, s, i).idle.locked == (s.idle.locked && !i.event.DesktopUnlocked?)
  {
    if !ForMonitor(i.event) {
      CornersKeep(c, s, i);
    }
  }

  /** Event `n` made the monitor lock, and no unlock has arrived since. */
  ghost predicate LockedAt(c: Settings, s: State, inputs: seq<Input>, n: nat) {
    && n < |inputs|
    && Run(c, s, inputs[..n + 1]).idle.autoLocks != Run(c, s, inputs[..n]).idle.autoLocks
    && forall k :: n < k < |inputs| ==> !inputs[k].event.DesktopUnlocked?
  }

  lemma LockedAtBefore(c: Settings, s: State, inputs: seq<Input>, n: nat)
    requires n < |inputs| - 1
    ensures LockedAt(c, s, inputs, n) <==>
            LockedAt(c, s, inputs[..|inputs| - 1], n) && !inputs[|inputs| - 1].event.DesktopUnlocked?
  {
    var before := inputs[..|inputs| - 1];
    assert before[..n + 1] == inputs[..n + 1] && before[..n] == inputs[..n];
    assert forall k :: 0 <= k < |before| ==> before[k] == inputs[k];
    assert LockedAt(c, s, inputs, n) ==> !inputs[|inputs| - 1].event.DesktopUnlocked?;
  }

  /** The monitor counts itself locked exactly while it has locked and no unlock has come since. */
  lemma {:induction false} LockedIff(c: Settings, extents: Box, pointer: Point, start: nat, inputs: seq<Input>)
    requires !Run(c, Start(c, extents, pointer, start), inputs).idle.aborted
    ensures var s := Start(c, extents, pointer, start);
            Run(c, s, inputs).idle.locked <==> exists n: nat :: LockedAt(c, s, inputs, n)
  {
    var s := Start(c, extents, pointer, start);
    if inputs != [] {
      var last := |inputs| - 1;
      var before := inputs[..last];
      NotAbortedBefore(c, s, inputs, last);
      LockedIff(c, extents, pointer, start, before);
      LockedStep(c, Run(c, s, before), inputs[last]);
      assert inputs[..last + 1] == inputs;
      if Run(c, s, inputs).idle.locked {
        if Run(c, s, inputs).idle.autoLocks != Run(c, s, before).idle.autoLocks {
          assert LockedAt(c, s, inputs, last);
        } else {
          var n: nat :| LockedAt(c, s, before, n);
          LockedAtBefore(c, s, inputs, n);
        }
      } else if n: nat :| LockedAt(c, s, inputs, n) {
        if n < last {
          LockedAtBefore(c, s, inputs, n);
        }
      }
    }
  }

  // ---------- The inhibitors ----------

  /** The inhibitor was made by event `n` and has not gone since. */
  ghost predicate LivesSince(inputs: seq<Input>, n: nat, id: nat) {
    && n < |inputs|
    && inputs[n].event == NewInhibitor(id)
    && forall k :: n < k < |inputs| ==> inputs[k].event != InhibitorGone(id)
  }

  ghost predicate NoneTwice(ids: seq<nat>) {
    forall i, j :: 0 <= i < j < |ids| ==> ids[i] != ids[j]
  }

  lemma {:induction false} WithoutIs(ids: seq<nat>, id: nat)
    requires NoneTwice(ids) && id in ids
    ensures NoneTwice(Without(ids, id))
    ensures forall x :: x in Without(ids, id) <==> x in ids && x != id
  {
    var k, r := Find(ids, id), Without(ids, id);
    assert forall j :: 0 <= j < |r| ==> r[j] == ids[if j < k then j else j + 1];
    forall x | x in ids && x != id
      ensures x in r
    {
      var j :| 0 <= j < |ids| && ids[j] == x;
      assert r[if j < k then j else j - 1] == x;
    }
  }

  /** What an event makes of the list. */
  function Listed(ids: seq<nat>, e: Event): seq<nat> {
    match e
    case NewInhibitor(id) => if id in ids then ids else ids + [id]
    case InhibitorGone(id) => if id in ids then Without(ids, id) else ids
    case _ => ids
  }

  lemma InhibitorsStep(c: Settings, s: State, i: Input)
    requires !s.idle.aborted
    ensures Step(c, s, i).idle.inhibitors == Listed(s.idle.inhibitors, i.event)
  {
    if !ForMonitor(i.event) {
      CornersKeep(c, s, i);
    }
  }

  lemma ListedIs(ids: seq<nat>, e: Event)
    requires NoneTwice(ids)
    ensures NoneTwice(Listed(ids, e))
    ensures forall id :: id in Listed(ids, e) <==> (id in ids && e != InhibitorGone(id)) || e == NewInhibitor(id)
  {
    if e.InhibitorGone? && e.id in ids {
      WithoutIs(ids, e.id);
    }
  }

  lemma LivesBefore(inputs: seq<Input>, n: nat, id: nat)
    requires n < |inputs| - 1
    ensures LivesSince(inputs, n, id) <==>
            LivesSince(inputs[..|inputs| - 1], n, id) && inputs[|inputs| - 1].event != InhibitorGone(id)
  {
    var before := inputs[..|inputs| - 1];
    assert forall k :: 0 <= k < |before| ==> before[k] == inputs[k];
    assert LivesSince(inputs, n, id) ==> inputs[|inputs| - 1].event != InhibitorGone(id);
  }

  /** The list holds, each once, the inhibitors made and not gone since. */
  lemma {:induction false} InhibitorsIff(c: Settings, extents: Box, pointer: Point, start: nat, inputs: seq<Input>)
    requires !Run(c, Start(c, extents, pointer, start), inputs).idle.aborted
    ensures var ids := Run(c, Start(c, extents, pointer, start), inputs).idle.inhibitors;
            && NoneTwice(ids)
            && forall id :: id in ids <==> exists n: nat :: LivesSince(inputs, n, id)
  {
    var s := Start(c, extents, pointer, start);
    if inputs != [] {
      var last := |inputs| - 1;
      var before := inputs[..last];
      NotAbortedBefore(c, s, inputs, last);
      InhibitorsIff(c, extents, pointer, start, before);
      InhibitorsStep(c, Run(c, s, before), inputs[last]);
      ListedIs(Run(c, s, before).idle.inhibitors, inputs[last].event);
      forall id: nat
        ensures (exists n: nat :: LivesSince(inputs, n, id)) <==>
                || inputs[last].event == NewInhibitor(id)
                || ((exists n: nat :: LivesSince(before, n, id)) && inputs[last].event != InhibitorGone(id))
      {
        LivesStep(inputs, id);
      }
    }
  }

  lemma {:induction false} LivesStep(inputs: seq<Input>, id: nat)
    requires inputs != []
    ensures var last := |inputs| - 1;
            (exists n: nat :: LivesSince(inputs, n, id)) <==>
            || inputs[last].event == NewInhibitor(id)
            || ((exists n: nat :: LivesSince(inputs[..last], n, id)) && inputs[last].event != InhibitorGone(id))
  {
    var last := |inputs| - 1;
    if n: nat :| LivesSince(inputs, n, id) {
      if n < last {
        LivesBefore(inputs, n, id);
      }
    }
    if inputs[last].event == NewInhibitor(id) {
      assert LivesSince(inputs, last, id);
    } else if n: nat :| LivesSince(inputs[..last], n, id) {
      LivesBefore(inputs, n, id);
    }
  }

  // ---------- The counter, keys included ----------

  /** How often a key has executed an action. */
  function ByKey(inputs: seq<Input>, action: Action): nat {
    if inputs == [] then 0
    else ByKey(inputs[..|inputs| - 1], action) + if inputs[|inputs| - 1].event == KeyAction(action) then 1 else 0
  }

  /** What the counter has beyond live inhibitors and a corner that holds one. */
  function Surplus(c: Settings, s: State): int {
    s.idle.inhibits - |s.idle.inhibitors| - HeldByCorner(c.corners, s.tracker)
  }

  lemma PerformSurplus(c: Settings, s: State, o: Outcome, lockable: bool)
    requires Sound(c, s) && AllPaired(c.corners) && !Perform(c, s, o, lockable).idle.aborted
    requires Tracks(c.corners, o.tracker) && FiresProperly(s.tracker, o)
    ensures Surplus(c, Perform(c, s, o, lockable)) == Surplus(c, s)
  {
    assert s.tracker.corner.Some? && c.corners.delay > 0 ==> Paired(SlotOf(c.corners, s.tracker.corner.value));
  }

  lemma {:induction false} SurplusStep(c: Settings, s: State, i: Input)
    requires Sound(c, s) && AllPaired(c.corners) && !Step(c, s, i).idle.aborted
    ensures Surplus(c, Step(c, s, i)) ==
            Surplus(c, s) + ByKey([i], InhibitBegin) - ByKey([i], InhibitEnd)
  {
    var k, t := c.corners, s.tracker;
    assert [i][..0] == [];
    match i.event
    case PointerMoved(pointer) =>
      MovedTracks(k, t, pointer, i.time);
      PerformSurplus(c, s, Moved(k, t, pointer, i.time), i.lockable);
    case LayoutChanged(extents) =>
      RelaidTracks(k, t, extents, i.time);
      PerformSurplus(c, s, Relaid(k, t, extents, i.time), i.lockable);
    case CornerTimer =>
      if Due(t.deadline, i.time) {
        TimerTracks(k, t, i.time);
        PerformSurplus(c, s, TimerRan(t), i.lockable);
      }
    case _ => MonitorSurplus(s.idle, Step(c, s, i).idle, c, s, i);
  }

  lemma MonitorSurplus(a: Idle, b: Idle, c: Settings, s: State, i: Input)
    requires ForMonitor(i.event) && a == s.idle && b == Step(c, s, i).idle && !b.aborted
    ensures b.inhibits - |b.inhibitors| - (a.inhibits - |a.inhibitors|) ==
            (if i.event == KeyAction(InhibitBegin) then 1 else 0) - (if i.event == KeyAction(InhibitEnd) then 1 else 0)
    ensures Step(c, s, i).tracker == s.tracker
  {
  }

  /** Until the assertion fails, the counter is the live inhibitors, plus one for a corner that
      holds an inhibit, plus the inhibits begun by keys, less those ended by keys. */
  lemma {:induction false} CounterIs(c: Settings, extents: Box, pointer: Point, start: nat, inputs: seq<Input>)
    requires AllPaired(c.corners) && !Run(c, Start(c, extents, pointer, start), inputs).idle.aborted
    ensures Surplus(c, Run(c, Start(c, extents, pointer, start), inputs)) ==
            ByKey(inputs, InhibitBegin) - ByKey(inputs, InhibitEnd)
  {
    var s := Start(c, extents, pointer, start);
    if inputs == [] {
      RunSound(c, s, []);
    } else {
      var last := |inputs| - 1;
      var before := inputs[..last];
      NotAbortedBefore(c, s, inputs, last);
      CounterIs(c, extents, pointer, start, before);
      RunSound(c, s, before);
      SurplusStep(c, Run(c, s, before), inputs[last]);
      assert [inputs[last]][..0] == [];
    }
  }

  /** How often the corners have executed an action. */
  function ByCorner(c: HotCorner.Config, firings: seq<Firing>, action: Action): nat {
    if firings == [] then 0
    else ByCorner(c, firings[..|firings| - 1], action) + if ActionOf(c, firings[|firings| - 1]) == action then 1 else 0
  }

  lemma ByCornerAppend(c: HotCorner.Config, firings: seq<Firing>, f: Firing, action: Action)
    ensures ByCorner(c, firings + [f], action) ==
            ByCorner(c, firings, action) + if ActionOf(c, f) == action then 1 else 0
  {
    assert (firings + [f])[..|firings|] == firings;
  }

  /** Inhibits begun less those ended by the corners' actions. */
  function Net(c: HotCorner.Config, firings: seq<Firing>): int {
    ByCorner(c, firings, InhibitBegin) - ByCorner(c, firings, InhibitEnd)
  }

  lemma PerformNet(c: Settings, s: State, o: Outcome, lockable: bool)
    requires !s.idle.aborted && !Perform(c, s, o, lockable).idle.aborted
    ensures var s' := Perform(c, s, o, lockable);
            && s'.idle.inhibits - Net(c.corners, s'.firings) == s.idle.inhibits - Net(c.corners, s.firings)
            && s'.idle.inhibitors == s.idle.inhibitors
  {
    if o.fired.Some? {
      ByCornerAppend(c.corners, s.firings, o.fired.value, InhibitBegin);
      ByCornerAppend(c.corners, s.firings, o.fired.value, InhibitEnd);
    }
  }

  lemma {:induction false} NetStep(c: Settings, s: State, i: Input)
    requires !s.idle.aborted && !Step(c, s, i).idle.aborted
    ensures var s' := Step(c, s, i);
            s'.idle.inhibits - |s'.idle.inhibitors| - Net(c.corners, s'.firings) ==
            s.idle.inhibits - |s.idle.inhibitors| - Net(c.corners, s.firings) +
            ByKey([i], InhibitBegin) - ByKey([i], InhibitEnd)
  {
    assert [i][..0] == [];
    match i.event
    case PointerMoved(pointer) => PerformNet(c, s, Moved(c.corners, s.tracker, pointer, i.time), i.lockable);
    case LayoutChanged(extents) => PerformNet(c, s, Relaid(c.corners, s.tracker, extents, i.time), i.lockable);
    case CornerTimer =>
      if Due(s.tracker.deadline, i.time) {
        PerformNet(c, s, TimerRan(s.tracker), i.lockable);
      }
    case _ =>
      MonitorSurplus(s.idle, Step(c, s, i).idle, c, s, i);
      assert Step(c, s, i).firings == s.firings;
  }

  /** In any configuration: live inhibitors, plus all inhibits begun by corners and keys, less
      all they ended. */
  lemma {:induction false} CounterBalances(c: Settings, extents: Box, pointer: Point, start: nat, inputs: seq<Input>)
    requires !Run(c, Start(c, extents, pointer, start), inputs).idle.aborted
    ensures var s := Run(c, Start(c, extents, pointer, start), inputs);
            s.idle.inhibits == |s.idle.inhibitors| + Net(c.corners, s.firings) +
                               ByKey(inputs, InhibitBegin) - ByKey(inputs, InhibitEnd)
  {
    var s := Start(c, extents, pointer, start);
    if inputs != [] {
      var last := |inputs| - 1;
      var before := inputs[..last];
      NotAbortedBefore(c, s, inputs, last);
      CounterBalances(c, extents, pointer, start, before);
      NetStep(c, Run(c, s, before), inputs[last]);
      assert [inputs[last]][..0] == [];
    }
  }

  // ---------- Locking on demand ----------

  /** The lock command is started on demand exactly when an action that locks is executed, by a
      key or through a corner, and it can be. */
  lemma UserLocksIff(c: Settings, s: State, i: Input)
    requires !s.idle.aborted
    ensures var s' := Step(c, s, i);
            s'.idle.userLocks == s.idle.userLocks +
              if i.lockable && (i.event == KeyAction(LockScreen) || Fires(c, s, s', LockScreen)) then 1 else 0
  {
    match i.event
    case PointerMoved(pointer) => PerformUserLocks(c, s, Moved(c.corners, s.tracker, pointer, i.time), i.lockable);
    case LayoutChanged(extents) => PerformUserLocks(c, s, Relaid(c.corners, s.tracker, extents, i.time), i.lockable);
    case CornerTimer => PerformUserLocks(c, s, TimerRan(s.tracker), i.lockable);
    case _ =>
  }

  lemma PerformUserLocks(c: Settings, s: State, o: Outcome, lockable: bool)
    ensures var s' := Perform(c, s, o, lockable);
            s'.idle.userLocks == s.idle.userLocks + if lockable && Fires(c, s, s', LockScreen) then 1 else 0
  {
  }

  // ---------- The corners ----------

  /** Where the last move, if any, put the pointer. */
  function PointerAfter(pointer: Point, inputs: seq<Input>): Point {
    if inputs == [] then pointer
    else if inputs[|inputs| - 1].event.PointerMoved? then inputs[|inputs| - 1].event.pointer
    else PointerAfter(pointer, inputs[..|inputs| - 1])
  }

  lemma FollowsStep(c: Settings, s: State, i: Input)
    requires !s.idle.aborted
    ensures var t := Step(c, s, i).tracker;
            && t.pointer == (if i.event.PointerMoved? then i.event.pointer else s.tracker.pointer)
            && t.extents == (if i.event.LayoutChanged? then i.event.extents else s.tracker.extents)
  {
  }

  /** The corner on record is the one the pointer is in, after the last move and in the last
      layout. */
  lemma {:induction false} CornerIs(c: Settings, extents: Box, pointer: Point, start: nat, inputs: seq<Input>)
    requires !Run(c, Start(c, extents, pointer, start), inputs).idle.aborted
    ensures var t := Run(c, Start(c, extents, pointer, start), inputs).tracker;
            && t.pointer == PointerAfter(pointer, inputs)
            && t.extents == ExtentsAfter(extents, inputs)
            && t.corner == CornerAt(ExtentsAfter(extents, inputs), PointerAfter(pointer, inputs))
  {
    var s := Start(c, extents, pointer, start);
    RunSound(c, s, inputs);
    if inputs != [] {
      var last := |inputs| - 1;
      NotAbortedBefore(c, s, inputs, last);
      CornerIs(c, extents, pointer, start, inputs[..last]);
      FollowsStep(c, Run(c, s, inputs[..last]), inputs[last]);
    }
  }

  lemma StayOnce(c: Settings, s: State, inputs: seq<Input>, m: nat, n: nat, corner: Corner)
    requires m <= |inputs| && n <= |inputs|
    requires StaysFrom(c, s, inputs, m, corner) && StaysFrom(c, s, inputs, n, corner)
    ensures m == n
  {
  }

  /** An enter action fires exactly at a timer event that finds the pointer to have stayed in the
      corner, without a break and untriggered, for the configured delay. */
  lemma {:induction false} EntersIff(c: Settings, extents: Box, pointer: Point, start: nat, inputs: seq<Input>,
                                     m: nat, i: Input, corner: Corner)
    requires m <= |inputs| && StaysFrom(c, Start(c, extents, pointer, start), inputs, m, corner)
    requires !Run(c, Start(c, extents, pointer, start), inputs).idle.aborted
    ensures var s := Run(c, Start(c, extents, pointer, start), inputs);
            Step(c, s, i).firings == s.firings + [Enter(corner)] <==>
            i.event.CornerTimer? && c.corners.delay > 0 && i.time >= TimeOf(start, inputs, m) + c.corners.delay
  {
    var s := Start(c, extents, pointer, start);
    var r := Run(c, s, inputs);
    assert inputs[..|inputs|] == inputs;
    assert TrackerAt(c, s, inputs, |inputs|).corner == Some(corner);
    RunSound(c, s, inputs);
    if c.corners.delay > 0 {
      var n := ArmedOnArrival(c, extents, pointer, start, inputs);
      StayOnce(c, s, inputs, m, n, corner);
    }
    EnterStep(c, r, i, corner);
  }

  lemma EnterStep(c: Settings, s: State, i: Input, corner: Corner)
    requires Sound(c, s) && !s.idle.aborted && s.tracker.corner == Some(corner)
    ensures Step(c, s, i).firings == s.firings + [Enter(corner)] <==>
            i.event.CornerTimer? && Due(s.tracker.deadline, i.time)
  {
    var fired := Step(c, s, i).firings;
    assert fired == s.firings + [Enter(corner)] ==> fired[|s.firings|] == Enter(corner);
    match i.event
    case PointerMoved(pointer) => MovedTracks(c.corners, s.tracker, pointer, i.time);
    case LayoutChanged(extents) => RelaidTracks(c.corners, s.tracker, extents, i.time);
    case _ =>
  }
}
