/** Runs of the session-lock protocol with any number of locks on one desktop. */
module LockSession {
  import opened LockOutputs
  import opened Options

  /** The desktop's lock: whether it is locked, and the lock object it belongs to.  The holder
      is forgotten when that object goes away. */
  datatype Desktop = Desktop(locked: bool, holder: Option<nat>)

  /** Locks by number; `confirmed` lists those told that the session is locked. */
  datatype State = State(desktop: Desktop, locks: map<nat, Outputs>, confirmed: seq<nat>)

  datatype Event =
    | NewLock(lock: nat)
    | OutputAdded(lock: nat, id: nat)
    | OutputRemoved(lock: nat, id: nat)
    | NewSurface(lock: nat, id: nat, surface: nat, serial: nat)
    | SurfaceGone(lock: nat, id: nat)
    | SurfaceCommit(lock: nat, id: nat, ack: nat)
    | Unlock(lock: nat)
    | Destroy(lock: nat)

  const START := State(Desktop(false, None), map[], [])

  // ---------- One event ----------

  function Unlocked(d: Desktop, lock: nat): Desktop {
    if d.locked && d.holder == Some(lock) then Desktop(false, None) else d
  }

  function Unreferenced(d: Desktop, lock: nat): Desktop {
    if d.holder == Some(lock) then d.(holder := None) else d
  }

  /** Locks the desktop, and tells the client, if the outputs are covered and nobody has. */
  function LockIfReady(s: State, lock: nat): State
    requires lock in s.locks
  {
    if Ready(s.locks[lock]) && !s.desktop.locked then
      s.(desktop := Desktop(true, Some(lock)), confirmed := s.confirmed + [lock])
    else s
  }

  function Step(s: State, e: Event): State {
    if e.NewLock? then
      if e.lock in s.locks then s else s.(locks := s.locks[e.lock := []])
    else if e.lock !in s.locks then s
    else
      var outputs := s.locks[e.lock];
      match e
      case OutputAdded(lock, id) => s.(locks := s.locks[lock := Added(outputs, id)])
      case OutputRemoved(lock, id) => s.(locks := s.locks[lock := Removed(outputs, id)])
      case NewSurface(lock, id, surface, serial) =>
        s.(locks := s.locks[lock := SurfaceCreated(outputs, id, surface, serial)])
      case SurfaceGone(lock, id) => s.(locks := s.locks[lock := SurfaceDestroyed(outputs, id)])
      case SurfaceCommit(lock, id, ack) =>
        if Counts(outputs, id, ack) then
          LockIfReady(s.(locks := s.locks[lock := SurfaceCommitted(outputs, id, ack)]), lock)
        else s
      case Unlock(lock) => s.(desktop := Unlocked(s.desktop, lock))
      case Destroy(lock) => s.(desktop := Unreferenced(s.desktop, lock), locks := s.locks - {lock})
  }

  function Run(events: seq<Event>): State {
    RunFrom(START, events)
  }

  function RunFrom(s: State, events: seq<Event>): State {
    if events == [] then s
    else Step(RunFrom(s, events[..|events| - 1]), events[|events| - 1])
  }

  // ---------- What every run keeps ----------

  ghost predicate Sound(s: State) {
    && (s.desktop.holder.Some? ==> s.desktop.locked && s.desktop.holder.value in s.locks)
    && (forall lock :: lock in s.locks ==> WellFormed(s.locks[lock]))
  }

  lemma StepSound(s: State, e: Event)
    requires Sound(s)
    ensures Sound(Step(s, e))
  {
    if !e.NewLock? && e.lock in s.locks {
      var outputs := s.locks[e.lock];
      match e
      case OutputAdded(_, id) => AddedWellFormed(outputs, id);
      case OutputRemoved(_, id) => RemovedWellFormed(outputs, id);
      case NewSurface(_, id, surface, serial) =>
        var i := Find(outputs, id);
        if i < |outputs| {
          ChangedWellFormed(outputs, i, outputs[i].(surface := Some(surface), serial := serial));
        }
      case SurfaceGone(_, id) =>
        var i := Find(outputs, id);
        if i < |outputs| {
          ChangedWellFormed(outputs, i, outputs[i].(surface := None, committed := false));
        }
      case SurfaceCommit(_, id, ack) =>
        var i := Find(outputs, id);
        if Counts(outputs, id, ack) {
          ChangedWellFormed(outputs, i, outputs[i].(committed := true));
        }
      case _ =>
    }
  }

  lemma {:induction false} RunSound(events: seq<Event>)
    ensures Sound(Run(events))
  {
    if events != [] {
      RunSound(events[..|events| - 1]);
      StepSound(Run(events[..|events| - 1]), events[|events| - 1]);
    }
  }

  // ---------- Unlocking ----------

  /** Only the unlock request of the very lock that holds the desktop unlocks it: no lost
      surface, output change, other lock or dying client does. */
  lemma UnlocksIff(s: State, e: Event)
    requires Sound(s) && s.desktop.locked
    ensures !Step(s, e).desktop.locked <==> s.desktop.holder.Some? && e == Unlock(s.desktop.holder.value)
    ensures Step(s, e).desktop.locked ==>
      && Step(s, e).confirmed == s.confirmed
      && Step(s, e).desktop.holder ==
         if s.desktop.holder.Some? && e == Destroy(s.desktop.holder.value) then None else s.desktop.holder
  {
  }

  /** Without that request the desktop stays locked through any events. */
  lemma {:induction false} StaysLocked(s: State, events: seq<Event>)
    requires Sound(s) && s.desktop.locked
    requires s.desktop.holder.Some? ==> Unlock(s.desktop.holder.value) !in events
    ensures var r := RunFrom(s, events);
            && Sound(r)
            && r.desktop.locked
            && (r.desktop.holder == s.desktop.holder || r.desktop.holder == None)
            && r.confirmed == s.confirmed
  {
    if events != [] {
      var before, e := events[..|events| - 1], events[|events| - 1];
      assert forall x :: x in before ==> x in events;
      StaysLocked(s, before);
      var r := RunFrom(s, before);
      StepSound(r, e);
      UnlocksIff(r, e);
    }
  }

  /** A locked desktop can still be unlocked by some run of events exactly while it has a
      holder. */
  lemma {:induction false} ReleasableIff(s: State)
    requires Sound(s) && s.desktop.locked
    ensures (exists events :: !RunFrom(s, events).desktop.locked) <==> s.desktop.holder.Some?
  {
    if s.desktop.holder.Some? {
      var unlock := [Unlock(s.desktop.holder.value)];
      assert unlock[..0] == [];
      assert RunFrom(s, unlock) == Step(s, unlock[0]);
      UnlocksIff(s, unlock[0]);
    } else {
      forall events
        ensures RunFrom(s, events).desktop.locked
      {
        StaysLocked(s, events);
      }
    }
  }

  /** When the holding client dies without unlocking, the session stays locked for good: not
      even a new lock can take over and release it. */
  lemma {:induction false} OrphanedLockIsPermanent(s: State, lock: nat, events: seq<Event>)
    requires Sound(s) && s.desktop == Desktop(true, Some(lock))
    ensures RunFrom(Step(s, Destroy(lock)), events).desktop == Desktop(true, None)
  {
    StepSound(s, Destroy(lock));
    StaysLocked(Step(s, Destroy(lock)), events);
  }

  lemma RunOneMore(events: seq<Event>, e: Event)
    ensures Run(events + [e]) == Step(Run(events), e)
  {
    assert (events + [e])[..|events|] == events;
  }

  /** One output, its surface created and committed: the desktop is locked. */
  lemma CoveredOutputLocks() returns (events: seq<Event>)
    ensures events == [NewLock(0), OutputAdded(0, 0), NewSurface(0, 0, 0, 1), SurfaceCommit(0, 0, 1)]
    ensures Run(events).desktop == Desktop(true, Some(0))
  {
    var one := [] + [NewLock(0)];
    var two := one + [OutputAdded(0, 0)];
    var three := two + [NewSurface(0, 0, 0, 1)];
    events := three + [SurfaceCommit(0, 0, 1)];
    RunOneMore([], NewLock(0));
    RunOneMore(one, OutputAdded(0, 0));
    assert Run(two).locks[0] == [Output(0, None, false, 0)];
    RunOneMore(two, NewSurface(0, 0, 0, 1));
    assert Run(three).locks[0] == [Output(0, Some(0), false, 1)];
    RunOneMore(three, SurfaceCommit(0, 0, 1));
  }

  /** There is such a run: the output is covered, then the client dies. */
  lemma {:induction false} OrphanedRun() returns (events: seq<Event>)
    ensures events == [NewLock(0), OutputAdded(0, 0), NewSurface(0, 0, 0, 1), SurfaceCommit(0, 0, 1), Destroy(0)]
    ensures forall more :: RunFrom(Run(events), more).desktop == Desktop(true, None)
  {
    var locked := CoveredOutputLocks();
    events := locked + [Destroy(0)];
    RunOneMore(locked, Destroy(0));
    RunSound(locked);
    forall more
      ensures RunFrom(Run(events), more).desktop == Desktop(true, None)
    {
      OrphanedLockIsPermanent(Run(locked), 0, more);
    }
  }

  /** In a run that ends locked, event `n` was the confirming commit that locked it, nothing
      has been confirmed since, and the holder is lost exactly when that lock was destroyed
      since. */
  lemma {:induction false} HolderLostIff(events: seq<Event>) returns (n: nat)
    requires Run(events).desktop.locked
    ensures n < |events| && !Run(events[..n]).desktop.locked
    ensures var s := Run(events[..n + 1]);
            && events[n].SurfaceCommit?
            && s.desktop == Desktop(true, Some(events[n].lock))
            && s.confirmed == Run(events[..n]).confirmed + [events[n].lock] == Run(events).confirmed
    ensures Run(events).desktop.holder ==
            if Destroy(events[n].lock) in events[n + 1..] then None else Some(events[n].lock)
  {
    var last := |events| - 1;
    var before, e := events[..last], events[last];
    if Run(before).desktop.locked {
      n := HolderLostIff(before);
      RunSound(before);
      UnlocksIff(Run(before), e);
      assert before[..n] == events[..n] && before[..n + 1] == events[..n + 1];
      assert events[n + 1..] == before[n + 1..] + [e];
    } else {
      n := last;
      LocksWhenConfirmed(Run(before), e);
      assert events[..n + 1] == events;
    }
  }

  lemma LocksWhenConfirmed(s: State, e: Event)
    requires !s.desktop.locked && Step(s, e).desktop.locked
    ensures e.SurfaceCommit? && Step(s, e).desktop == Desktop(true, Some(e.lock))
    ensures Step(s, e).confirmed == s.confirmed + [e.lock]
  {
  }

  // ---------- Locking ----------

  /** An event that does not take output `id` of `lock`, or its surface, away. */
  predicate Quiet(e: Event, lock: nat, id: nat) {
    e != SurfaceGone(lock, id) && e != OutputRemoved(lock, id) && e != Destroy(lock)
  }

  /** Output `id` of `lock` has kept its surface since event `from`. */
  ghost predicate Undisturbed(events: seq<Event>, from: nat, lock: nat, id: nat) {
    forall i :: from <= i < |events| ==> Quiet(events[i], lock, id)
  }

  /** `o` was among the outputs, its commit possibly still missing. */
  ghost predicate Had(s: State, lock: nat, o: Output) {
    lock in s.locks && (o in s.locks[lock] || o.(committed := false) in s.locks[lock])
  }

  /** Before the last event the output was there with the same surface, or that event brought
      the surface. */
  lemma SurfaceBefore(s: State, e: Event, lock: nat, o: Output)
    requires Sound(s) && lock in Step(s, e).locks && o in Step(s, e).locks[lock] && o.surface.Some?
    ensures e == NewSurface(lock, o.id, o.surface.value, o.serial) || (Had(s, lock, o) && Quiet(e, lock, o.id))
  {
    if !e.NewLock? && e.lock == lock && lock in s.locks {
      var outputs := s.locks[lock];
      match e
      case OutputAdded(_, id) =>
        assert o in outputs;
      case OutputRemoved(_, id) =>
        RemovedIsGone(outputs, id);
      case NewSurface(_, id, surface, serial) =>
        NewSurfaceOrOld(outputs, id, surface, serial, o);
      case SurfaceGone(_, id) =>
        SurfaceIsGone(outputs, id);
      case SurfaceCommit(_, id, ack) =>
        CommittedBefore(outputs, id, ack, o);
      case _ =>
    }
  }

  lemma UndisturbedOneMore(events: seq<Event>, from: nat, lock: nat, id: nat)
    requires events != [] && Undisturbed(events[..|events| - 1], from, lock, id)
    requires Quiet(events[|events| - 1], lock, id)
    ensures Undisturbed(events, from, lock, id)
  {
    var before := events[..|events| - 1];
    assert forall i :: from <= i < |before| ==> events[i] == before[i];
  }

  /** Every live surface was created by a request whose configure serial is on record, and has
      not been disturbed since. */
  lemma {:induction false} SurfaceOrigin(events: seq<Event>, lock: nat, o: Output) returns (c: nat)
    requires lock in Run(events).locks && o in Run(events).locks[lock] && o.surface.Some?
    ensures c < |events|
    ensures events[c] == NewSurface(lock, o.id, o.surface.value, o.serial)
    ensures Undisturbed(events, c + 1, lock, o.id)
  {
    var n := |events| - 1;
    var before, e := events[..n], events[n];
    RunSound(before);
    SurfaceBefore(Run(before), e, lock, o);
    if e == NewSurface(lock, o.id, o.surface.value, o.serial) {
      c := n;
    } else {
      c := SurfaceOrigin(before, lock, if o in Run(before).locks[lock] then o else o.(committed := false));
      UndisturbedOneMore(events, c + 1, lock, o.id);
    }
  }

  /** A commit on the output's surface that acknowledges its creation's configure. */
  predicate Commits(e: Event, lock: nat, o: Output) {
    e.SurfaceCommit? && e.lock == lock && e.id == o.id && e.ack >= o.serial
  }

  /** A committed output was not committed when its surface was created; some later commit
      acknowledged the creation's configure. */
  lemma CommitBefore(s: State, e: Event, lock: nat, o: Output)
    requires Sound(s) && lock in Step(s, e).locks && o in Step(s, e).locks[lock] && o.committed
    ensures o.surface.Some?
    ensures || (Commits(e, lock, o) && Had(s, lock, o))
            || (lock in s.locks && o in s.locks[lock] && Quiet(e, lock, o.id))
  {
    StepSound(s, e);
    if !e.NewLock? && e.lock == lock && lock in s.locks {
      var outputs := s.locks[lock];
      match e
      case OutputRemoved(_, id) =>
        RemovedIsGone(outputs, id);
      case SurfaceGone(_, id) =>
        SurfaceIsGone(outputs, id);
      case NewSurface(_, id, surface, serial) =>
        NewIsUncommitted(outputs, id, surface, serial, o);
      case SurfaceCommit(_, id, ack) =>
        CommittedBefore(outputs, id, ack, o);
      case _ =>
    }
  }

  /** How a covered output came about: its surface was created, then committed with a serial
      at or above that of the creation's configure, and neither was undone. */
  lemma {:induction false} CoverHistory(events: seq<Event>, lock: nat, o: Output) returns (c: nat, k: nat)
    requires lock in Run(events).locks && o in Run(events).locks[lock] && o.committed
    ensures c < k < |events| && o.surface.Some?
    ensures events[c] == NewSurface(lock, o.id, o.surface.value, o.serial)
    ensures Commits(events[k], lock, o)
    ensures Undisturbed(events, c + 1, lock, o.id)
  {
    var n := |events| - 1;
    var before, e := events[..n], events[n];
    RunSound(before);
    CommitBefore(Run(before), e, lock, o);
    if Commits(e, lock, o) && Had(Run(before), lock, o) {
      k := n;
      c := SurfaceOrigin(before, lock, if o in Run(before).locks[lock] then o else o.(committed := false));
    } else {
      c, k := CoverHistory(before, lock, o);
    }
    UndisturbedOneMore(events, c + 1, lock, o.id);
  }

  /** The client is told `locked` only at a commit that takes the desktop from unlocked to
      locked, with at least one output and all of them covered. */
  lemma ConfirmsOnlyWhenCovered(s: State, e: Event)
    requires Step(s, e).confirmed != s.confirmed
    ensures var s' := Step(s, e);
            && e.SurfaceCommit?
            && !s.desktop.locked && s'.desktop == Desktop(true, Some(e.lock))
            && s'.confirmed == s.confirmed + [e.lock]
            && e.lock in s'.locks && Ready(s'.locks[e.lock])
  {
  }

  /** The same over runs: when `locked` is sent, every output of that lock has a live surface
      that committed with a serial at or above its creation's configure, and nothing has
      disturbed it since. */
  lemma LockedMeansAllCovered(events: seq<Event>, o: Output) returns (c: nat, k: nat)
    requires events != [] && Run(events).confirmed != Run(events[..|events| - 1]).confirmed
    requires var lock := events[|events| - 1].lock;
             lock in Run(events).locks && o in Run(events).locks[lock]
    ensures c < k < |events| && o.surface.Some?
    ensures var lock := events[|events| - 1].lock;
            && events[c] == NewSurface(lock, o.id, o.surface.value, o.serial)
            && Commits(events[k], lock, o)
            && Undisturbed(events, c + 1, lock, o.id)
  {
    var n := |events| - 1;
    ConfirmsOnlyWhenCovered(Run(events[..n]), events[n]);
    c, k := CoverHistory(events, events[n].lock, o);
  }

  /** The desktop is locked only if some lock was confirmed, and every lock taken was. */
  lemma {:induction false} LockedWasConfirmed(events: seq<Event>)
    ensures Run(events).desktop.locked ==> Run(events).confirmed != []
    ensures Run(events).desktop.holder.Some? ==>
      var confirmed := Run(events).confirmed;
      confirmed != [] && Run(events).desktop.holder.value == confirmed[|confirmed| - 1]
  {
    if events != [] {
      LockedWasConfirmed(events[..|events| - 1]);
    }
  }
}
