/** Which outputs a lock tracks and which of them are covered, read off the events alone; and
    from that, exactly when a client is told that the session is locked.  */
module LockTracking {
  import opened LockOutputs
  import opened LockSession
  import opened Options

  // ---------- One output of one lock ----------

  /** What a lock has of an output. */
  function Entry(outputs: Outputs, id: nat): Option<Output> {
    var i := Find(outputs, id);
    if i < |outputs| then Some(outputs[i]) else None
  }

  function EntryIn(s: State, lock: nat, id: nat): Option<Output> {
    if lock in s.locks then Entry(s.locks[lock], id) else None
  }

  lemma {:induction false} FindIs(outputs: Outputs, id: nat, i: nat)
    requires i < |outputs| && outputs[i].id == id && forall j :: 0 <= j < i ==> outputs[j].id != id
    ensures Find(outputs, id) == i
  {
  }

  lemma EntryIff(outputs: Outputs, id: nat, o: Output)
    requires WellFormed(outputs)
    ensures Entry(outputs, id) == Some(o) <==> o in outputs && o.id == id
  {
    if o in outputs && o.id == id {
      var i :| 0 <= i < |outputs| && outputs[i] == o;
      FindIs(outputs, id, i);
    }
  }

  /** Lists that differ in one id only agree on every other. */
  lemma SameOthers(a: Outputs, b: Outputs, id: nat)
    requires WellFormed(a) && WellFormed(b)
    requires forall o: Output :: o.id == id ==> (o in a <==> o in b)
    ensures Entry(a, id) == Entry(b, id)
  {
    if Entry(a, id).Some? {
      EntryIff(a, id, Entry(a, id).value);
      EntryIff(b, id, Entry(a, id).value);
    } else if Entry(b, id).Some? {
      EntryIff(b, id, Entry(b, id).value);
      EntryIff(a, id, Entry(b, id).value);
    }
  }

  /** What an event makes of one output, as if it were the only one. */
  function Followed(o: Option<Output>, e: Event, id: nat): Option<Output> {
    match e
    case OutputAdded(_, x) => if x == id && o.None? then Some(Output(id, None, false, 0)) else o
    case OutputRemoved(_, x) => if x == id then None else o
    case NewSurface(_, x, surface, serial) =>
      if x == id && o.Some? && o.value.surface.None? then
        Some(o.value.(surface := Some(surface), serial := serial))
      else o
    case SurfaceGone(_, x) => if x == id && o.Some? then Some(o.value.(surface := None, committed := false)) else o
    case SurfaceCommit(_, x, ack) =>
      if x == id && o.Some? && o.value.surface.Some? && ack >= o.value.serial then Some(o.value.(committed := true))
      else o
    case Destroy(_) => None
    case Unlock(_) => o
    case NewLock(_) => o
  }

  lemma AddedEntry(outputs: Outputs, x: nat, id: nat)
    requires WellFormed(outputs)
    ensures Entry(Added(outputs, x), id) ==
            if x == id && Entry(outputs, id).None? then Some(Output(id, None, false, 0)) else Entry(outputs, id)
  {
    var after := Added(outputs, x);
    AddedWellFormed(outputs, x);
    if Find(outputs, x) == |outputs| {
      if x == id {
        FindIs(after, id, |outputs|);
      } else {
        SameOthers(outputs, after, id);
      }
    }
  }

  lemma RemovedEntry(outputs: Outputs, x: nat, id: nat)
    requires WellFormed(outputs)
    ensures Entry(Removed(outputs, x), id) == if x == id then None else Entry(outputs, id)
  {
    var after := Removed(outputs, x);
    RemovedWellFormed(outputs, x);
    RemovedIsGone(outputs, x);
    if x == id {
      assert forall k :: 0 <= k < |after| ==> after[k] in after;
    } else {
      RemovedKeepsOthers(outputs, x);
      SameOthers(outputs, after, id);
    }
  }

  lemma RemovedKeepsOthers(outputs: Outputs, x: nat)
    requires WellFormed(outputs)
    ensures forall o :: o in outputs && o.id != x ==> o in Removed(outputs, x)
  {
    var i, after := Find(outputs, x), Removed(outputs, x);
    forall o | o in outputs && o.id != x
      ensures o in after
    {
      var k :| 0 <= k < |outputs| && outputs[k] == o;
      if i < |outputs| {
        assert after[if k < i then k else k - 1] == o;
      }
    }
  }

  /** Changing what is known of one output, not its id. */
  lemma ChangedEntry(outputs: Outputs, i: nat, o: Output, id: nat)
    requires WellFormed(outputs) && i < |outputs| && o.id == outputs[i].id && (o.committed ==> o.surface.Some?)
    ensures Entry(outputs[i := o], id) == if o.id == id then Some(o) else Entry(outputs, id)
  {
    var after := outputs[i := o];
    ChangedWellFormed(outputs, i, o);
    if o.id == id {
      assert after[i] == o;
      EntryIff(after, id, o);
    } else {
      forall p: Output | p.id == id
        ensures p in outputs <==> p in after
      {
        if p in outputs {
          var k :| 0 <= k < |outputs| && outputs[k] == p;
          assert after[k] == p;
        }
      }
      SameOthers(outputs, after, id);
    }
  }

  lemma FoundIs(outputs: Outputs, x: nat)
    ensures Find(outputs, x) < |outputs| ==> Entry(outputs, x) == Some(outputs[Find(outputs, x)])
  {
  }

  lemma SurfaceEntry(outputs: Outputs, e: Event, id: nat)
    requires WellFormed(outputs) && (e.NewSurface? || e.SurfaceGone? || e.SurfaceCommit?)
    ensures Entry(match e
                  case NewSurface(_, x, surface, serial) => SurfaceCreated(outputs, x, surface, serial)
                  case SurfaceGone(_, x) => SurfaceDestroyed(outputs, x)
                  case SurfaceCommit(_, x, ack) => SurfaceCommitted(outputs, x, ack), id)
            == Followed(Entry(outputs, id), e, id)
  {
    var i := Find(outputs, e.id);
    FoundIs(outputs, e.id);
    if i < |outputs| {
      match e
      case NewSurface(_, x, surface, serial) =>
        ChangedEntry(outputs, i, outputs[i].(surface := Some(surface), serial := serial), id);
      case SurfaceGone(_, x) =>
        ChangedEntry(outputs, i, outputs[i].(surface := None, committed := false), id);
      case SurfaceCommit(_, x, ack) =>
        if outputs[i].surface.Some? {
          ChangedEntry(outputs, i, outputs[i].(committed := true), id);
        }
    }
  }

  /** Every event treats each output of each lock on its own. */
  lemma {:induction false} EntryStep(s: State, e: Event, lock: nat, id: nat)
    requires Sound(s)
    ensures EntryIn(Step(s, e), lock, id) ==
            if lock in s.locks && e.lock == lock && !e.NewLock? then Followed(EntryIn(s, lock, id), e, id)
            else EntryIn(s, lock, id)
  {
    if lock in s.locks && e.lock == lock {
      var outputs := s.locks[lock];
      match e
      case OutputAdded(_, x) => AddedEntry(outputs, x, id);
      case OutputRemoved(_, x) => RemovedEntry(outputs, x, id);
      case NewSurface(_, _, _, _) => SurfaceEntry(outputs, e, id);
      case SurfaceGone(_, _) => SurfaceEntry(outputs, e, id);
      case SurfaceCommit(_, _, _) => SurfaceEntry(outputs, e, id);
      case _ =>
    }
  }

  // ---------- Which outputs are tracked ----------

  /** Ids of the outputs a lock tracks. */
  function Ids(s: State, lock: nat): set<nat>
    requires lock in s.locks
  {
    set o | o in s.locks[lock] :: o.id
  }

  lemma TrackedIn(s: State, lock: nat, id: nat)
    requires lock in s.locks
    ensures id in Ids(s, lock) <==> EntryIn(s, lock, id).Some?
  {
    var outputs := s.locks[lock];
    if id in Ids(s, lock) {
      var o :| o in outputs && o.id == id;
      var i :| 0 <= i < |outputs| && outputs[i] == o;
    }
  }

  /** An added output is tracked, a removed one is not, and no other event changes what a lock
      that stays tracks. */
  lemma {:induction false} IdsStep(s: State, e: Event, lock: nat)
    requires Sound(s) && lock in s.locks && lock in Step(s, e).locks
    ensures Ids(Step(s, e), lock) ==
            if e.lock == lock && e.OutputAdded? then Ids(s, lock) + {e.id}
            else if e.lock == lock && e.OutputRemoved? then Ids(s, lock) - {e.id}
            else Ids(s, lock)
  {
    forall id: nat
      ensures id in Ids(Step(s, e), lock) <==>
              || (id in Ids(s, lock) && e != OutputRemoved(lock, id))
              || e == OutputAdded(lock, id)
    {
      TrackedIn(s, lock, id);
      TrackedIn(Step(s, e), lock, id);
      EntryStep(s, e, lock, id);
    }
  }

  // ---------- Read off the events ----------

  /** The lock was made and not destroyed since. */
  ghost predicate Live(events: seq<Event>, lock: nat) {
    exists n :: 0 <= n < |events| && events[n] == NewLock(lock) && NoneFrom(events, n + 1, Destroy(lock))
  }

  ghost predicate NoneFrom(events: seq<Event>, from: nat, e: Event) {
    forall k :: from <= k < |events| ==> events[k] != e
  }

  /** The output was added to the lock while that was live, and has not been removed since. */
  ghost predicate AddedSince(events: seq<Event>, lock: nat, id: nat) {
    exists a :: 0 <= a < |events| && AddedAt(events, a, lock, id)
  }

  ghost predicate AddedAt(events: seq<Event>, a: nat, lock: nat, id: nat)
    requires a < |events|
  {
    && events[a] == OutputAdded(lock, id)
    && Live(events[..a], lock)
    && NoneFrom(events, a + 1, OutputRemoved(lock, id))
    && NoneFrom(events, a + 1, Destroy(lock))
  }

  lemma NoneFromBefore(events: seq<Event>, from: nat, e: Event)
    requires events != [] && from < |events|
    ensures NoneFrom(events, from, e) <==>
            NoneFrom(events[..|events| - 1], from, e) && events[|events| - 1] != e
  {
    var before := events[..|events| - 1];
    assert forall k :: 0 <= k < |before| ==> before[k] == events[k];
    assert NoneFrom(events, from, e) ==> events[|events| - 1] != e;
  }

  lemma {:induction false} LiveStep(events: seq<Event>, lock: nat)
    requires events != []
    ensures Live(events, lock) <==>
            var e := events[|events| - 1];
            e == NewLock(lock) || (Live(events[..|events| - 1], lock) && e != Destroy(lock))
  {
    var last := |events| - 1;
    var before, e := events[..last], events[last];
    if n :| 0 <= n < |events| && events[n] == NewLock(lock) && NoneFrom(events, n + 1, Destroy(lock)) {
      if n < last {
        NoneFromBefore(events, n + 1, Destroy(lock));
        assert before[n] == events[n];
      }
    }
    if e == NewLock(lock) {
      assert NoneFrom(events, last + 1, Destroy(lock));
    } else if Live(before, lock) && e != Destroy(lock) {
      var n :| 0 <= n < |before| && before[n] == NewLock(lock) && NoneFrom(before, n + 1, Destroy(lock));
      NoneFromBefore(events, n + 1, Destroy(lock));
      assert events[n] == before[n];
    }
  }

  lemma LocksStep(s: State, e: Event, lock: nat)
    ensures lock in Step(s, e).locks <==> e == NewLock(lock) || (lock in s.locks && e != Destroy(lock))
  {
  }

  lemma {:induction false} LiveIff(events: seq<Event>, lock: nat)
    ensures lock in Run(events).locks <==> Live(events, lock)
  {
    if events != [] {
      var before := events[..|events| - 1];
      LiveIff(before, lock);
      LiveStep(events, lock);
      LocksStep(Run(before), events[|events| - 1], lock);
    }
  }

  lemma AddedBefore(events: seq<Event>, a: nat, lock: nat, id: nat)
    requires a < |events| - 1
    ensures AddedAt(events, a, lock, id) <==>
            var e := events[|events| - 1];
            AddedAt(events[..|events| - 1], a, lock, id) && e != OutputRemoved(lock, id) && e != Destroy(lock)
  {
    assert events[..|events| - 1][..a] == events[..a];
    NoneFromBefore(events, a + 1, OutputRemoved(lock, id));
    NoneFromBefore(events, a + 1, Destroy(lock));
  }

  lemma {:induction false} AddedStep(events: seq<Event>, lock: nat, id: nat)
    requires events != []
    ensures AddedSince(events, lock, id) <==>
            var before, e := events[..|events| - 1], events[|events| - 1];
            || (e == OutputAdded(lock, id) && Live(before, lock))
            || (AddedSince(before, lock, id) && e != OutputRemoved(lock, id) && e != Destroy(lock))
  {
    var last := |events| - 1;
    var before := events[..last];
    if a :| 0 <= a < |events| && AddedAt(events, a, lock, id) {
      if a < last {
        AddedBefore(events, a, lock, id);
        assert AddedAt(before, a, lock, id);
      }
    }
    if events[last] == OutputAdded(lock, id) && Live(before, lock) {
      assert AddedAt(events, last, lock, id);
    } else if a :| 0 <= a < |before| && AddedAt(before, a, lock, id) {
      AddedBefore(events, a, lock, id);
    }
  }

  /** A lock tracks exactly the outputs added to it while live and not removed since. */
  lemma {:induction false} TrackedIff(events: seq<Event>, lock: nat, id: nat)
    ensures EntryIn(Run(events), lock, id).Some? <==> AddedSince(events, lock, id)
  {
    if events != [] {
      var before, e := events[..|events| - 1], events[|events| - 1];
      TrackedIff(before, lock, id);
      LiveIff(before, lock);
      RunSound(before);
      EntryStep(Run(before), e, lock, id);
      AddedStep(events, lock, id);
    }
  }

  /** The same for the set of ids. */
  lemma {:induction false} IdsIff(events: seq<Event>, lock: nat)
    requires lock in Run(events).locks
    ensures forall id :: id in Ids(Run(events), lock) <==> AddedSince(events, lock, id)
  {
    forall id: nat
      ensures id in Ids(Run(events), lock) <==> AddedSince(events, lock, id)
    {
      TrackedIn(Run(events), lock, id);
      TrackedIff(events, lock, id);
    }
  }

  // ---------- Which are covered ----------

  /** At event `c` a surface was requested for a tracked output that had none yet. */
  ghost predicate Creates(events: seq<Event>, c: nat, lock: nat, id: nat) {
    && c < |events|
    && events[c].NewSurface? && events[c].lock == lock && events[c].id == id
    && AddedSince(events[..c], lock, id)
    && !HasSurface(events[..c], lock, id)
  }

  /** One was requested while the output was tracked, and has not been taken away since. */
  ghost predicate HasSurface(events: seq<Event>, lock: nat, id: nat) {
    exists c: nat :: Requests(events, c, lock, id) && Undisturbed(events, c + 1, lock, id)
  }

  ghost predicate Requests(events: seq<Event>, c: nat, lock: nat, id: nat) {
    && c < |events|
    && events[c].NewSurface? && events[c].lock == lock && events[c].id == id
    && AddedSince(events[..c], lock, id)
  }

  /** Event `k` commits the surface created at `c` with a serial at or above its configure's. */
  ghost predicate CommitsTo(events: seq<Event>, c: nat, k: nat) {
    && c < k < |events|
    && events[c].NewSurface?
    && events[k].SurfaceCommit? && events[k].lock == events[c].lock && events[k].id == events[c].id
    && events[k].ack >= events[c].serial
  }

  /** The present surface was created at `c`. */
  ghost predicate CreatedAt(events: seq<Event>, c: nat, lock: nat, id: nat) {
    Creates(events, c, lock, id) && Undisturbed(events, c + 1, lock, id)
  }

  ghost predicate CoveredSince(events: seq<Event>, lock: nat, id: nat) {
    exists c: nat, k: nat :: CreatedAt(events, c, lock, id) && CommitsTo(events, c, k)
  }

  lemma UndisturbedBefore(events: seq<Event>, from: nat, lock: nat, id: nat)
    requires events != [] && from < |events|
    ensures Undisturbed(events, from, lock, id) <==>
            Undisturbed(events[..|events| - 1], from, lock, id) && Quiet(events[|events| - 1], lock, id)
  {
    var before := events[..|events| - 1];
    assert forall k :: 0 <= k < |before| ==> before[k] == events[k];
    assert Undisturbed(events, from, lock, id) ==> Quiet(events[|events| - 1], lock, id);
  }

  lemma {:induction false} HasSurfaceStep(events: seq<Event>, lock: nat, id: nat)
    requires events != []
    ensures HasSurface(events, lock, id) <==>
            || Requests(events, |events| - 1, lock, id)
            || (HasSurface(events[..|events| - 1], lock, id) && Quiet(events[|events| - 1], lock, id))
  {
    var last := |events| - 1;
    var before := events[..last];
    if c: nat :| Requests(events, c, lock, id) && Undisturbed(events, c + 1, lock, id) {
      if c < last {
        assert before[..c] == events[..c];
        UndisturbedBefore(events, c + 1, lock, id);
        assert Requests(before, c, lock, id);
      }
    }
    if Requests(events, last, lock, id) {
      assert Undisturbed(events, last + 1, lock, id);
    } else if c: nat :| Requests(before, c, lock, id) && Undisturbed(before, c + 1, lock, id) {
      assert before[..c] == events[..c];
      assert Requests(events, c, lock, id);
      if Quiet(events[last], lock, id) {
        UndisturbedBefore(events, c + 1, lock, id);
      }
    }
  }

  lemma {:induction false} SurfaceIff(events: seq<Event>, lock: nat, id: nat)
    ensures (EntryIn(Run(events), lock, id).Some? && EntryIn(Run(events), lock, id).value.surface.Some?) <==>
            HasSurface(events, lock, id)
  {
    if events != [] {
      var before, e := events[..|events| - 1], events[|events| - 1];
      SurfaceIff(before, lock, id);
      TrackedIff(before, lock, id);
      RunSound(before);
      EntryStep(Run(before), e, lock, id);
      HasSurfaceStep(events, lock, id);
    }
  }

  lemma CreatedBefore(events: seq<Event>, c: nat, lock: nat, id: nat)
    requires c < |events| - 1
    ensures CreatedAt(events, c, lock, id) <==>
            CreatedAt(events[..|events| - 1], c, lock, id) && Quiet(events[|events| - 1], lock, id)
  {
    assert events[..|events| - 1][..c] == events[..c];
    UndisturbedBefore(events, c + 1, lock, id);
  }

  lemma CreatedHasSurface(events: seq<Event>, c: nat, lock: nat, id: nat)
    requires CreatedAt(events, c, lock, id)
    ensures HasSurface(events, lock, id)
  {
    assert Requests(events, c, lock, id);
  }

  /** There is only one. */
  lemma CreatedOnce(events: seq<Event>, c: nat, d: nat, lock: nat, id: nat)
    requires CreatedAt(events, c, lock, id) && CreatedAt(events, d, lock, id)
    ensures c == d
  {
    if c < d {
      CreatedThen(events, c, d, lock, id);
    } else if d < c {
      CreatedThen(events, d, c, lock, id);
    }
  }

  lemma CreatedThen(events: seq<Event>, c: nat, d: nat, lock: nat, id: nat)
    requires CreatedAt(events, c, lock, id) && c < d < |events|
    ensures HasSurface(events[..d], lock, id)
  {
    assert events[..d][..c] == events[..c];
    assert Requests(events[..d], c, lock, id) && Undisturbed(events[..d], c + 1, lock, id);
  }

  ghost predicate IsSurfaceOf(o: Option<Output>, e: Event) {
    e.NewSurface? && o.Some? && o.value.surface == Some(e.surface) && o.value.serial == e.serial
  }

  /** A surface an output has is the one created, with that configure's serial. */
  lemma {:induction false} SurfaceCreation(events: seq<Event>, lock: nat, id: nat) returns (c: nat)
    requires HasSurface(events, lock, id)
    ensures CreatedAt(events, c, lock, id) && IsSurfaceOf(EntryIn(Run(events), lock, id), events[c])
  {
    var last := |events| - 1;
    var before, e := events[..last], events[last];
    SurfaceIff(before, lock, id);
    TrackedIff(before, lock, id);
    RunSound(before);
    EntryStep(Run(before), e, lock, id);
    HasSurfaceStep(events, lock, id);
    if HasSurface(before, lock, id) {
      c := SurfaceCreation(before, lock, id);
      if e.lock == lock {
        SurfaceStays(EntryIn(Run(before), lock, id), before[c], e, lock, id);
      }
      CreatedBefore(events, c, lock, id);
    } else {
      c := last;
    }
  }

  lemma SurfaceStays(o: Option<Output>, created: Event, e: Event, lock: nat, id: nat)
    requires IsSurfaceOf(o, created) && e.lock == lock && Quiet(e, lock, id)
    ensures IsSurfaceOf(Followed(o, e, id), created)
  {
  }

  /** Event `e` commits the present surface in time. */
  ghost predicate CommitsPresent(events: seq<Event>, e: Event, lock: nat, id: nat) {
    && e.SurfaceCommit? && e.lock == lock && e.id == id
    && exists c: nat :: CreatedAt(events, c, lock, id) && e.ack >= events[c].serial
  }

  lemma {:induction false} CoveredStep(events: seq<Event>, lock: nat, id: nat)
    requires events != []
    ensures CoveredSince(events, lock, id) <==>
            var before, e := events[..|events| - 1], events[|events| - 1];
            (CoveredSince(before, lock, id) && Quiet(e, lock, id)) || CommitsPresent(before, e, lock, id)
  {
    var last := |events| - 1;
    var before, e := events[..last], events[last];
    if c: nat, k: nat :| CreatedAt(events, c, lock, id) && CommitsTo(events, c, k) {
      CreatedBefore(events, c, lock, id);
      if k < last {
        assert CommitsTo(before, c, k);
      } else {
        assert CommitsPresent(before, e, lock, id);
      }
    }
    if CommitsPresent(before, e, lock, id) {
      var c: nat :| CreatedAt(before, c, lock, id) && e.ack >= before[c].serial;
      CreatedBefore(events, c, lock, id);
      assert CommitsTo(events, c, last);
    } else if CoveredSince(before, lock, id) && Quiet(e, lock, id) {
      var c: nat, k: nat :| CreatedAt(before, c, lock, id) && CommitsTo(before, c, k);
      CreatedBefore(events, c, lock, id);
      assert CommitsTo(events, c, k);
    }
  }

  /** A commit counts exactly when it is of the present surface, in time. */
  lemma {:induction false} CountsIff(events: seq<Event>, e: Event, lock: nat, id: nat)
    requires e.SurfaceCommit? && e.lock == lock && e.id == id
    ensures var o := EntryIn(Run(events), lock, id);
            (o.Some? && o.value.surface.Some? && e.ack >= o.value.serial) <==> CommitsPresent(events, e, lock, id)
  {
    SurfaceIff(events, lock, id);
    if HasSurface(events, lock, id) {
      var c := SurfaceCreation(events, lock, id);
      forall d: nat | CreatedAt(events, d, lock, id)
        ensures d == c
      {
        CreatedOnce(events, c, d, lock, id);
      }
    } else {
      if d: nat :| CreatedAt(events, d, lock, id) {
        CreatedHasSurface(events, d, lock, id);
      }
    }
  }

  /** An output is covered exactly when its present surface was committed, with a serial at or
      above its configure's, after it was created. */
  lemma {:induction false} CoveredIff(events: seq<Event>, lock: nat, id: nat)
    ensures (EntryIn(Run(events), lock, id).Some? && EntryIn(Run(events), lock, id).value.committed) <==>
            CoveredSince(events, lock, id)
  {
    if events != [] {
      var before, e := events[..|events| - 1], events[|events| - 1];
      CoveredIff(before, lock, id);
      RunSound(before);
      EntryStep(Run(before), e, lock, id);
      CoveredStep(events, lock, id);
      EntrySound(Run(before), lock, id);
      if e.SurfaceCommit? && e.lock == lock && e.id == id {
        CountsIff(before, e, lock, id);
      }
    }
  }

  /** Nothing is committed without a surface. */
  lemma EntrySound(s: State, lock: nat, id: nat)
    requires Sound(s)
    ensures EntryIn(s, lock, id).Some? && EntryIn(s, lock, id).value.committed ==>
              EntryIn(s, lock, id).value.surface.Some?
  {
  }

  // ---------- When the client is told ----------

  /** The lock has outputs, and every one added to it is covered. */
  ghost predicate AllCovered(events: seq<Event>, lock: nat) {
    && (exists id: nat :: AddedSince(events, lock, id))
    && forall id: nat :: AddedSince(events, lock, id) ==> CoveredSince(events, lock, id)
  }

  lemma ReadyIds(s: State, lock: nat)
    requires Sound(s) && lock in s.locks
    ensures Ready(s.locks[lock]) <==>
            && (exists id: nat :: EntryIn(s, lock, id).Some?)
            && forall id: nat :: EntryIn(s, lock, id).Some? ==> EntryIn(s, lock, id).value.committed
  {
    var outputs := s.locks[lock];
    if outputs != [] {
      FindIs(outputs, outputs[0].id, 0);
      assert EntryIn(s, lock, outputs[0].id).Some?;
    }
    forall i | 0 <= i < |outputs|
      ensures EntryIn(s, lock, outputs[i].id) == Some(outputs[i])
    {
      FindIs(outputs, outputs[i].id, i);
    }
  }

  lemma {:induction false} ReadyIff(events: seq<Event>, lock: nat)
    requires lock in Run(events).locks
    ensures Ready(Run(events).locks[lock]) <==> AllCovered(events, lock)
  {
    RunSound(events);
    ReadyIds(Run(events), lock);
    forall id: nat
      ensures EntryIn(Run(events), lock, id).Some? <==> AddedSince(events, lock, id)
      ensures (EntryIn(Run(events), lock, id).Some? && EntryIn(Run(events), lock, id).value.committed) <==>
              CoveredSince(events, lock, id)
    {
      TrackedIff(events, lock, id);
      CoveredIff(events, lock, id);
    }
  }

  /** What it takes of the state. */
  lemma ConfirmsStep(s: State, e: Event)
    ensures Step(s, e).confirmed != s.confirmed <==>
            && e.SurfaceCommit? && !s.desktop.locked && e.lock in s.locks
            && Counts(s.locks[e.lock], e.id, e.ack)
            && e.lock in Step(s, e).locks && Ready(Step(s, e).locks[e.lock])
  {
  }

  /** Every run: the client is told `locked` exactly when the desktop was not locked and the
      event commits the present surface of an output, after which all outputs of that lock are
      covered. */
  lemma {:induction false} ConfirmsIff(events: seq<Event>, e: Event)
    ensures Run(events + [e]).confirmed != Run(events).confirmed <==>
            && e.SurfaceCommit? && !Run(events).desktop.locked
            && CommitsPresent(events, e, e.lock, e.id)
            && AllCovered(events + [e], e.lock)
  {
    RunOneMore(events, e);
    ConfirmsStep(Run(events), e);
    if e.SurfaceCommit? {
      CountsIff(events, e, e.lock, e.id);
      LocksStep(Run(events), e, e.lock);
      if e.lock in Run(events).locks {
        ReadyIff(events + [e], e.lock);
      }
    }
  }

  /** So when `locked` is sent, every output added to that lock and not removed has a surface,
      created and then committed in time, that nothing has taken away. */
  lemma {:induction false} LockedCoversEveryOutput(events: seq<Event>, e: Event, id: nat)
    requires Run(events + [e]).confirmed != Run(events).confirmed
    requires AddedSince(events + [e], e.lock, id)
    ensures CoveredSince(events + [e], e.lock, id)
  {
    ConfirmsIff(events, e);
  }

  // ---------- How long it stays locked ----------

  ghost predicate ConfirmsAt(events: seq<Event>, n: nat) {
    n < |events| && Run(events[..n + 1]).confirmed != Run(events[..n]).confirmed
  }

  /** Event `n` locked the desktop, and any unlock request of that lock since came after the lock
      was destroyed. */
  ghost predicate HeldSince(events: seq<Event>, n: nat) {
    && ConfirmsAt(events, n)
    && forall k :: n < k < |events| ==> UnlocksTooLate(events, n, k)
  }

  ghost predicate UnlocksTooLate(events: seq<Event>, n: nat, k: nat)
    requires n < k < |events|
  {
    events[k] == Unlock(events[n].lock) ==> Destroy(events[n].lock) in events[n + 1..k]
  }

  lemma HeldBefore(events: seq<Event>, n: nat)
    requires n < |events| - 1
    ensures HeldSince(events, n) <==>
            HeldSince(events[..|events| - 1], n) && UnlocksTooLate(events, n, |events| - 1)
  {
    var before := events[..|events| - 1];
    assert before[..n + 1] == events[..n + 1] && before[..n] == events[..n];
    assert HeldSince(events, n) ==> UnlocksTooLate(events, n, |events| - 1);
    forall k | n < k < |before|
      ensures UnlocksTooLate(events, n, k) <==> UnlocksTooLate(before, n, k)
    {
      assert before[n + 1..k] == events[n + 1..k];
    }
  }

  lemma {:induction false} HeldHolder(events: seq<Event>, n: nat)
    requires HeldSince(events, n)
    ensures Run(events).desktop ==
            Desktop(true, if Destroy(events[n].lock) in events[n + 1..] then None else Some(events[n].lock))
  {
    var last := |events| - 1;
    if n == last {
      assert events[..n + 1] == events;
      ConfirmsOnlyWhenCovered(Run(events[..n]), events[n]);
    } else {
      var before := events[..last];
      HeldBefore(events, n);
      HeldHolder(before, n);
      RunSound(before);
      UnlocksIff(Run(before), events[last]);
      assert events[n + 1..last] == before[n + 1..];
      assert events[n + 1..] == before[n + 1..] + [events[last]];
    }
  }

  lemma LocksOnlyByConfirming(s: State, e: Event)
    requires !s.desktop.locked && Step(s, e).desktop.locked
    ensures Step(s, e).confirmed != s.confirmed
  {
    LocksWhenConfirmed(s, e);
    assert |Step(s, e).confirmed| == |s.confirmed| + 1;
  }

  /** Every run: the desktop is locked exactly when some client was told so and has not made an
      unlock request since, while its lock was alive. */
  lemma {:induction false} LockedIff(events: seq<Event>)
    ensures Run(events).desktop.locked <==> exists n: nat :: HeldSince(events, n)
  {
    if n: nat :| HeldSince(events, n) {
      HeldHolder(events, n);
    }
    if Run(events).desktop.locked {
      var n := LockingEvent(events);
    }
  }

  lemma {:induction false} LockingEvent(events: seq<Event>) returns (n: nat)
    requires Run(events).desktop.locked
    ensures HeldSince(events, n)
  {
    var last := |events| - 1;
    var before, e := events[..last], events[last];
    if Run(before).desktop.locked {
      n := LockingEvent(before);
      HeldHolder(before, n);
      RunSound(before);
      UnlocksIff(Run(before), e);
      assert before[n + 1..] == events[n + 1..last];
      HeldBefore(events, n);
    } else {
      n := last;
      LocksOnlyByConfirming(Run(before), e);
      assert events[..n + 1] == events;
    }
  }
}
