/** Inhibits, the idle timer and automatic locking (`src/idle.c`), and the actions that reach
    it (`src/action.c`). */
module IdleMonitor {
  import opened Options

  datatype Action = NoAction | LockScreen | InhibitBegin | InhibitEnd | Other(name: string)

  /** `deadline` is when the idle timer fires, if armed.  `aborted` means that the assertion on
      the counter has failed; the two lock counts are of lock commands started. */
  datatype Idle = Idle(deadline: Option<nat>, expired: bool, locked: bool, inhibitors: seq<nat>,
                       inhibits: nat, aborted: bool, autoLocks: nat, userLocks: nat)

  // ---------- The monitor's operations ----------

  /** When a timer set to `delay` at time `now` fires; a delay of 0 disarms it. */
  function Deadline(now: nat, delay: nat): Option<nat> {
    if delay == 0 then None else Some(now + delay)
  }

  predicate Due(deadline: Option<nat>, now: nat) {
    deadline.Some? && deadline.value <= now
  }

  function Created(delay: nat, now: nat): Idle {
    Idle(Deadline(now, delay), false, false, [], 0, false, 0, 0)
  }

  /** `lockable` says whether the lock command can be started. */
  function Considered(i: Idle, lockable: bool): Idle {
    if i.inhibits > 0 || !i.expired || !lockable then i
    else i.(locked := true, autoLocks := i.autoLocks + 1)
  }

  function Inhibited(i: Idle): Idle {
    i.(inhibits := i.inhibits + 1)
  }

  function Uninhibited(i: Idle, lockable: bool): Idle {
    if i.inhibits == 0 then i.(aborted := true)
    else Considered(i.(inhibits := i.inhibits - 1), lockable)
  }

  function TimerFired(i: Idle, lockable: bool): Idle {
    Considered(i.(deadline := None, expired := true), lockable)
  }

  function Reset(i: Idle, delay: nat, now: nat): Idle {
    if i.locked then i else i.(deadline := Deadline(now, delay), expired := false)
  }

  function Unlocked(i: Idle, delay: nat, now: nat): Idle {
    if i.locked then Reset(i.(locked := false), delay, now) else i
  }

  function InhibitorAdded(i: Idle, id: nat): Idle {
    if id in i.inhibitors then i else Inhibited(i.(inhibitors := i.inhibitors + [id]))
  }

  function Find(ids: seq<nat>, id: nat): (k: nat)
    ensures k <= |ids|
    ensures k < |ids| <==> id in ids
    ensures k < |ids| ==> ids[k] == id
  {
    if ids == [] || ids[0] == id then 0 else 1 + Find(ids[1..], id)
  }

  function Without(ids: seq<nat>, id: nat): (r: seq<nat>)
    requires id in ids
    ensures |r| == |ids| - 1
  {
    var k := Find(ids, id);
    ids[..k] + ids[k + 1..]
  }

  /** One occurrence is taken out, and nothing else. */
  lemma WithoutTakesOne(ids: seq<nat>, id: nat)
    requires id in ids
    ensures multiset(Without(ids, id)) == multiset(ids) - multiset{id}
  {
    var k := Find(ids, id);
    assert ids == ids[..k] + [id] + ids[k + 1..];
  }

  function InhibitorDestroyed(i: Idle, id: nat, lockable: bool): Idle {
    if id !in i.inhibitors then i
    else Uninhibited(i, lockable).(inhibitors := Without(i.inhibitors, id))
  }

  function Executed(i: Idle, action: Action, lockable: bool): Idle {
    match action
    case LockScreen => if lockable then i.(userLocks := i.userLocks + 1) else i
    case InhibitBegin => Inhibited(i)
    case InhibitEnd => Uninhibited(i, lockable)
    case NoAction => i
    case Other(_) => i
  }

  // ---------- The monitor ----------

  class Monitor {
    const delay: nat
    var deadline: Option<nat>
    var expired: bool
    var locked: bool
    var inhibitors: seq<nat>
    var inhibits: nat
    var aborted: bool
    var autoLocks: nat
    var userLocks: nat

    ghost function Abs(): Idle
      reads this
    {
      Idle(deadline, expired, locked, inhibitors, inhibits, aborted, autoLocks, userLocks)
    }

    constructor (delay: nat, now: nat)
      ensures this.delay == delay && Abs() == Created(delay, now)
    {
      this.delay := delay;
      deadline := if delay == 0 then None else Some(now + delay);
      expired, locked, inhibitors, inhibits, aborted := false, false, [], 0, false;
      autoLocks, userLocks := 0, 0;
    }

    method ConsiderLocking(lockable: bool)
      modifies this
      ensures Abs() == Considered(old(Abs()), lockable)
    {
      if 0 < inhibits || !expired {
        return;
      }
      if !lockable {
        return;
      }
      autoLocks := autoLocks + 1;
      locked := true;
    }

    method Inhibit()
      modifies this
      ensures Abs() == Inhibited(old(Abs()))
    {
      inhibits := inhibits + 1;
    }

    method Uninhibit(lockable: bool)
      modifies this
      ensures Abs() == Uninhibited(old(Abs()), lockable)
    {
      if !(0 < inhibits) {
        aborted := true;
        return;
      }
      inhibits := inhibits - 1;
      ConsiderLocking(lockable);
    }

    method HandleTimer(lockable: bool)
      modifies this
      ensures Abs() == TimerFired(old(Abs()), lockable)
    {
      deadline := None;
      expired := true;
      ConsiderLocking(lockable);
    }

    method ResetTimer(now: nat)
      modifies this
      ensures Abs() == Reset(old(Abs()), delay, now)
    {
      if locked {
        return;
      }
      deadline := if delay == 0 then None else Some(now + delay);
      expired := false;
    }

    method HandleUnlock(now: nat)
      modifies this
      ensures Abs() == Unlocked(old(Abs()), delay, now)
    {
      if !locked { // not listening
        return;
      }
      locked := false;
      ResetTimer(now);
    }

    method AddInhibitor(id: nat)
      modifies this
      ensures Abs() == InhibitorAdded(old(Abs()), id)
    {
      if id in inhibitors {
        return;
      }
      inhibitors := inhibitors + [id];
      Inhibit();
    }

    method HandleDestroyInhibitor(id: nat, lockable: bool)
      modifies this
      ensures Abs() == InhibitorDestroyed(old(Abs()), id, lockable)
    {
      if id !in inhibitors {
        return;
      }
      Uninhibit(lockable);
      inhibitors := Without(inhibitors, id);
    }

    method Execute(action: Action, lockable: bool)
      modifies this
      ensures Abs() == Executed(old(Abs()), action, lockable)
    {
      match action {
        case LockScreen =>
          if lockable {
            userLocks := userLocks + 1;
          }
        case InhibitBegin => Inhibit();
        case InhibitEnd => Uninhibit(lockable);
        case NoAction =>
        case Other(_) =>
      }
    }
  }
}
