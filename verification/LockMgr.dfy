/** The session lock as objects: locks, each with its outputs, sharing one desktop
    (`src/lock_mgr.c`, with the desktop's lock from `src/toolkit/desktop.c`). */
module LockMgr {
  import opened LockOutputs
  import opened Options
  import S = LockSession

  class Desktop {
    var locked: bool
    var lockElement: Lock?

    constructor ()
      ensures !locked && lockElement == null
    {
      locked, lockElement := false, null;
    }

    method LockWith(element: Lock) returns (ok: bool)
      modifies this
      ensures ok == !old(locked) && locked
      ensures lockElement == if ok then element else old(lockElement)
    {
      if locked {
        return false;
      }
      lockElement := element;
      locked := true;
      return true;
    }

    method UnlockFrom(element: Lock) returns (ok: bool)
      modifies this
      ensures ok == (old(locked) && old(lockElement) == element)
      ensures locked == (old(locked) && !ok)
      ensures lockElement == if ok then null else old(lockElement)
    {
      if !locked {
        return false;
      }
      if lockElement != element {
        return false;
      }
      Unreference(element);
      locked := false;
      return true;
    }

    /** Forgets the element, but stays locked. */
    method Unreference(element: Lock)
      modifies this
      ensures locked == old(locked)
      ensures lockElement == if old(lockElement) == element then null else old(lockElement)
    {
      if lockElement == element {
        lockElement := null;
      }
    }
  }

  class Lock {
    const id: nat
    const desktop: Desktop
    var outputs: Outputs
    var lockedSent: bool // whether the client was told in the last event

    constructor (id: nat, desktop: Desktop)
      ensures this.id == id && this.desktop == desktop && outputs == [] && !lockedSent
    {
      this.id, this.desktop := id, desktop;
      outputs, lockedSent := [], false;
    }

    method FindOutput(output: nat) returns (i: nat)
      ensures i == Find(outputs, output)
    {
      i := 0;
      while i < |outputs| && outputs[i].id != output
        invariant i <= |outputs|
        invariant i + Find(outputs[i..], output) == Find(outputs, output)
      {
        i := i + 1;
      }
    }

    method OutputCreate(output: nat)
      modifies `outputs
      ensures outputs == Added(old(outputs), output)
    {
      var i := FindOutput(output);
      if i == |outputs| {
        outputs := outputs + [Output(output, None, false, 0)];
      }
    }

    method OutputDestroy(output: nat)
      modifies `outputs
      ensures outputs == Removed(old(outputs), output)
    {
      var i := FindOutput(output);
      if i < |outputs| {
        outputs := outputs[..i] + outputs[i + 1..];
      }
    }

    /** Takes a surface for a tracked output that has none; other requests are refused. */
    method HandleNewSurface(output: nat, surface: nat, serial: nat) returns (ok: bool)
      modifies `outputs
      ensures outputs == SurfaceCreated(old(outputs), output, surface, serial)
      ensures ok <==> outputs != old(outputs)
    {
      var i := FindOutput(output);
      if i == |outputs| {
        return false;
      }
      if outputs[i].surface.Some? {
        return false;
      }
      var o := outputs[i].(surface := Some(surface), serial := serial);
      assert outputs[i := o][i] != outputs[i];
      outputs := outputs[i := o];
      return true;
    }

    method SurfaceDestroy(output: nat)
      modifies `outputs
      ensures outputs == SurfaceDestroyed(old(outputs), output)
    {
      var i := FindOutput(output);
      if i < |outputs| {
        outputs := outputs[i := outputs[i].(surface := None, committed := false)];
      }
    }

    method AllCovered() returns (all: bool)
      ensures all <==> forall i :: 0 <= i < |outputs| ==> outputs[i].Covered()
    {
      for i := 0 to |outputs|
        invariant forall j :: 0 <= j < i ==> outputs[j].Covered()
      {
        if !outputs[i].Covered() {
          return false;
        }
      }
      return true;
    }

    /** Locks the desktop once all outputs are covered, and confirms to the client. */
    method LockIfReady()
      modifies desktop, `lockedSent
      ensures lockedSent == (Ready(outputs) && !old(desktop.locked))
      ensures desktop.locked == (old(desktop.locked) || lockedSent)
      ensures desktop.lockElement == if lockedSent then this else old(desktop.lockElement)
    {
      lockedSent := false;
      if |outputs| == 0 {
        return;
      }
      var all := AllCovered();
      if !all {
        return;
      }
      if desktop.locked {
        return;
      }
      var ok := desktop.LockWith(this);
      if !ok {
        return;
      }
      lockedSent := true;
    }

    /** A commit of the output's lock surface. */
    method HandleSurfaceCommit(output: nat, ack: nat)
      modifies desktop, `outputs, `lockedSent
      ensures outputs == SurfaceCommitted(old(outputs), output, ack)
      ensures lockedSent == (Counts(old(outputs), output, ack) && Ready(outputs) && !old(desktop.locked))
      ensures desktop.locked == (old(desktop.locked) || lockedSent)
      ensures desktop.lockElement == if lockedSent then this else old(desktop.lockElement)
    {
      lockedSent := false;
      var i := FindOutput(output);
      if i < |outputs| && outputs[i].surface.Some? && ack >= outputs[i].serial {
        outputs := outputs[i := outputs[i].(committed := true)];
        LockIfReady();
      }
    }
  }

  /** All locks of a session, by number, with the confirmations sent. */
  class Server {
    const desktop: Desktop
    var locks: map<nat, Lock>
    var confirmed: seq<nat>

    ghost predicate Valid()
      reads this, desktop, locks.Values
    {
      && (forall k :: k in locks ==> locks[k].id == k && locks[k].desktop == desktop)
      && (desktop.lockElement != null ==>
            desktop.lockElement.id in locks && locks[desktop.lockElement.id] == desktop.lockElement)
    }

    ghost function Abs(): S.State
      requires Valid()
      reads this, desktop, locks.Values
    {
      S.State(S.Desktop(desktop.locked, if desktop.lockElement == null then None else Some(desktop.lockElement.id)),
              map k | k in locks :: locks[k].outputs,
              confirmed)
    }

    constructor ()
      ensures Valid() && Abs() == S.START && fresh(desktop)
    {
      desktop := new Desktop();
      locks, confirmed := map[], [];
    }

    ghost predicate Has(lock: Lock)
      reads this
    {
      lock.id in locks && locks[lock.id] == lock
    }

    method HandleNewLock(id: nat)
      requires Valid()
      modifies `locks
      ensures Valid() && Abs() == S.Step(old(Abs()), S.NewLock(id))
    {
      if id !in locks {
        var lock := new Lock(id, desktop);
        locks := locks[id := lock];
      }
    }

    method HandleOutputAdded(lock: Lock, output: nat)
      requires Valid() && Has(lock)
      modifies lock`outputs
      ensures Valid() && Abs() == S.Step(old(Abs()), S.OutputAdded(lock.id, output))
    {
      lock.OutputCreate(output);
    }

    method HandleOutputRemoved(lock: Lock, output: nat)
      requires Valid() && Has(lock)
      modifies lock`outputs
      ensures Valid() && Abs() == S.Step(old(Abs()), S.OutputRemoved(lock.id, output))
    {
      lock.OutputDestroy(output);
    }

    method HandleNewSurface(lock: Lock, output: nat, surface: nat, serial: nat)
      requires Valid() && Has(lock)
      modifies lock`outputs
      ensures Valid() && Abs() == S.Step(old(Abs()), S.NewSurface(lock.id, output, surface, serial))
    {
      var ok := lock.HandleNewSurface(output, surface, serial);
    }

    method HandleSurfaceGone(lock: Lock, output: nat)
      requires Valid() && Has(lock)
      modifies lock`outputs
      ensures Valid() && Abs() == S.Step(old(Abs()), S.SurfaceGone(lock.id, output))
    {
      lock.SurfaceDestroy(output);
    }

    method HandleSurfaceCommit(lock: Lock, output: nat, ack: nat)
      requires Valid() && Has(lock)
      modifies `confirmed, desktop, lock`outputs, lock`lockedSent
      ensures Valid() && Abs() == S.Step(old(Abs()), S.SurfaceCommit(lock.id, output, ack))
    {
      lock.HandleSurfaceCommit(output, ack);
      assert Abs().locks == old(Abs().locks)[lock.id := SurfaceCommitted(old(lock.outputs), output, ack)];
      if lock.lockedSent {
        confirmed := confirmed + [lock.id];
      }
    }

    method HandleUnlock(lock: Lock)
      requires Valid() && Has(lock)
      modifies desktop
      ensures Valid() && Abs() == S.Step(old(Abs()), S.Unlock(lock.id))
    {
      var ok := desktop.UnlockFrom(lock);
    }

    method HandleDestroy(lock: Lock)
      requires Valid() && Has(lock)
      modifies `locks, desktop
      ensures Valid() && Abs() == S.Step(old(Abs()), S.Destroy(lock.id))
    {
      desktop.Unreference(lock);
      locks := locks - {lock.id};
    }

    /** Dispatches one protocol event. */
    method Handle(e: S.Event)
      requires Valid()
      modifies this, desktop, locks.Values
      ensures Valid()
      ensures Abs() == S.Step(old(Abs()), e)
    {
      if e.NewLock? {
        HandleNewLock(e.lock);
        return;
      }
      if e.lock !in locks {
        return;
      }
      var lock := locks[e.lock];
      match e {
        case OutputAdded(_, output) => HandleOutputAdded(lock, output);
        case OutputRemoved(_, output) => HandleOutputRemoved(lock, output);
        case NewSurface(_, output, surface, serial) => HandleNewSurface(lock, output, surface, serial);
        case SurfaceGone(_, output) => HandleSurfaceGone(lock, output);
        case SurfaceCommit(_, output, ack) => HandleSurfaceCommit(lock, output, ack);
        case Unlock(_) => HandleUnlock(lock);
        case Destroy(_) => HandleDestroy(lock);
      }
    }
  }
}
