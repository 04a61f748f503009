/** The hot corner as an object, acting on an idle monitor (`src/corner.c`). */
module CornerEngine {
  import opened HotCorner
  import opened IdleMonitor
  import opened Options
  import S = InhibitSession

  class CornerWatch {
    const config: HotCorner.Config
    const monitor: Monitor
    var extents: Box
    var pointer: Point
    var corner: Option<Corner>
    var triggered: bool
    var deadline: Option<nat>
    var firings: seq<Firing>

    ghost function Settings(): S.Config {
      S.Config(config, monitor.delay)
    }

    ghost function Abs(): S.State
      reads this, monitor
    {
      S.State(Tracker(extents, pointer, corner, triggered, deadline), monitor.Abs(), firings)
    }

    constructor (config: HotCorner.Config, idleDelay: nat, extents: Box, pointer: Point, now: nat)
      ensures this.config == config && monitor.delay == idleDelay && fresh(monitor)
      ensures Abs() == S.Start(S.Config(config, idleDelay), extents, pointer, now)
    {
      this.config := config;
      this.monitor := new Monitor(idleDelay, now);
      this.extents, this.pointer := extents, pointer;
      corner, triggered, deadline, firings := None, false, None, [];
      new;
      Evaluate(now, false);
    }

    method Clear(lockable: bool)
      modifies this, monitor
      ensures Abs() == S.Perform(Settings(), old(Abs()), Cleared(old(Abs().tracker)), lockable)
    {
      if corner == None {
        return;
      }
      deadline := None;
      if triggered {
        var action := NoAction;
        match corner.value {
          case TOP_LEFT => action := config.topLeft.leave;
          case TOP_RIGHT => action := config.topRight.leave;
          case BOTTOM_LEFT => action := config.bottomRight.leave;
          case BOTTOM_RIGHT => action := config.bottomLeft.leave;
        }
        monitor.Execute(action, lockable);
        firings := firings + [Leave(corner.value)];
        triggered := false;
      }
      corner := None;
    }

    method Occupy(position: Corner, now: nat, lockable: bool)
      modifies this, monitor
      ensures Abs() == S.Perform(Settings(), old(Abs()), Occupied(config, old(Abs().tracker), position, now), lockable)
    {
      if corner == Some(position) {
        return;
      }
      if corner != None {
        Clear(lockable);
      }
      corner := Some(position);
      deadline := Deadline(now, config.delay);
    }

    method Evaluate(now: nat, lockable: bool)
      modifies this, monitor
      ensures Abs() == S.Perform(Settings(), old(Abs()), Evaluated(config, old(Abs().tracker), now), lockable)
    {
      if 0 >= extents.width || 0 >= extents.height {
        Clear(lockable);
        return;
      }
      var horizontal: Option<Edge>, vertical: Option<Edge> := None, None;
      if pointer.x == extents.x {
        horizontal := Some(NEAR);
      } else if pointer.x >= extents.x + extents.width - 1 {
        horizontal := Some(FAR);
      }
      if pointer.y == extents.y {
        vertical := Some(NEAR);
      } else if pointer.y >= extents.y + extents.height - 1 {
        vertical := Some(FAR);
      }
      match (vertical, horizontal) {
        case (Some(NEAR), Some(NEAR)) => Occupy(TOP_LEFT, now, lockable);
        case (Some(NEAR), Some(FAR)) => Occupy(TOP_RIGHT, now, lockable);
        case (Some(FAR), Some(NEAR)) => Occupy(BOTTOM_LEFT, now, lockable);
        case (Some(FAR), Some(FAR)) => Occupy(BOTTOM_RIGHT, now, lockable);
        case _ => Clear(lockable);
      }
    }

    method UpdateLayout(extents: Box, now: nat, lockable: bool)
      modifies this, monitor
      ensures Abs() == S.Perform(Settings(), old(Abs()), Relaid(config, old(Abs().tracker), extents, now), lockable)
    {
      this.extents := extents;
      Evaluate(now, lockable);
    }

    method HandlePositionUpdated(pointer: Point, now: nat, lockable: bool)
      modifies this, monitor
      ensures Abs() == S.Perform(Settings(), old(Abs()), Moved(config, old(Abs().tracker), pointer, now), lockable)
    {
      if this.pointer == pointer {
        return;
      }
      this.pointer := pointer;
      Evaluate(now, lockable);
    }

    method HandleTimer(lockable: bool)
      modifies this, monitor
      ensures Abs() == S.Perform(Settings(), old(Abs()), TimerRan(old(Abs().tracker)), lockable)
    {
      deadline := None;
      triggered := true;
      if corner != None {
        var action := NoAction;
        match corner.value {
          case TOP_LEFT => action := config.topLeft.enter;
          case TOP_RIGHT => action := config.topRight.enter;
          case BOTTOM_LEFT => action := config.bottomRight.enter;
          case BOTTOM_RIGHT => action := config.bottomLeft.enter;
        }
        monitor.Execute(action, lockable);
        firings := firings + [Enter(corner.value)];
      }
    }

    /** Dispatches one event; timers fire only when due. */
    method Handle(i: S.Input)
      modifies this, monitor
      ensures Abs() == S.Step(Settings(), old(Abs()), i)
    {
      if monitor.aborted {
        return;
      }
      match i.event {
        case PointerMoved(pointer) => HandlePositionUpdated(pointer, i.time, i.lockable);
        case LayoutChanged(extents) => UpdateLayout(extents, i.time, i.lockable);
        case CornerTimer =>
          if Due(deadline, i.time) {
            HandleTimer(i.lockable);
          }
        case IdleTimer =>
          if Due(monitor.deadline, i.time) {
            monitor.HandleTimer(i.lockable);
          }
        case Activity => monitor.ResetTimer(i.time);
        case DesktopUnlocked => monitor.HandleUnlock(i.time);
        case NewInhibitor(id) => monitor.AddInhibitor(id);
        case InhibitorGone(id) => monitor.HandleDestroyInhibitor(id, i.lockable);
        case KeyAction(action) => monitor.Execute(action, i.lockable);
      }
    }
  }
}
