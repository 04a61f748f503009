/** The outputs a session lock must cover, and what happens to their lock surfaces
    (`src/lock_mgr.c`). */
module LockOutputs {
  import opened Options

  /** One output of the lock's list; `serial` is that of the configure sent when the surface
      was created. */
  datatype Output = Output(id: nat, surface: Option<nat>, committed: bool, serial: nat) {
    predicate Covered() {
      surface.Some? && committed
    }
  }

  type Outputs = seq<Output>

  ghost predicate WellFormed(outputs: Outputs) {
    && (forall i, j :: 0 <= i < j < |outputs| ==> outputs[i].id != outputs[j].id)
    && (forall i :: 0 <= i < |outputs| && outputs[i].committed ==> outputs[i].surface.Some?)
  }

  /** Position of an output, or the length of the list. */
  function Find(outputs: Outputs, id: nat): (i: nat)
    ensures i <= |outputs|
    ensures i < |outputs| ==> outputs[i].id == id
    ensures forall j :: 0 <= j < i ==> outputs[j].id != id
  {
    if outputs == [] || outputs[0].id == id then 0 else 1 + Find(outputs[1..], id)
  }

  function Added(outputs: Outputs, id: nat): Outputs {
    if Find(outputs, id) < |outputs| then outputs else outputs + [Output(id, None, false, 0)]
  }

  function Removed(outputs: Outputs, id: nat): Outputs {
    var i := Find(outputs, id);
    if i == |outputs| then outputs else outputs[..i] + outputs[i + 1..]
  }

  /** A new surface is taken only by a known output that has none. */
  function SurfaceCreated(outputs: Outputs, id: nat, surface: nat, serial: nat): Outputs {
    var i := Find(outputs, id);
    if i == |outputs| || outputs[i].surface.Some? then outputs
    else outputs[i := outputs[i].(surface := Some(surface), serial := serial)]
  }

  function SurfaceDestroyed(outputs: Outputs, id: nat): Outputs {
    var i := Find(outputs, id);
    if i == |outputs| then outputs else outputs[i := outputs[i].(surface := None, committed := false)]
  }

  /** Whether a commit acknowledging `ack` counts: there is a surface, and the client has seen
      the configure sent at its creation. */
  predicate Counts(outputs: Outputs, id: nat, ack: nat) {
    var i := Find(outputs, id);
    i < |outputs| && outputs[i].surface.Some? && ack >= outputs[i].serial
  }

  function SurfaceCommitted(outputs: Outputs, id: nat, ack: nat): Outputs {
    if Counts(outputs, id, ack) then outputs[Find(outputs, id) := outputs[Find(outputs, id)].(committed := true)]
    else outputs
  }

  predicate Ready(outputs: Outputs) {
    outputs != [] && forall i :: 0 <= i < |outputs| ==> outputs[i].Covered()
  }

  // ---------- Well-formedness ----------

  lemma AddedWellFormed(outputs: Outputs, id: nat)
    requires WellFormed(outputs)
    ensures WellFormed(Added(outputs, id))
  {
  }

  lemma RemovedWellFormed(outputs: Outputs, id: nat)
    requires WellFormed(outputs)
    ensures WellFormed(Removed(outputs, id))
  {
    var i, removed := Find(outputs, id), Removed(outputs, id);
    if i < |outputs| {
      assert forall k :: 0 <= k < |removed| ==> removed[k] == outputs[if k < i then k else k + 1];
    }
  }

  /** Changing one output, but not its id, and leaving no commit without a surface. */
  lemma ChangedWellFormed(outputs: Outputs, i: nat, o: Output)
    requires WellFormed(outputs) && i < |outputs|
    requires o.id == outputs[i].id && (o.committed ==> o.surface.Some?)
    ensures WellFormed(outputs[i := o])
  {
  }

  // ---------- Where outputs come from ----------

  lemma RemovedIsGone(outputs: Outputs, id: nat)
    requires WellFormed(outputs)
    ensures forall o :: o in Removed(outputs, id) ==> o in outputs && o.id != id
  {
    var i := Find(outputs, id);
    if i < |outputs| {
      forall o | o in Removed(outputs, id)
        ensures o in outputs && o.id != id
      {
        var k :| 0 <= k < |Removed(outputs, id)| && Removed(outputs, id)[k] == o;
        assert o == outputs[if k < i then k else k + 1];
      }
    }
  }

  lemma SurfaceIsGone(outputs: Outputs, id: nat)
    requires WellFormed(outputs)
    ensures forall o :: o in SurfaceDestroyed(outputs, id) && o.surface.Some? ==> o in outputs && o.id != id
  {
    var k, after := Find(outputs, id), SurfaceDestroyed(outputs, id);
    forall o | o in after && o.surface.Some?
      ensures o in outputs && o.id != id
    {
      var i :| 0 <= i < |after| && after[i] == o;
      assert i != k && outputs[i] == o;
    }
  }

  /** An output was there before a new surface came, or has that surface. */
  lemma NewSurfaceOrOld(outputs: Outputs, id: nat, surface: nat, serial: nat, o: Output)
    requires o in SurfaceCreated(outputs, id, surface, serial)
    ensures o in outputs || (o.id == id && o.surface == Some(surface) && o.serial == serial)
  {
    var after := SurfaceCreated(outputs, id, surface, serial);
    var i :| 0 <= i < |after| && after[i] == o;
    assert outputs[i] in outputs;
  }

  /** A committed output was there before a new surface came. */
  lemma NewIsUncommitted(outputs: Outputs, id: nat, surface: nat, serial: nat, o: Output)
    requires WellFormed(outputs) && o in SurfaceCreated(outputs, id, surface, serial) && o.committed
    ensures o in outputs
  {
    var after := SurfaceCreated(outputs, id, surface, serial);
    var i :| 0 <= i < |after| && after[i] == o;
    assert outputs[i].committed;
  }

  /** A committed output was committed before, or is the one a counting commit is for. */
  lemma CommittedBefore(outputs: Outputs, id: nat, ack: nat, o: Output)
    requires o in SurfaceCommitted(outputs, id, ack)
    ensures || o in outputs
            || (o.id == id && ack >= o.serial && o.(committed := false) in outputs)
  {
    var after := SurfaceCommitted(outputs, id, ack);
    var i :| 0 <= i < |after| && after[i] == o;
    assert outputs[i] in outputs;
  }
}
