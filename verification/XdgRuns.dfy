/** What the requests and commits of a client come to over a whole run: the window's size and
    place, its first configure, and which size requests are sent.  */
module XdgRuns {
  import opened XdgToplevel

  // ---------- The window's size ----------

  /** Size of the last commit. */
  function CommittedSize(inputs: seq<Input>): Size {
    if inputs == [] then Size(0, 0)
    else if inputs[|inputs| - 1].event.Commit? then inputs[|inputs| - 1].event.size
    else CommittedSize(inputs[..|inputs| - 1])
  }

  lemma SizeStep(s: State, i: Input)
    ensures Step(s, i).state.window.size == if i.event.Commit? then i.event.size else s.window.size
  {
  }

  /** The window always has the size last committed. */
  lemma {:induction false} HasCommittedSize(inputs: seq<Input>)
    ensures Run(inputs).window.size == CommittedSize(inputs)
  {
    if inputs != [] {
      HasCommittedSize(inputs[..|inputs| - 1]);
      SizeStep(Run(inputs[..|inputs| - 1]), inputs[|inputs| - 1]);
    }
  }

  // ---------- Its place ----------

  /** Event `m` mapped the surface, which has not been unmapped since. */
  ghost predicate MappedSince(inputs: seq<Input>, m: nat) {
    && m < |inputs|
    && inputs[m].event.Map?
    && forall k :: m < k < |inputs| ==> !inputs[k].event.Unmap?
  }

  ghost predicate CommitsSize(inputs: seq<Input>, k: nat) {
    k < |inputs| && inputs[k].event.Commit? && !inputs[k].event.size.IsEmpty()
  }

  /** At event `m`, or at some commit after it, the window had a size. */
  ghost predicate SizedSince(inputs: seq<Input>, m: nat)
    requires m < |inputs|
  {
    !CommittedSize(inputs[..m]).IsEmpty() || exists k: nat :: m < k && CommitsSize(inputs, k)
  }

  lemma MappedStep(s: State, i: Input)
    ensures Step(s, i).state.mapped == (i.event.Map? || (s.mapped && !i.event.Unmap?))
    ensures Step(s, i).state.window.placed ==
            match i.event
            case Map => s.window.placed || !s.window.size.IsEmpty()
            case Unmap => false
            case Commit(_, _, size, _, _) => s.window.placed || (s.mapped && !size.IsEmpty())
            case _ => s.window.placed
  {
  }

  lemma MappedBefore(inputs: seq<Input>, m: nat)
    requires inputs != []
    ensures MappedSince(inputs, m) <==>
            if m == |inputs| - 1 then inputs[m].event.Map?
            else MappedSince(inputs[..|inputs| - 1], m) && !inputs[|inputs| - 1].event.Unmap?
  {
    var before := inputs[..|inputs| - 1];
    if m < |before| {
      assert forall k :: 0 <= k < |before| ==> before[k] == inputs[k];
      assert MappedSince(inputs, m) ==> !inputs[|inputs| - 1].event.Unmap?;
    }
  }

  /** A surface is mapped exactly when it was mapped by some event and not unmapped since. */
  lemma {:induction false} MappedIff(inputs: seq<Input>)
    ensures Run(inputs).mapped <==> exists m: nat :: MappedSince(inputs, m)
  {
    if inputs != [] {
      var n := |inputs| - 1;
      var before := inputs[..n];
      MappedIff(before);
      MappedStep(Run(before), inputs[n]);
      if Run(inputs).mapped {
        var m: nat := n;
        if !inputs[n].event.Map? {
          m :| MappedSince(before, m);
        }
        MappedBefore(inputs, m);
      }
      if m: nat :| MappedSince(inputs, m) {
        MappedBefore(inputs, m);
      }
    }
  }

  ghost predicate PlacedSince(inputs: seq<Input>, m: nat) {
    MappedSince(inputs, m) && SizedSince(inputs, m)
  }

  lemma SizedBefore(inputs: seq<Input>, m: nat)
    requires m < |inputs| - 1
    ensures SizedSince(inputs, m) <==> SizedSince(inputs[..|inputs| - 1], m) || CommitsSize(inputs, |inputs| - 1)
  {
    var before := inputs[..|inputs| - 1];
    assert before[..m] == inputs[..m];
    assert forall k :: 0 <= k < |before| ==> (CommitsSize(before, k) <==> CommitsSize(inputs, k));
  }

  lemma SizedNow(inputs: seq<Input>)
    requires inputs != []
    ensures SizedSince(inputs, |inputs| - 1) <==> !CommittedSize(inputs[..|inputs| - 1]).IsEmpty()
  {
  }

  lemma PlacedBefore(inputs: seq<Input>, m: nat)
    requires m < |inputs|
    ensures PlacedSince(inputs, m) <==>
            if m == |inputs| - 1 then inputs[m].event.Map? && !CommittedSize(inputs[..m]).IsEmpty()
            else && MappedSince(inputs[..|inputs| - 1], m) && !inputs[|inputs| - 1].event.Unmap?
                 && (SizedSince(inputs[..|inputs| - 1], m) || CommitsSize(inputs, |inputs| - 1))
  {
    MappedBefore(inputs, m);
    if m < |inputs| - 1 {
      SizedBefore(inputs, m);
    } else {
      SizedNow(inputs);
    }
  }

  /** A window is on a workspace exactly when its surface was mapped, not unmapped since, and
      had a size when mapped or at some commit since. */
  lemma {:induction false} PlacedIff(inputs: seq<Input>)
    ensures Run(inputs).window.placed <==> exists m: nat :: PlacedSince(inputs, m)
  {
    if inputs != [] {
      var n := |inputs| - 1;
      var before := inputs[..n];
      PlacedIff(before);
      MappedIff(before);
      HasCommittedSize(before);
      MappedStep(Run(before), inputs[n]);
      if Run(inputs).window.placed {
        var m := PlacingEvent(inputs);
        assert PlacedSince(inputs, m);
      }
      if m: nat :| PlacedSince(inputs, m) {
        PlacedBefore(inputs, m);
        assert m < n ==> (SizedSince(before, m) ==> PlacedSince(before, m));
      }
    }
  }

  /** An event since which a placed window has been mapped and had a size. */
  lemma PlacingEvent(inputs: seq<Input>) returns (m: nat)
    requires inputs != [] && Run(inputs).window.placed
    requires var before := inputs[..|inputs| - 1];
             && (Run(before).window.placed ==> exists k: nat :: PlacedSince(before, k))
             && (Run(before).mapped ==> exists k: nat :: MappedSince(before, k))
             && Run(before).window.size == CommittedSize(before)
    ensures PlacedSince(inputs, m)
  {
    var n := |inputs| - 1;
    var before := inputs[..n];
    MappedStep(Run(before), inputs[n]);
    if Run(before).window.placed {
      m :| PlacedSince(before, m);
    } else if inputs[n].event.Map? {
      m := n;
    } else {
      m :| MappedSince(before, m);
    }
    PlacedBefore(inputs, m);
  }

  // ---------- The first configure ----------

  lemma MessagesNotEmpty(p: Pending, serial: nat)
    ensures Messages(p, serial) == [] <==> p.bits == {}
  {
    if p.bits != {} {
      var b :| b in p.bits;
      match b
      case MAXIMIZED => assert SetMaximized(p.maximized) in Messages(p, serial);
      case FULLSCREEN => assert SetFullscreen(p.fullscreen) in Messages(p, serial);
      case SIZE => assert SetSize(p.size, serial) in Messages(p, serial);
      case ACTIVATED => assert SetActivated(p.activated) in Messages(p, serial);
    }
  }

  /** The first commit of an initialized surface is always answered with a configure, which the
      client waits for before it maps. */
  lemma InitialCommitConfigures(inputs: seq<Input>, i: Input)
    requires i.event.Commit? && i.event.initial && i.initialized
    ensures Step(Run(inputs), i).sent != []
  {
    MessagesNotEmpty(Run(inputs).pending, i.serial);
  }

  // ---------- Which size requests are sent ----------

  /** Every size sent has been acknowledged by a later commit. */
  ghost predicate AllAcknowledged(inputs: seq<Input>) {
    forall k :: 0 <= k < |inputs| && SendsSize(inputs, k) ==> Acknowledged(inputs, k)
  }

  ghost predicate Acknowledged(inputs: seq<Input>, k: nat)
    requires k < |inputs|
  {
    exists j :: k < j < |inputs| && inputs[j].event.Commit? && inputs[j].event.ack >= inputs[k].serial
  }

  /** The last size sent, if any. */
  lemma {:induction false} LastSizeIsSome(inputs: seq<Input>) returns (k: nat)
    requires LastSize(inputs) > 0
    ensures k < |inputs| && SendsSize(inputs, k) && inputs[k].serial == LastSize(inputs)
  {
    var n := |inputs| - 1;
    if SizeGoesOut(Run(inputs[..n]), inputs[n]) {
      k := n;
      SendsSizeIff(Run(inputs[..n]), inputs[n]);
    } else {
      k := LastSizeIsSome(inputs[..n]);
      assert inputs[..n][..k] == inputs[..k];
    }
  }

  lemma {:induction false} AckAtMostLast(inputs: seq<Input>, j: nat)
    requires Increasing(inputs) && j < |inputs| && inputs[j].event.Commit?
    ensures inputs[j].event.ack <= LastAck(inputs)
  {
    var n := |inputs| - 1;
    if j < n && !inputs[n].event.Commit? {
      AckAtMostLast(inputs[..n], j);
    }
  }

  /** An acknowledgement of a serial comes after the event that sent it. */
  lemma {:induction false} LastAckAcknowledges(inputs: seq<Input>, k: nat)
    requires Increasing(inputs) && k < |inputs| && 0 < inputs[k].serial <= LastAck(inputs)
    ensures Acknowledged(inputs, k)
  {
    var j := LastAckIsSome(inputs);
    assert inputs[k].serial <= inputs[j].event.ack < inputs[j].serial;
  }

  lemma {:induction false} ThrottledIff(inputs: seq<Input>)
    requires Increasing(inputs)
    ensures !Throttled(Run(inputs)) <==> AllAcknowledged(inputs)
  {
    SerialsAreLast(inputs);
    if LastSize(inputs) <= LastAck(inputs) {
      forall k | 0 <= k < |inputs| && SendsSize(inputs, k)
        ensures Acknowledged(inputs, k)
      {
        SendsSizeIff(Run(inputs[..k]), inputs[k]);
        LastSizeIsLatest(inputs, k);
        LastAckAcknowledges(inputs, k);
      }
    } else {
      var k := LastSizeIsSome(inputs);
      forall j | k < j < |inputs| && inputs[j].event.Commit?
        ensures inputs[j].event.ack < inputs[k].serial
      {
        AckAtMostLast(inputs, j);
      }
      assert !Acknowledged(inputs, k);
    }
  }

  /** A size request on an initialized surface is sent at once exactly when every size sent
      before has been acknowledged; else it is dropped. */
  lemma SizeRequestSentIff(inputs: seq<Input>, i: Input)
    requires Increasing(inputs) && i.event.RequestSize? && i.initialized
    ensures SetSize(i.event.size, i.serial) in Step(Run(inputs), i).sent <==> AllAcknowledged(inputs)
    ensures !AllAcknowledged(inputs) ==> Step(Run(inputs), i) == Outcome(Run(inputs), [])
  {
    ThrottledIff(inputs);
    if !Throttled(Run(inputs)) {
      var p := Noted(Run(inputs).pending, i.event);
      assert SetSize(p.size, i.serial) in Messages(p, i.serial);
    }
  }
}
