/** Configuring an XDG toplevel (`src/xdg_toplevel.c`): properties wait until the client's
    first commit, and size requests wait until the client has caught up with the last one. */
module XdgToplevel {
  import opened Options

  datatype Property = MAXIMIZED | FULLSCREEN | SIZE | ACTIVATED

  datatype Size = Size(width: int, height: int) {
    predicate IsEmpty() { width == 0 || height == 0 }
  }

  /** Pending properties: which bits are set, and a value for each. */
  datatype Pending = Pending(bits: set<Property>, maximized: bool, fullscreen: bool, size: Size, activated: bool)

  /** What is sent to the client. */
  datatype Message =
    | SetMaximized(maximized: bool)
    | SetFullscreen(fullscreen: bool)
    | SetSize(size: Size, serial: nat)
    | SetActivated(activated: bool)
    | ScheduleConfigure

  /** A surface commit, with what the client has made of itself, a request of the window, or a
      (un)map of the surface.  What the toolkit requests in response to a commit, it requests
      at the end of its handling: those requests are further events. */
  datatype Event =
    | Commit(initial: bool, ack: nat, size: Size, fullscreen: bool, maximized: bool)
    | RequestSize(size: Size)
    | RequestFullscreen(fullscreen: bool)
    | RequestMaximized(maximized: bool)
    | Activate(activated: bool)
    | Map
    | Unmap

  /** An event with the toolkit state it meets: whether the surface is initialized, and the
      serial the next size configure would get. */
  datatype Input = Input(event: Event, initialized: bool, serial: nat)

  /** The window: its committed size, whether it is on a workspace, and the states it shows. */
  datatype Window = Window(size: Size, placed: bool, fullscreen: bool, maximized: bool)

  datatype State = State(committedSerial: nat, setSizeSerial: nat, pending: Pending, mapped: bool, window: Window)

  datatype Outcome = Outcome(state: State, sent: seq<Message>)

  const START :=
    State(0, 0, Pending({}, false, false, Size(0, 0), false), false, Window(Size(0, 0), false, false, false))

  // ---------- One event ----------

  /** Messages for the pending properties, in sending order. */
  function Messages(p: Pending, serial: nat): seq<Message> {
    (if MAXIMIZED in p.bits then [SetMaximized(p.maximized)] else []) +
    (if FULLSCREEN in p.bits then [SetFullscreen(p.fullscreen)] else []) +
    (if SIZE in p.bits then [SetSize(p.size, serial)] else []) +
    (if ACTIVATED in p.bits then [SetActivated(p.activated)] else [])
  }

  function Flush(s: State, initialized: bool, serial: nat): Outcome {
    if !initialized then Outcome(s, [])
    else
      Outcome(s.(setSizeSerial := if SIZE in s.pending.bits then serial else s.setSizeSerial,
                 pending := s.pending.(bits := {})),
              Messages(s.pending, serial))
  }

  /** A mapped window goes on a workspace once it has a size. */
  function PlacedIfReady(w: Window, mapped: bool): Window {
    if !mapped || w.size.IsEmpty() then w else w.(placed := true)
  }

  /** The window takes up the client's state: only one of the two per commit, and maximized only
      on a workspace. */
  function Showing(w: Window, fullscreen: bool, maximized: bool): Window {
    if fullscreen != w.fullscreen then w.(fullscreen := fullscreen)
    else if w.placed then w.(maximized := maximized)
    else w
  }

  /** A size request is ignored until the client has committed the last size. */
  predicate Throttled(s: State) {
    s.setSizeSerial > s.committedSerial
  }

  /** Pending properties once a request is noted. */
  function Noted(p: Pending, e: Event): Pending {
    match e
    case RequestSize(size) => p.(bits := p.bits + {SIZE}, size := size)
    case RequestFullscreen(fullscreen) =>
      p.(bits := p.bits + {FULLSCREEN}, fullscreen := fullscreen,
         maximized := if fullscreen then false else p.maximized)
    case RequestMaximized(maximized) => p.(bits := p.bits + {MAXIMIZED}, maximized := maximized)
    case Activate(activated) => p.(bits := p.bits + {ACTIVATED}, activated := activated)
    case _ => p
  }

  function Step(s: State, i: Input): Outcome {
    match i.event
    case Commit(initial, ack, size, fullscreen, maximized) =>
      var o := if s.pending.bits != {} then Flush(s, i.initialized, i.serial)
               else Outcome(s, if initial then [ScheduleConfigure] else []);
      var window := Showing(PlacedIfReady(s.window.(size := size), s.mapped), fullscreen, maximized);
      Outcome(o.state.(committedSerial := ack, window := window), o.sent)
    case RequestSize(_) =>
      if Throttled(s) then Outcome(s, [])
      else Flush(s.(pending := Noted(s.pending, i.event)), i.initialized, i.serial)
    case RequestFullscreen(_) => Flush(s.(pending := Noted(s.pending, i.event)), i.initialized, i.serial)
    case RequestMaximized(_) => Flush(s.(pending := Noted(s.pending, i.event)), i.initialized, i.serial)
    case Activate(_) => Flush(s.(pending := Noted(s.pending, i.event)), i.initialized, i.serial)
    case Map => Outcome(s.(mapped := true, window := PlacedIfReady(s.window, true)), [])
    case Unmap => Outcome(s.(mapped := false, window := s.window.(placed := false)), [])
  }

  /** State after a whole run. */
  function Run(inputs: seq<Input>): State {
    if inputs == [] then START
    else Step(Run(inputs[..|inputs| - 1]), inputs[|inputs| - 1]).state
  }

  /** What event `k` of a run sends. */
  function SentAt(inputs: seq<Input>, k: nat): seq<Message>
    requires k < |inputs|
  {
    Step(Run(inputs[..k]), inputs[k]).sent
  }

  ghost predicate HasSize(sent: seq<Message>) {
    exists m :: m in sent && m.SetSize?
  }

  ghost predicate SendsSize(inputs: seq<Input>, k: nat)
    requires k < |inputs|
  {
    HasSize(SentAt(inputs, k))
  }

  // ---------- The handlers ----------

  class Toplevel {
    var committedSerial: nat
    var setSizeSerial: nat
    var pending: Pending
    var mapped: bool
    var window: Window
    var sent: seq<Message> // everything sent to the client so far

    ghost function Abs(): State
      reads this
    {
      State(committedSerial, setSizeSerial, pending, mapped, window)
    }

    constructor ()
      ensures Abs() == START && sent == []
    {
      committedSerial, setSizeSerial := 0, 0;
      pending := Pending({}, false, false, Size(0, 0), false);
      mapped, window := false, Window(Size(0, 0), false, false, false);
      sent := [];
    }

    method FlushProperties(initialized: bool, serial: nat)
      modifies `pending, `setSizeSerial, `sent
      ensures Outcome(Abs(), sent) == var o := Flush(old(Abs()), initialized, serial); o.(sent := old(sent) + o.sent)
    {
      if !initialized {
        return;
      }
      ghost var p := pending;
      if MAXIMIZED in pending.bits {
        sent := sent + [SetMaximized(pending.maximized)];
      }
      if FULLSCREEN in pending.bits {
        sent := sent + [SetFullscreen(pending.fullscreen)];
      }
      if SIZE in pending.bits {
        sent := sent + [SetSize(pending.size, serial)];
        setSizeSerial := serial;
      }
      if ACTIVATED in pending.bits {
        sent := sent + [SetActivated(pending.activated)];
      }
      assert sent == old(sent) + Messages(p, serial);
      pending := pending.(bits := {});
    }

    method DoTryMap()
      modifies `window
      ensures window == PlacedIfReady(old(window), mapped)
    {
      if !mapped {
        return;
      }
      if window.size.IsEmpty() {
        return;
      }
      if window.placed {
        return;
      }
      window := window.(placed := true);
    }

    /** Dispatches one event to its handler. */
    method Handle(i: Input)
      modifies this
      ensures Outcome(Abs(), sent) == var o := Step(old(Abs()), i); o.(sent := old(sent) + o.sent)
    {
      match i.event {
        case Commit(initial, ack, size, shown, large) =>
          HandleCommit(initial, ack, size, shown, large, i.initialized, i.serial);
        case RequestSize(size) =>
          if setSizeSerial > committedSerial {
            return;
          }
          pending := pending.(size := size, bits := pending.bits + {SIZE});
          FlushProperties(i.initialized, i.serial);
        case RequestFullscreen(fullscreen) =>
          pending := pending.(bits := pending.bits + {FULLSCREEN}, fullscreen := fullscreen);
          if fullscreen {
            pending := pending.(maximized := false);
          }
          FlushProperties(i.initialized, i.serial);
        case RequestMaximized(maximized) =>
          pending := pending.(bits := pending.bits + {MAXIMIZED}, maximized := maximized);
          FlushProperties(i.initialized, i.serial);
        case Activate(activated) =>
          pending := pending.(bits := pending.bits + {ACTIVATED}, activated := activated);
          FlushProperties(i.initialized, i.serial);
        case Map =>
          mapped := true;
          DoTryMap();
        case Unmap =>
          mapped, window := false, window.(placed := false);
      }
    }

    method HandleCommit(initial: bool, ack: nat, size: Size, currentFullscreen: bool, currentMaximized: bool,
                        initialized: bool, serial: nat)
      modifies this
      ensures Outcome(Abs(), sent) ==
              var commit := Commit(initial, ack, size, currentFullscreen, currentMaximized);
              var o := Step(old(Abs()), Input(commit, initialized, serial));
              o.(sent := old(sent) + o.sent)
    {
      window := window.(size := size);
      Configure(initial, initialized, serial);
      committedSerial := ack;
      DoTryMap();
      CommitStates(currentFullscreen, currentMaximized);
    }

    /** The configure a commit brings about, if any. */
    method Configure(initial: bool, initialized: bool, serial: nat)
      modifies `pending, `setSizeSerial, `sent
      ensures Outcome(Abs(), sent) ==
              var o := if old(pending.bits) != {} then Flush(old(Abs()), initialized, serial)
                       else Outcome(old(Abs()), if initial then [ScheduleConfigure] else []);
              o.(sent := old(sent) + o.sent)
    {
      if pending.bits != {} {
        FlushProperties(initialized, serial);
      } else if initial {
        sent := sent + [ScheduleConfigure];
      }
    }

    method CommitStates(currentFullscreen: bool, currentMaximized: bool)
      modifies `window
      ensures window == Showing(old(window), currentFullscreen, currentMaximized)
    {
      if currentFullscreen != window.fullscreen {
        CommitFullscreen(currentFullscreen);
      } else if currentMaximized != window.maximized {
        CommitMaximized(currentMaximized);
      }
    }

    method CommitFullscreen(fullscreen: bool)
      modifies `window
      ensures window == old(window).(fullscreen := fullscreen)
    {
      if window.fullscreen == fullscreen {
        return;
      }
      window := window.(fullscreen := fullscreen);
    }

    method CommitMaximized(maximized: bool)
      modifies `window
      ensures window == if old(window.placed) then old(window).(maximized := maximized) else old(window)
    {
      if window.maximized == maximized || !window.placed {
        return;
      }
      window := window.(maximized := maximized);
    }
  }

  /** Everything a run sends. */
  function AllSent(inputs: seq<Input>): seq<Message> {
    if inputs == [] then []
    else AllSent(inputs[..|inputs| - 1]) + Step(Run(inputs[..|inputs| - 1]), inputs[|inputs| - 1]).sent
  }

  /** The object, from its creation through all events. */
  method Session(inputs: seq<Input>) returns (t: Toplevel)
    ensures fresh(t) && t.Abs() == Run(inputs) && t.sent == AllSent(inputs)
  {
    t := new Toplevel();
    assert inputs[..0] == [];
    for k := 0 to |inputs|
      invariant fresh(t) && t.Abs() == Run(inputs[..k]) && t.sent == AllSent(inputs[..k])
    {
      assert inputs[..k + 1][..k] == inputs[..k];
      t.Handle(inputs[k]);
    }
    assert inputs[..|inputs|] == inputs;
  }

  // ---------- At most one size configure outstanding ----------

  /** Serials increase, those of one turn of the event loop being the same; clients acknowledge
      only serials of earlier turns, and never go back. */
  ghost predicate Increasing(inputs: seq<Input>) {
    && (forall i :: 0 <= i < |inputs| ==> inputs[i].serial > 0)
    && (forall i, j :: 0 <= i < j < |inputs| ==> inputs[i].serial <= inputs[j].serial)
    && (forall i :: 0 <= i < |inputs| && inputs[i].event.Commit? ==> inputs[i].event.ack < inputs[i].serial)
    && (forall i, j :: 0 <= i < j < |inputs| && inputs[i].event.Commit? && inputs[j].event.Commit? ==>
          inputs[i].event.ack <= inputs[j].event.ack)
  }

  /** A pending size never waits behind an unacknowledged one. */
  predicate SizeGate(s: State) {
    SIZE in s.pending.bits ==> s.setSizeSerial <= s.committedSerial
  }

  /** Whether handling the event sends a size to the client. */
  predicate SizeGoesOut(s: State, i: Input) {
    && i.initialized
    && match i.event
       case RequestSize(_) => !Throttled(s)
       case Map => false
       case Unmap => false
       case _ => SIZE in s.pending.bits
  }

  lemma MessagesSize(p: Pending, serial: nat)
    ensures HasSize(Messages(p, serial)) <==> SIZE in p.bits
  {
    if SIZE in p.bits {
      assert SetSize(p.size, serial) in Messages(p, serial);
    }
  }

  lemma FlushSize(s: State, initialized: bool, serial: nat)
    ensures HasSize(Flush(s, initialized, serial).sent) <==> initialized && SIZE in s.pending.bits
  {
    MessagesSize(s.pending, serial);
  }

  lemma SendsSizeIff(s: State, i: Input)
    ensures HasSize(Step(s, i).sent) <==> SizeGoesOut(s, i)
  {
    match i.event
    case Commit(_, _, _, _, _) =>
      FlushSize(s, i.initialized, i.serial);
    case Map =>
    case Unmap =>
    case _ =>
      FlushSize(s.(pending := Noted(s.pending, i.event)), i.initialized, i.serial);
  }

  /** A size goes out only when the client has caught up, and its serial is then the one
      remembered; otherwise the remembered serial stays. */
  lemma StepGate(s: State, i: Input)
    requires SizeGate(s) && (i.event.Commit? ==> i.event.ack >= s.committedSerial)
    ensures SizeGate(Step(s, i).state)
    ensures SizeGoesOut(s, i) ==> s.setSizeSerial <= s.committedSerial
  {
  }

  // Where the two serials of a reachable state come from.

  function LastAck(inputs: seq<Input>): nat {
    if inputs == [] then 0
    else if inputs[|inputs| - 1].event.Commit? then inputs[|inputs| - 1].event.ack
    else LastAck(inputs[..|inputs| - 1])
  }

  function LastSize(inputs: seq<Input>): nat {
    if inputs == [] then 0
    else if SizeGoesOut(Run(inputs[..|inputs| - 1]), inputs[|inputs| - 1]) then inputs[|inputs| - 1].serial
    else LastSize(inputs[..|inputs| - 1])
  }

  lemma StepSerials(s: State, i: Input)
    ensures var s' := Step(s, i).state;
            && s'.committedSerial == (if i.event.Commit? then i.event.ack else s.committedSerial)
            && s'.setSizeSerial == (if SizeGoesOut(s, i) then i.serial else s.setSizeSerial)
  {
  }

  lemma {:induction false} SerialsAreLast(inputs: seq<Input>)
    ensures Run(inputs).committedSerial == LastAck(inputs)
    ensures Run(inputs).setSizeSerial == LastSize(inputs)
  {
    if inputs != [] {
      var before := inputs[..|inputs| - 1];
      SerialsAreLast(before);
      StepSerials(Run(before), inputs[|inputs| - 1]);
    }
  }

  lemma {:induction false} LastAckIsSome(inputs: seq<Input>) returns (k: nat)
    requires LastAck(inputs) > 0
    ensures k < |inputs| && inputs[k].event.Commit? && inputs[k].event.ack == LastAck(inputs)
  {
    var n := |inputs| - 1;
    if inputs[n].event.Commit? {
      k := n;
    } else {
      k := LastAckIsSome(inputs[..n]);
    }
  }

  lemma {:induction false} LastSizeIsLatest(inputs: seq<Input>, k: nat)
    requires Increasing(inputs) && k < |inputs| && SizeGoesOut(Run(inputs[..k]), inputs[k])
    ensures inputs[k].serial <= LastSize(inputs)
  {
    var n := |inputs| - 1;
    if k < n && !SizeGoesOut(Run(inputs[..n]), inputs[n]) {
      assert inputs[..n][..k] == inputs[..k];
      LastSizeIsLatest(inputs[..n], k);
    }
  }

  lemma {:induction false} RunGate(inputs: seq<Input>)
    requires Increasing(inputs)
    ensures SizeGate(Run(inputs))
  {
    if inputs != [] {
      var n := |inputs| - 1;
      var before := inputs[..n];
      RunGate(before);
      SerialsAreLast(before);
      if inputs[n].event.Commit? && LastAck(before) > 0 {
        var k := LastAckIsSome(before);
        assert inputs[k] == before[k];
      }
      StepGate(Run(before), inputs[n]);
    }
  }

  /** Between any two sizes sent to the client lies a commit that acknowledges at least the
      first one. */
  lemma OneSizeOutstanding(inputs: seq<Input>, i: nat, j: nat) returns (k: nat)
    requires Increasing(inputs) && i < j < |inputs|
    requires SendsSize(inputs, i) && SendsSize(inputs, j)
    ensures i < k < j && inputs[k].event.Commit? && inputs[k].event.ack >= inputs[i].serial
  {
    SendsSizeIff(Run(inputs[..i]), inputs[i]);
    SendsSizeIff(Run(inputs[..j]), inputs[j]);
    assert inputs[..j][..i] == inputs[..i];
    k := AcknowledgedBefore(inputs[..j], inputs[j], i);
  }

  /** The acknowledging commit, for a run that is about to send another size. */
  lemma {:induction false} AcknowledgedBefore(before: seq<Input>, next: Input, i: nat) returns (k: nat)
    requires Increasing(before) && i < |before|
    requires SizeGoesOut(Run(before[..i]), before[i]) && SizeGoesOut(Run(before), next)
    ensures i < k < |before| && before[k].event.Commit? && before[k].event.ack >= before[i].serial
  {
    RunGate(before);
    SerialsAreLast(before);
    LastSizeIsLatest(before, i);
    k := LastAckIsSome(before);
  }

  /** A commit that sends a pending size takes the turn: whatever size the toolkit requests in
      response, for a window now fullscreen or maximized, is dropped.  Otherwise such a request
      is taken exactly when this commit acknowledges the last size. */
  lemma {:induction false} ResponseTakenIff(inputs: seq<Input>, commit: Input)
    requires Increasing(inputs + [commit]) && commit.event.Commit?
    ensures !Throttled(Run(inputs + [commit])) <==>
            !SizeGoesOut(Run(inputs), commit) && LastSize(inputs) <= commit.event.ack
  {
    var all := inputs + [commit];
    assert all[..|inputs|] == inputs && all[|inputs|] == commit;
    StepSerials(Run(inputs), commit);
    SerialsAreLast(inputs);
  }

  // ---------- The states shown ----------

  /** The client's fullscreen state as of its last commit. */
  function LastFullscreen(inputs: seq<Input>): bool {
    if inputs == [] then false
    else if inputs[|inputs| - 1].event.Commit? then inputs[|inputs| - 1].event.fullscreen
    else LastFullscreen(inputs[..|inputs| - 1])
  }

  /** The last commit that found the window fullscreen as it was, and on a workspace once
      handled: what it said of maximized. */
  function LastMaximized(inputs: seq<Input>): bool {
    if inputs == [] then false
    else
      var before, e := inputs[..|inputs| - 1], inputs[|inputs| - 1].event;
      if e.Commit? && e.fullscreen == LastFullscreen(before) && Run(inputs).window.placed then e.maximized
      else LastMaximized(before)
  }

  /** A window always shows the client's last fullscreen state; of its maximized states, the
      last that did not come with a change of fullscreen or before the window was placed. */
  lemma {:induction false} ShowsLastCommitted(inputs: seq<Input>)
    ensures Run(inputs).window.fullscreen == LastFullscreen(inputs)
    ensures Run(inputs).window.maximized == LastMaximized(inputs)
  {
    if inputs != [] {
      ShowsLastCommitted(inputs[..|inputs| - 1]);
      ShowsCommitted(Run(inputs[..|inputs| - 1]), inputs[|inputs| - 1]);
    }
  }

  lemma ShowsCommitted(s: State, i: Input)
    ensures var w, e := Step(s, i).state.window, i.event;
            && w.fullscreen == (if e.Commit? then e.fullscreen else s.window.fullscreen)
            && w.maximized == (if e.Commit? && e.fullscreen == s.window.fullscreen && w.placed then e.maximized
                               else s.window.maximized)
  {
  }

  // ---------- Coalescing ----------

  /** The latest value requested for each property; a later fullscreen request cancels a
      maximize request not yet sent. */
  function LatestMaximized(requests: seq<Event>): Option<bool> {
    if requests == [] then None
    else
      var earlier := LatestMaximized(requests[..|requests| - 1]);
      match requests[|requests| - 1]
      case RequestMaximized(maximized) => Some(maximized)
      case RequestFullscreen(fullscreen) => if fullscreen && earlier.Some? then Some(false) else earlier
      case _ => earlier
  }

  function LatestFullscreen(requests: seq<Event>): Option<bool> {
    if requests == [] then None
    else if requests[|requests| - 1].RequestFullscreen? then Some(requests[|requests| - 1].fullscreen)
    else LatestFullscreen(requests[..|requests| - 1])
  }

  function LatestSize(requests: seq<Event>): Option<Size> {
    if requests == [] then None
    else if requests[|requests| - 1].RequestSize? then Some(requests[|requests| - 1].size)
    else LatestSize(requests[..|requests| - 1])
  }

  function LatestActivated(requests: seq<Event>): Option<bool> {
    if requests == [] then None
    else if requests[|requests| - 1].Activate? then Some(requests[|requests| - 1].activated)
    else LatestActivated(requests[..|requests| - 1])
  }

  predicate IsRequest(e: Event) {
    e.RequestSize? || e.RequestFullscreen? || e.RequestMaximized? || e.Activate?
  }

  /** A request the toplevel takes up: any but a throttled size. */
  predicate Accepted(s: State, e: Event) {
    IsRequest(e) && (e.RequestSize? ==> !Throttled(s))
  }

  /** The event sends out what is pending. */
  predicate Flushes(s: State, i: Input) {
    i.initialized && (Accepted(s, i.event) || (i.event.Commit? && s.pending.bits != {}))
  }

  /** Accepted requests not sent out yet, oldest first. */
  function Open(inputs: seq<Input>): seq<Event> {
    if inputs == [] then []
    else
      var before, i := inputs[..|inputs| - 1], inputs[|inputs| - 1];
      if Flushes(Run(before), i) then [] else WithRequest(Open(before), Run(before), i.event)
  }

  function WithRequest(requests: seq<Event>, s: State, e: Event): seq<Event> {
    if Accepted(s, e) then requests + [e] else requests
  }

  /** The pending record says exactly which properties have open requests, and the latest
      value of each. */
  ghost predicate Summarizes(p: Pending, requests: seq<Event>) {
    && LatestMaximized(requests) == (if MAXIMIZED in p.bits then Some(p.maximized) else None)
    && LatestFullscreen(requests) == (if FULLSCREEN in p.bits then Some(p.fullscreen) else None)
    && LatestSize(requests) == (if SIZE in p.bits then Some(p.size) else None)
    && LatestActivated(requests) == (if ACTIVATED in p.bits then Some(p.activated) else None)
  }

  lemma NotedSummarizes(p: Pending, requests: seq<Event>, e: Event)
    requires Summarizes(p, requests) && IsRequest(e)
    ensures Summarizes(Noted(p, e), requests + [e])
  {
    assert (requests + [e])[..|requests|] == requests;
  }

  lemma EmptySummarizes(p: Pending)
    ensures Summarizes(p.(bits := {}), [])
  {
  }

  /** Nothing is lost: at any time the pending record summarizes all requests accepted since
      the last flush. */
  lemma {:induction false} PendingIsOpen(inputs: seq<Input>)
    ensures Summarizes(Run(inputs).pending, Open(inputs))
  {
    if inputs != [] {
      var before, i := inputs[..|inputs| - 1], inputs[|inputs| - 1];
      var s := Run(before);
      PendingIsOpen(before);
      if Accepted(s, i.event) {
        NotedSummarizes(s.pending, Open(before), i.event);
      }
      if Flushes(s, i) {
        EmptySummarizes(Noted(s.pending, i.event));
      }
    }
  }

  /** The messages for a list of requests: per property, just the latest value. */
  function LatestMessages(requests: seq<Event>, serial: nat): seq<Message> {
    (if LatestMaximized(requests).Some? then [SetMaximized(LatestMaximized(requests).value)] else []) +
    (if LatestFullscreen(requests).Some? then [SetFullscreen(LatestFullscreen(requests).value)] else []) +
    (if LatestSize(requests).Some? then [SetSize(LatestSize(requests).value, serial)] else []) +
    (if LatestActivated(requests).Some? then [SetActivated(LatestActivated(requests).value)] else [])
  }

  lemma SummaryMessages(p: Pending, requests: seq<Event>, serial: nat)
    requires Summarizes(p, requests)
    ensures Messages(p, serial) == LatestMessages(requests, serial)
  {
  }

  lemma {:induction false} FlushedMessages(s: State, i: Input, requests: seq<Event>)
    requires Summarizes(s.pending, requests) && Flushes(s, i)
    ensures Step(s, i).sent == LatestMessages(WithRequest(requests, s, i.event), i.serial)
  {
    if Accepted(s, i.event) {
      NotedSummarizes(s.pending, requests, i.event);
      SummaryMessages(Noted(s.pending, i.event), requests + [i.event], i.serial);
    } else {
      SummaryMessages(s.pending, requests, i.serial);
    }
  }

  lemma NothingAdded(s: State, i: Input)
    requires !Flushes(s, i) && Step(s, i).state.pending.bits == {}
    ensures s.pending.bits == {} && !Accepted(s, i.event)
  {
  }

  /** An empty pending record means no open request. */
  lemma {:induction false} NothingOpen(inputs: seq<Input>)
    requires Run(inputs).pending.bits == {}
    ensures Open(inputs) == []
  {
    if inputs != [] {
      var before, i := inputs[..|inputs| - 1], inputs[|inputs| - 1];
      if !Flushes(Run(before), i) {
        NothingAdded(Run(before), i);
        NothingOpen(before);
      }
    }
  }

  /** Requests are pending exactly while some are open. */
  lemma {:induction false} PendingIff(inputs: seq<Input>)
    ensures Run(inputs).pending.bits == {} <==> Open(inputs) == []
  {
    PendingIsOpen(inputs);
    SomeBitIff(Run(inputs).pending);
    if Run(inputs).pending.bits == {} {
      NothingOpen(inputs);
    }
  }

  lemma SomeBitIff(p: Pending)
    ensures p.bits == {} <==> MAXIMIZED !in p.bits && FULLSCREEN !in p.bits && SIZE !in p.bits && ACTIVATED !in p.bits
  {
    forall b | b in p.bits
      ensures b == MAXIMIZED || b == FULLSCREEN || b == SIZE || b == ACTIVATED
    {
    }
  }

  /** Each flush tells the client, per property, the latest value requested since the last
      flush; a first commit with no request open schedules a configure; nothing else sends. */
  lemma {:induction false} FlushSendsLatest(inputs: seq<Input>, i: Input)
    ensures var s := Run(inputs);
            var sent := Step(s, i).sent;
            && (Flushes(s, i) ==> sent == LatestMessages(WithRequest(Open(inputs), s, i.event), i.serial))
            && (!Flushes(s, i) ==>
                  sent == if i.event.Commit? && i.event.initial && Open(inputs) == [] then [ScheduleConfigure] else [])
  {
    PendingIsOpen(inputs);
    PendingIff(inputs);
    if Flushes(Run(inputs), i) {
      FlushedMessages(Run(inputs), i, Open(inputs));
    }
  }

  /** Nothing stays pending once an initialized surface commits. */
  lemma {:induction false} CommitEmptiesPending(inputs: seq<Input>)
    requires inputs != [] && inputs[|inputs| - 1].event.Commit? && inputs[|inputs| - 1].initialized
    ensures Run(inputs).pending.bits == {} && Open(inputs) == []
  {
    var before := inputs[..|inputs| - 1];
    PendingIsOpen(before);
    if Run(before).pending.bits == {} {
      NothingOpen(before);
    }
  }

  // ---------- Mapping ----------

  /** The window is on a workspace exactly while the surface is mapped and has had a non-empty
      size since. */
  ghost predicate PlacedWhenReady(s: State) {
    (s.window.placed ==> s.mapped) && (s.mapped && !s.window.size.IsEmpty() ==> s.window.placed)
  }

  lemma {:induction false} RunPlacedWhenReady(inputs: seq<Input>)
    ensures PlacedWhenReady(Run(inputs))
  {
    if inputs != [] {
      RunPlacedWhenReady(inputs[..|inputs| - 1]);
    }
  }
}
