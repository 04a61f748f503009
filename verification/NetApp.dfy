/** The whole network graph: the source object driving the graph object, tick by tick
    (`apps/wlmnetgraph.c`, `apps/wlm_graph_shared.c`). */
module NetApp {
  import opened GraphTypes
  import opened GraphSteps
  import opened GraphEngine
  import opened NetRates
  import opened NetEngine
  import opened Options
  import NetAlignment

  /** Both objects are in the state the model's session is in. */
  ghost predicate InState(gs: GraphState, net: NetState, j: NetAlignment.Joint)
    reads gs, gs.prev, gs.next, gs.values, gs.peaks, gs.pixels, net, net.history
  {
    && gs.Valid() && net.Valid()
    && gs.State() == j.graph
    && net.State() == j.net
  }

  /** Collects the values of all samples but the oldest, newest first. */
  method OlderSamples(gs: GraphState) returns (samples: array<Values>)
    requires gs.Valid() && gs.cfg.w >= 2
    ensures fresh(samples) && samples[..] == gs.State().window[..gs.cfg.w - 1]
  {
    samples := new Values[gs.cfg.w - 1];
    var sample := gs.current;
    for i := 0 to samples.Length
      invariant sample == gs.Back(gs.current, i)
      invariant forall k :: 0 <= k < i ==> samples[k] == gs.WindowFrom(gs.current)[k]
    {
      samples[i] := gs.values[sample];
      sample := gs.prev[sample];
    }
  }

  /** The samples a regeneration rewrites have their three bytes. */
  ghost predicate Buffered(net: Net, window: seq<Values>) {
    forall i :: 0 <= i < |window| - 1 && i + 1 < |net.history| ==> |window[i]| == 3
  }

  /** Redraws the older samples in place. */
  method RedrawSamples(net: NetState, samples: array<Values>, ghost after: Net, ghost window: seq<Values>)
    requires net.Valid() && net.State() == after && after.peak > 0
    requires |window| > 0 && samples[..] == window[..|window| - 1] && Buffered(after, window)
    modifies samples
    ensures samples[..] == Regenerated(after, window[..|window| - 1])
  {
    assert forall i :: 0 <= i < samples.Length ==> samples[i] == samples[..][i] == window[i];
    net.RegenerateSamples(samples);
  }

  /** A successful read; when the scale changed, the older samples are redrawn. */
  method ReadSource(net: NetState, samples: array<Values>, rx: nat, tx: nat,
                    ghost o: ReadOutcome, ghost window: seq<Values>)
      returns (r: Reading)
    requires net.Valid() && o == Read(net.State(), rx, tx) && o.net.peak > 0
    requires (samples as object) !in {net as object, net.history}
    requires |window| > 0 && samples[..] == window[..|window| - 1] && Buffered(o.net, window)
    modifies net, net.history, samples
    ensures net.Valid() && net.State() == o.net
    ensures r == NetAlignment.Told(o, window)
  {
    var vs, regenerate := net.StatsRead(rx, tx);
    if regenerate {
      RedrawSamples(net, samples, o.net, window);
      r := ReadRegenerate(vs, samples[..]);
    } else {
      r := ReadOk(vs);
    }
  }

  lemma ReadyToRedraw(net: Net, window: seq<Values>, rates: seq<Rate>, shown: seq<Option<NetAlignment.Peak>>,
                      rx: nat, tx: nat)
    requires |window| > 0 && NetAlignment.Aligned(net, window, rates, shown)
    ensures Buffered(Read(net, rx, tx).net, window) && Read(net, rx, tx).net.peak > 0
  {
    NetAlignment.RegenerationAligned(net, window, rates, shown, rx, tx);
  }

  /** What the source tells the graph about one tick. */
  method ReadTick(gs: GraphState, net: NetState, t: NetAlignment.Tick, ghost j: NetAlignment.Joint) returns (r: Reading)
    requires InState(gs, net, j) && gs.cfg.w >= 2 && NetAlignment.Aligned(j.net, j.graph.window, j.rates, j.shown)
    modifies net, net.history
    ensures net.Valid() && net.State() == (if t.Totals? then Read(j.net, t.rx, t.tx).net else j.net)
    ensures r == NetAlignment.ReadingOf(j.net, j.graph.window, t)
  {
    if t.Failed? {
      return ReadError;
    }
    if t.Resized? {
      return Redraw;
    }
    ReadyToRedraw(j.net, j.graph.window, j.rates, j.shown, t.rx, t.tx);
    var samples := OlderSamples(gs);
    r := ReadSource(net, samples, t.rx, t.tx, Read(j.net, t.rx, t.tx), j.graph.window);
  }

  method Tick(gs: GraphState, net: NetState, t: NetAlignment.Tick, ghost j: NetAlignment.Joint)
    requires InState(gs, net, j) && gs.cfg.w >= 2 && NetAlignment.Aligned(j.net, j.graph.window, j.rates, j.shown)
    modifies gs, gs.pixels, gs.rowCounts, gs.values, gs.peaks, net, net.history
    ensures InState(gs, net, NetAlignment.Tock(gs.cfg, j, t))
  {
    var r := ReadTick(gs, net, t, j);
    TockIs(gs.cfg, j, t, r);
    DrawTick(gs, net, r, j, NetAlignment.Tock(gs.cfg, j, t));
  }

  lemma TockIs(cfg: Config, j: NetAlignment.Joint, t: NetAlignment.Tick, r: Reading)
    requires cfg.Valid() && cfg.w >= 2 && Shaped(cfg, j.graph)
    requires r == NetAlignment.ReadingOf(j.net, j.graph.window, t)
    ensures Fits(cfg, r)
    ensures var after := NetAlignment.Tock(cfg, j, t);
            && after.graph == Step(cfg, j.graph, r)
            && after.net == if t.Totals? then Read(j.net, t.rx, t.tx).net else j.net
  {
  }

  /** Draws what the source, already in its next state, has told. */
  method DrawTick(gs: GraphState, net: NetState, r: Reading,
                  ghost j: NetAlignment.Joint, ghost after: NetAlignment.Joint)
    requires gs.Valid() && net.Valid() && Fits(gs.cfg, r) && net.State() == after.net
    requires gs.State() == j.graph && after.graph == Step(gs.cfg, j.graph, r)
    modifies gs, gs.pixels, gs.rowCounts, gs.values, gs.peaks
    ensures InState(gs, net, after)
  {
    gs.Handle(r);
  }

  /** From priming the counters through all ticks, the objects follow the model's session. */
  method RunSession(cfg: Config, totalRx: nat, totalTx: nat, ticks: seq<NetAlignment.Tick>)
      returns (gs: GraphState, net: NetState)
    requires cfg.Valid() && cfg.w >= 2
    ensures fresh(gs) && fresh(net) && gs.cfg == cfg
    ensures InState(gs, net, NetAlignment.Session(cfg, Primed(totalRx, totalTx), ticks))
  {
    ghost var start := Primed(totalRx, totalTx);
    gs := new GraphState(cfg);
    net := new NetState(totalRx, totalTx);
    assert ticks[..0] == [];
    for i := 0 to |ticks|
      invariant fresh(gs) && gs.cfg == cfg
      invariant fresh(gs.prev) && fresh(gs.next) && fresh(gs.values) && fresh(gs.peaks)
      invariant fresh(gs.rowCounts) && fresh(gs.pixels)
      invariant fresh(net) && fresh(net.history)
      invariant InState(gs, net, NetAlignment.Session(cfg, start, ticks[..i]))
    {
      NetAlignment.SessionAligned(cfg, start, ticks[..i]);
      Tick(gs, net, ticks[i], NetAlignment.Session(cfg, start, ticks[..i]));
      assert ticks[..i + 1][..i] == ticks[..i];
    }
    assert ticks[..|ticks|] == ticks;
  }
}
