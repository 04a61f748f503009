/** The network source driving the graph: its rate history and the graph's sample ring stay
    aligned, so regeneration redraws every sample from the reading that produced it. */
module NetAlignment {
  import opened GraphTypes
  import opened GraphSteps
  import opened NetRates
  import opened Options
  import GraphPicture

  /** One timer tick: the parsed totals, or a read error; or a new icon size. */
  datatype Tick = Failed | Totals(rx: nat, tx: nat) | Resized

  type Peak = p: nat | p > 0 witness 1

  /** Source and graph together, with all rates ever measured, newest first, and for each the
      peak its sample was last drawn at, missing once the sample was cleared. */
  datatype Joint = Joint(net: Net, graph: Graph, rates: seq<Rate>, shown: seq<Option<Peak>>)

  /** What the graph is told about a successful read: just the new sample, or, when the scale
      changed, also the regenerated older ones. */
  function Told(o: ReadOutcome, window: seq<Values>): (r: Reading)
    requires |window| > 0 && o.net.peak > 0
  {
    if o.regenerate then ReadRegenerate(o.values, Regenerated(o.net, window[..|window| - 1]))
    else ReadOk(o.values)
  }

  ghost function ReadingOf(net: Net, window: seq<Values>, t: Tick): Reading
    requires |window| > 0
  {
    match t
    case Failed => ReadError
    case Resized => Redraw
    case Totals(rx, tx) => Told(Read(net, rx, tx), window)
  }

  /** A new sample is drawn at the new peak; a regeneration draws all samples at it again, as far
      as the history goes. */
  function NextShown(shown: seq<Option<Peak>>, o: ReadOutcome): (r: seq<Option<Peak>>)
    requires o.net.peak > 0
    ensures |r| == |shown| + 1
  {
    if o.regenerate then seq(|shown| + 1, k => if k < HISTORY_MAX then Some(o.net.peak) else None)
    else [Some(o.net.peak)] + shown
  }

  ghost function Tock(cfg: Config, j: Joint, t: Tick): (j': Joint)
    requires cfg.Valid() && cfg.w >= 2 && Shaped(cfg, j.graph)
    ensures Shaped(cfg, j'.graph)
  {
    var graph := Step(cfg, j.graph, ReadingOf(j.net, j.graph.window, t));
    match t
    case Failed => j.(graph := graph)
    case Resized => j.(graph := graph)
    case Totals(rx, tx) =>
      var o := Read(j.net, rx, tx);
      Joint(o.net, graph, [RateOf(j.net, rx, tx)] + j.rates, NextShown(j.shown, o))
  }

  ghost function Session(cfg: Config, start: Net, ticks: seq<Tick>): (j: Joint)
    requires cfg.Valid() && cfg.w >= 2
    ensures Shaped(cfg, j.graph)
  {
    if ticks == [] then Joint(start, Start(cfg), [], [])
    else Tock(cfg, Session(cfg, start, ticks[..|ticks| - 1]), ticks[|ticks| - 1])
  }

  // ---------- The alignment invariant ----------

  /** The values of the sample `k` steps back: its own reading at the peak it was last drawn
      at, zeros when it was cleared, and blank when there was no such reading. */
  function ShownValues(rates: seq<Rate>, shown: seq<Option<Peak>>, k: nat): Values
    requires |shown| == |rates|
  {
    if k >= |rates| then []
    else
      match shown[k]
      case Some(peak) => Bytes(rates[k], peak)
      case None => [0, 0, 0]
  }

  /** Peak now, against the total measured `k` reads ago. */
  ghost predicate PeakHolds(peak: nat, total: nat, k: nat) {
    Pow(128, k + 1) * peak >= Pow(127, k + 1) * total
  }

  ghost predicate HistoryMatches(history: seq<Rate>, rates: seq<Rate>) {
    && |history| == Min(|rates|, HISTORY_MAX)
    && forall i :: 0 <= i < |history| ==> history[i] == rates[i]
  }

  ghost predicate WindowMatches(window: seq<Values>, rates: seq<Rate>, shown: seq<Option<Peak>>) {
    && |shown| == |rates|
    && (forall k :: 0 <= k < |window| ==> window[k] == ShownValues(rates, shown, k))
  }

  ghost predicate PeakCovers(peak: nat, rates: seq<Rate>) {
    forall k :: 0 <= k < |rates| ==> PeakHolds(peak, rates[k].Total(), k)
  }

  ghost predicate Aligned(net: Net, window: seq<Values>, rates: seq<Rate>, shown: seq<Option<Peak>>) {
    && HistoryMatches(net.history, rates)
    && WindowMatches(window, rates, shown)
    && PeakCovers(net.peak, rates)
  }

  /** What a regenerated window must look like at peak `peak`. */
  ghost predicate Redrawn(window: seq<Values>, rates: seq<Rate>, peak: nat)
    requires peak > 0
  {
    forall k :: 0 <= k < |window| ==>
      window[k] ==
      if k < |rates| && k < HISTORY_MAX then Bytes(rates[k], peak)
      else if k < |rates| then [0, 0, 0]
      else []
  }

  // ---------- One tick ----------

  lemma HistoryTock(history: seq<Rate>, rates: seq<Rate>, r: Rate)
    requires HistoryMatches(history, rates)
    ensures HistoryMatches(Remember(history, r), [r] + rates)
  {
  }

  lemma PeakTock(peak: nat, rates: seq<Rate>, r: Rate)
    requires PeakCovers(peak, rates)
    ensures PeakCovers(NextPeak(peak, r.Total()), [r] + rates)
  {
    var next := NextPeak(peak, r.Total());
    DecayPerRead(peak, r.Total());
    forall k | 0 <= k < |rates| + 1
      ensures PeakHolds(next, ([r] + rates)[k].Total(), k)
    {
      if k == 0 {
        assert Pow(128, 1) == 128 && Pow(127, 1) == 127;
      } else {
        assert PeakHolds(peak, rates[k - 1].Total(), k - 1);
        DecayStep(k, peak, next, rates[k - 1].Total());
      }
    }
  }

  /** Without a scale change the window slides along with the rates. */
  lemma SlideTock(window: seq<Values>, rates: seq<Rate>, shown: seq<Option<Peak>>, r: Rate, peak: Peak)
    requires |window| > 0 && WindowMatches(window, rates, shown)
    ensures WindowMatches([Bytes(r, peak)] + window[..|window| - 1], [r] + rates, [Some(peak)] + shown)
  {
    forall k | 0 <= k < |window|
      ensures ([Bytes(r, peak)] + window[..|window| - 1])[k] == ShownValues([r] + rates, [Some(peak)] + shown, k)
    {
      if k > 0 {
        assert window[k - 1] == ShownValues(rates, shown, k - 1);
      }
    }
  }

  /** With a scale change every remembered sample is redrawn, at the new peak, from the very
      reading that produced it; older ones are cleared and blank ones stay blank.  Every
      buffer written has its three bytes. */
  lemma {:induction false} RegenerationAligned(net: Net, window: seq<Values>, rates: seq<Rate>,
                                               shown: seq<Option<Peak>>, rx: nat, tx: nat)
    requires |window| > 0 && Aligned(net, window, rates, shown)
    ensures var o := Read(net, rx, tx);
            && Redrawn([o.values] + Regenerated(o.net, window[..|window| - 1]),
                       [RateOf(net, rx, tx)] + rates, o.net.peak)
            && forall i :: 0 <= i < |window| - 1 && i + 1 < |o.net.history| ==> |window[i]| == 3
  {
    var r := RateOf(net, rx, tx);
    HistoryTock(net.history, rates, r);
    RedrawnFrom(Read(net, rx, tx).net, window, rates, shown, r);
  }

  lemma RedrawnFrom(net: Net, window: seq<Values>, rates: seq<Rate>, shown: seq<Option<Peak>>, r: Rate)
    requires |window| > 0 && net.peak > 0
    requires WindowMatches(window, rates, shown) && HistoryMatches(net.history, [r] + rates)
    ensures Redrawn([Bytes(r, net.peak)] + Regenerated(net, window[..|window| - 1]), [r] + rates, net.peak)
    ensures forall i :: 0 <= i < |window| - 1 && i + 1 < |net.history| ==> |window[i]| == 3
  {
    var regenerated, rates' := Regenerated(net, window[..|window| - 1]), [r] + rates;
    forall i | 0 <= i < |window| - 1
      ensures regenerated[i] ==
              if i + 1 < |rates'| && i + 1 < HISTORY_MAX then Bytes(rates'[i + 1], net.peak)
              else if i + 1 < |rates'| then [0, 0, 0]
              else []
      ensures i + 1 < |net.history| ==> |window[i]| == 3
    {
      assert window[i] == ShownValues(rates, shown, i);
      if i + 1 < |net.history| {
        assert net.history[i + 1] == rates'[i + 1];
      }
    }
  }

  lemma RedrawnMatches(window: seq<Values>, rates: seq<Rate>, shown: seq<Option<Peak>>, peak: Peak)
    requires Redrawn(window, rates, peak) && |shown| == |rates|
    requires forall k :: 0 <= k < |shown| ==> shown[k] == if k < HISTORY_MAX then Some(peak) else None
    ensures WindowMatches(window, rates, shown)
  {
  }

  /** The window after a read. */
  function NextWindow(window: seq<Values>, o: ReadOutcome): (r: seq<Values>)
    requires |window| > 0 && o.net.peak > 0
    ensures |r| == |window|
  {
    [o.values] +
    if o.regenerate then Regenerated(o.net, window[..|window| - 1]) else window[..|window| - 1]
  }

  lemma {:induction false} ReadAligned(net: Net, window: seq<Values>, rates: seq<Rate>, shown: seq<Option<Peak>>,
                                       rx: nat, tx: nat)
    requires |window| > 0 && Aligned(net, window, rates, shown)
    ensures var o := Read(net, rx, tx);
            Aligned(o.net, NextWindow(window, o), [RateOf(net, rx, tx)] + rates, NextShown(shown, o))
  {
    var r, o := RateOf(net, rx, tx), Read(net, rx, tx);
    HistoryTock(net.history, rates, r);
    PeakTock(net.peak, rates, r);
    RegenerationAligned(net, window, rates, shown, rx, tx);
    WindowTock(window, rates, shown, r, o);
  }

  lemma WindowTock(window: seq<Values>, rates: seq<Rate>, shown: seq<Option<Peak>>, r: Rate, o: ReadOutcome)
    requires |window| > 0 && o.net.peak > 0 && o.values == Bytes(r, o.net.peak)
    requires WindowMatches(window, rates, shown)
    requires o.regenerate ==> Redrawn(NextWindow(window, o), [r] + rates, o.net.peak)
    ensures WindowMatches(NextWindow(window, o), [r] + rates, NextShown(shown, o))
  {
    if o.regenerate {
      RedrawnMatches(NextWindow(window, o), [r] + rates, NextShown(shown, o), o.net.peak);
    } else {
      SlideTock(window, rates, shown, r, o.net.peak);
    }
  }

  lemma ToldWindow(cfg: Config, g: Graph, o: ReadOutcome)
    requires cfg.Valid() && cfg.w >= 2 && Shaped(cfg, g) && o.net.peak > 0
    ensures Step(cfg, g, Told(o, g.window)).window == NextWindow(g.window, o)
  {
  }

  lemma {:induction false} TockAligned(cfg: Config, j: Joint, t: Tick)
    requires cfg.Valid() && cfg.w >= 2 && Shaped(cfg, j.graph) && Aligned(j.net, j.graph.window, j.rates, j.shown)
    ensures var j' := Tock(cfg, j, t); Aligned(j'.net, j'.graph.window, j'.rates, j'.shown)
  {
    match t
    case Failed =>
    case Resized =>
    case Totals(rx, tx) =>
      ToldWindow(cfg, j.graph, Read(j.net, rx, tx));
      ReadAligned(j.net, j.graph.window, j.rates, j.shown, rx, tx);
  }

  // ---------- Whole sessions ----------

  ghost predicate FreshStart(net: Net) {
    net.history == []
  }

  /** In every session the two rings are aligned after every tick. */
  lemma {:induction false} SessionAligned(cfg: Config, start: Net, ticks: seq<Tick>)
    requires cfg.Valid() && cfg.w >= 2 && FreshStart(start)
    ensures var j := Session(cfg, start, ticks); Aligned(j.net, j.graph.window, j.rates, j.shown)
  {
    if ticks != [] {
      var before := ticks[..|ticks| - 1];
      SessionAligned(cfg, start, before);
      TockAligned(cfg, Session(cfg, start, before), ticks[|ticks| - 1]);
    }
  }

  /** In a graph of at most 88 columns no byte ever overflows: at any tick, for every sample
      in the window, the unclamped bidirectional term fits a byte and is the smaller of the
      two directions. */
  lemma {:induction false} RegeneratedBytesFit(cfg: Config, start: Net, ticks: seq<Tick>, k: nat)
    requires cfg.Valid() && 2 <= cfg.w <= 88 && FreshStart(start)
    requires var j := Session(cfg, start, ticks);
             k < cfg.w && k < |j.rates| && j.net.peak > 0
    ensures var j := Session(cfg, start, ticks);
            && j.rates[k].Both() <= j.net.peak
            && j.rates[k].Both() * 255 / j.net.peak < 256
            && var vs := Bytes(j.rates[k], j.net.peak);
               vs[2] == Min(vs[0], vs[1]) == j.rates[k].Both() * 255 / j.net.peak
  {
    var j := Session(cfg, start, ticks);
    SessionAligned(cfg, start, ticks);
    assert PeakHolds(j.net.peak, j.rates[k].Total(), k);
    HalfKept(k + 1, j.net.peak, j.rates[k].Total());
    ByteFits(j.rates[k].Both(), j.net.peak);
    ThirdByteIsSmaller(j.rates[k], j.net.peak);
  }

  /** The source alone, without the graph. */
  ghost function SourceAfter(start: Net, ticks: seq<Tick>): Net {
    if ticks == [] then start
    else
      var net := SourceAfter(start, ticks[..|ticks| - 1]);
      match ticks[|ticks| - 1]
      case Failed => net
      case Resized => net
      case Totals(rx, tx) => NextNet(net, rx, tx)
  }

  /** Totals measured by the successful reads of a session, oldest first. */
  ghost function Measured(start: Net, ticks: seq<Tick>): seq<nat> {
    if ticks == [] then []
    else
      var before := ticks[..|ticks| - 1];
      match ticks[|ticks| - 1]
      case Failed => Measured(start, before)
      case Resized => Measured(start, before)
      case Totals(rx, tx) => Measured(start, before) + [RateOf(SourceAfter(start, before), rx, tx).Total()]
  }

  lemma {:induction false} ReadStep(start: Net, ticks: seq<Tick>, total: nat)
    requires ticks != [] && ticks[|ticks| - 1].Totals?
    requires var t := ticks[|ticks| - 1];
             total == RateOf(SourceAfter(start, ticks[..|ticks| - 1]), t.rx, t.tx).Total()
    ensures Measured(start, ticks) == Measured(start, ticks[..|ticks| - 1]) + [total]
    ensures SourceAfter(start, ticks).peak == NextPeak(SourceAfter(start, ticks[..|ticks| - 1]).peak, total)
  {
  }

  lemma {:induction false} OtherStep(start: Net, ticks: seq<Tick>)
    requires ticks != [] && !ticks[|ticks| - 1].Totals?
    ensures Measured(start, ticks) == Measured(start, ticks[..|ticks| - 1])
    ensures SourceAfter(start, ticks) == SourceAfter(start, ticks[..|ticks| - 1])
  {
  }

  lemma {:induction false} SourcePeak(start: Net, ticks: seq<Tick>)
    ensures SourceAfter(start, ticks).peak == PeakAfter(start.peak, Measured(start, ticks))
  {
    if ticks != [] {
      var before, t := ticks[..|ticks| - 1], ticks[|ticks| - 1];
      SourcePeak(start, before);
      if t.Totals? {
        var total := RateOf(SourceAfter(start, before), t.rx, t.tx).Total();
        ReadStep(start, ticks, total);
        PeakAppend(start.peak, Measured(start, before), total);
      } else {
        OtherStep(start, ticks);
      }
    }
  }

  /** The graph does not influence its source. */
  lemma {:induction false} SessionSource(cfg: Config, start: Net, ticks: seq<Tick>)
    requires cfg.Valid() && cfg.w >= 2
    ensures Session(cfg, start, ticks).net == SourceAfter(start, ticks)
  {
    if ticks != [] {
      SessionSource(cfg, start, ticks[..|ticks| - 1]);
    }
  }

  // ---------- The peak a sample is shown at ----------

  /** What a successful read leaves for drawing: the peak, and whether all samples are redrawn. */
  datatype Mark = Mark(peak: Peak, regenerate: bool)

  /** Marks of the successful reads of a session, oldest first. */
  ghost function Marks(start: Net, ticks: seq<Tick>): seq<Mark> {
    if ticks == [] then []
    else
      var before := ticks[..|ticks| - 1];
      match ticks[|ticks| - 1]
      case Failed => Marks(start, before)
      case Resized => Marks(start, before)
      case Totals(rx, tx) =>
        var o := Read(SourceAfter(start, before), rx, tx);
        Marks(start, before) + [Mark(o.net.peak, o.regenerate)]
  }

  /** Number of reads up to and including the last one that regenerated. */
  function LastRegeneration(marks: seq<Mark>): (n: nat)
    ensures n <= |marks|
  {
    if marks == [] || marks[|marks| - 1].regenerate then |marks| else LastRegeneration(marks[..|marks| - 1])
  }

  lemma {:induction false} LastRegenerationIsLast(marks: seq<Mark>)
    ensures var n := LastRegeneration(marks);
            && (n > 0 ==> marks[n - 1].regenerate)
            && forall i :: n <= i < |marks| ==> !marks[i].regenerate
  {
    if marks != [] && !marks[|marks| - 1].regenerate {
      LastRegenerationIsLast(marks[..|marks| - 1]);
    }
  }

  /** The read at which the sample of read `own` was last drawn: its own, or the last one that
      regenerated, whichever is later. */
  function DrawnAt(marks: seq<Mark>, own: nat): (n: nat)
    requires own < |marks|
    ensures own <= n < |marks|
  {
    if LastRegeneration(marks) > own then LastRegeneration(marks) - 1 else own
  }

  /** Peak the sample of read `own` is shown at; none when the history, at that read, no longer
      reached back to it. */
  function ShownPeak(marks: seq<Mark>, own: nat): Option<Peak>
    requires own < |marks|
  {
    var n := DrawnAt(marks, own);
    if n - own < HISTORY_MAX then Some(marks[n].peak) else None
  }

  ghost predicate ShowsMarks(shown: seq<Option<Peak>>, marks: seq<Mark>) {
    && |shown| == |marks|
    && forall k :: 0 <= k < |shown| ==> shown[k] == ShownPeak(marks, |marks| - 1 - k)
  }

  lemma MarkTock(shown: seq<Option<Peak>>, marks: seq<Mark>, o: ReadOutcome)
    requires ShowsMarks(shown, marks) && o.net.peak > 0
    ensures ShowsMarks(NextShown(shown, o), marks + [Mark(o.net.peak, o.regenerate)])
  {
    var marks' := marks + [Mark(o.net.peak, o.regenerate)];
    assert marks'[..|marks|] == marks;
  }

  lemma {:induction false} SessionShown(cfg: Config, start: Net, ticks: seq<Tick>)
    requires cfg.Valid() && cfg.w >= 2
    ensures ShowsMarks(Session(cfg, start, ticks).shown, Marks(start, ticks))
  {
    if ticks != [] {
      var before, t := ticks[..|ticks| - 1], ticks[|ticks| - 1];
      SessionShown(cfg, start, before);
      SessionSource(cfg, start, before);
      if t.Totals? {
        MarkTock(Session(cfg, start, before).shown, Marks(start, before), Read(SourceAfter(start, before), t.rx, t.tx));
      }
    }
  }

  /** Exactly what the sample `k` steps back shows: the reading of `k` successful reads ago, at
      the source's peak of the later of that read and the last regeneration; zeros if the
      history did not reach it then; blank if there was no such read. */
  ghost predicate ShowsExactly(values: Values, rates: seq<Rate>, marks: seq<Mark>, k: nat) {
    && |rates| == |marks|
    && values ==
       if k >= |marks| then []
       else
         match ShownPeak(marks, |marks| - 1 - k)
         case Some(peak) => Bytes(rates[k], peak)
         case None => [0, 0, 0]
  }

  lemma MatchesShowExactly(window: seq<Values>, rates: seq<Rate>, shown: seq<Option<Peak>>, marks: seq<Mark>, k: nat)
    requires k < |window| && WindowMatches(window, rates, shown) && ShowsMarks(shown, marks)
    ensures ShowsExactly(window[k], rates, marks, k)
  {
    assert window[k] == ShownValues(rates, shown, k);
  }

  /** In every session every sample shows exactly that. */
  lemma {:induction false} SampleShows(cfg: Config, start: Net, ticks: seq<Tick>, k: nat)
    requires cfg.Valid() && cfg.w >= 2 && FreshStart(start) && k < cfg.w
    ensures var j := Session(cfg, start, ticks); ShowsExactly(j.graph.window[k], j.rates, Marks(start, ticks), k)
  {
    var j := Session(cfg, start, ticks);
    SessionAligned(cfg, start, ticks);
    SessionShown(cfg, start, ticks);
    MatchesShowExactly(j.graph.window, j.rates, j.shown, Marks(start, ticks), k);
  }

  // ---------- What the samples say of the counters ----------

  /** Counter values read, newest first, down to those the source started with. */
  datatype Counters = Counters(rx: nat, tx: nat)

  function CountersRead(start: Net, ticks: seq<Tick>): (cs: seq<Counters>)
    ensures cs != []
  {
    if ticks == [] then [Counters(start.prevRx, start.prevTx)]
    else
      var earlier := CountersRead(start, ticks[..|ticks| - 1]);
      match ticks[|ticks| - 1]
      case Totals(rx, tx) => [Counters(rx, tx)] + earlier
      case _ => earlier
  }

  /** The rates are the counters' growth from one successful read to the next. */
  ghost predicate RatesGrow(rates: seq<Rate>, counters: seq<Counters>) {
    && |counters| == |rates| + 1
    && forall k :: 0 <= k < |rates| ==>
         rates[k] == Rate(Grown(counters[k].rx, counters[k + 1].rx), Grown(counters[k].tx, counters[k + 1].tx))
  }

  ghost predicate RemembersCounters(net: Net, counters: seq<Counters>) {
    counters != [] && counters[0] == Counters(net.prevRx, net.prevTx)
  }

  lemma {:induction false} SessionRates(cfg: Config, start: Net, ticks: seq<Tick>)
    requires cfg.Valid() && cfg.w >= 2
    ensures var j := Session(cfg, start, ticks);
            RatesGrow(j.rates, CountersRead(start, ticks)) && RemembersCounters(j.net, CountersRead(start, ticks))
  {
    if ticks != [] {
      var before, t := ticks[..|ticks| - 1], ticks[|ticks| - 1];
      SessionRates(cfg, start, before);
      if t.Totals? {
        var j := Session(cfg, start, before);
        GrowStep(j.net, j.rates, CountersRead(start, before), t.rx, t.tx);
      }
    }
  }

  lemma GrowStep(net: Net, rates: seq<Rate>, counters: seq<Counters>, rx: nat, tx: nat)
    requires RatesGrow(rates, counters) && RemembersCounters(net, counters)
    ensures RatesGrow([RateOf(net, rx, tx)] + rates, [Counters(rx, tx)] + counters)
  {
  }

  /** Every sample of every session: the growth of the counters between two successive reads,
      as parts of the peak it is drawn at. */
  ghost predicate ShowsGrowth(values: Values, counters: seq<Counters>, marks: seq<Mark>, k: nat) {
    && |counters| == |marks| + 1
    && if k >= |marks| then values == []
       else
         match ShownPeak(marks, |marks| - 1 - k)
         case None => values == [0, 0, 0]
         case Some(peak) =>
           ShowsTraffic(values, Grown(counters[k].rx, counters[k + 1].rx),
                        Grown(counters[k].tx, counters[k + 1].tx), peak)
  }

  lemma ExactShowsGrowth(values: Values, rates: seq<Rate>, counters: seq<Counters>, marks: seq<Mark>, k: nat)
    requires ShowsExactly(values, rates, marks, k) && RatesGrow(rates, counters)
    ensures ShowsGrowth(values, counters, marks, k)
  {
    if k < |marks| {
      match ShownPeak(marks, |marks| - 1 - k)
      case None =>
      case Some(peak) => BytesShow(rates[k], peak);
    }
  }

  lemma {:induction false} SampleShowsGrowth(cfg: Config, start: Net, ticks: seq<Tick>, k: nat)
    requires cfg.Valid() && cfg.w >= 2 && FreshStart(start) && k < cfg.w
    ensures ShowsGrowth(Session(cfg, start, ticks).graph.window[k], CountersRead(start, ticks), Marks(start, ticks), k)
  {
    SampleShows(cfg, start, ticks, k);
    SessionRates(cfg, start, ticks);
    ExactShowsGrowth(Session(cfg, start, ticks).graph.window[k], Session(cfg, start, ticks).rates,
                     CountersRead(start, ticks), Marks(start, ticks), k);
  }

  /** Whatever the traffic, a session of at most 88 successful reads never halves the peak. */
  lemma {:induction false} SessionPeakHalvesSlowly(cfg: Config, start: Net, ticks: seq<Tick>)
    requires cfg.Valid() && cfg.w >= 2 && |Measured(start, ticks)| <= 88
    ensures 2 * Session(cfg, start, ticks).net.peak >= start.peak
  {
    SessionSource(cfg, start, ticks);
    SourcePeak(start, ticks);
    PeakHalvesSlowly(start.peak, Measured(start, ticks));
  }

  // ---------- The picture ----------

  /** What the graph was told during a session. */
  ghost function Readings(cfg: Config, start: Net, ticks: seq<Tick>): seq<Reading>
    requires cfg.Valid() && cfg.w >= 2
  {
    if ticks == [] then []
    else
      var before := ticks[..|ticks| - 1];
      var j := Session(cfg, start, before);
      Readings(cfg, start, before) + [ReadingOf(j.net, j.graph.window, ticks[|ticks| - 1])]
  }

  /** Once anything was read the newest sample has values; before, nothing is active. */
  lemma MatchesRedrawable(cfg: Config, window: seq<Values>, rates: seq<Rate>, shown: seq<Option<Peak>>)
    requires |window| > 0 && WindowMatches(window, rates, shown)
    ensures GraphPicture.Redrawable(cfg, window)
  {
    assert window[0] == ShownValues(rates, shown, 0);
    if rates == [] {
      forall k | 0 <= k < |window|
        ensures GraphTypes.Peak(cfg.mode, window[k]) == 0
      {
        assert window[k] == ShownValues(rates, shown, k) == [];
      }
    }
  }

  lemma {:induction false} SessionUsable(cfg: Config, start: Net, before: seq<Tick>, t: Tick)
    requires cfg.Valid() && cfg.w >= 2 && FreshStart(start)
    ensures var j := Session(cfg, start, before);
            GraphPicture.Usable(cfg, j.graph.window, ReadingOf(j.net, j.graph.window, t))
  {
    var j := Session(cfg, start, before);
    SessionAligned(cfg, start, before);
    MatchesRedrawable(cfg, j.graph.window, j.rates, j.shown);
  }

  /** The network source only ever delivers what the graph copes with, so the picture it drives
      is faithful after every tick of every session, icon resizes included. */
  lemma {:induction false} SessionFaithful(cfg: Config, start: Net, ticks: seq<Tick>)
    requires cfg.Valid() && cfg.w >= 2 && FreshStart(start)
    ensures var readings := Readings(cfg, start, ticks);
            && GraphPicture.AllUsable(cfg, readings)
            && Session(cfg, start, ticks).graph == Run(cfg, readings)
            && GraphPicture.Faithful(cfg, Session(cfg, start, ticks).graph, GraphPicture.Updates(cfg, readings))
  {
    var readings := Readings(cfg, start, ticks);
    if ticks != [] {
      var before := ticks[..|ticks| - 1];
      SessionFaithful(cfg, start, before);
      SessionUsable(cfg, start, before, ticks[|ticks| - 1]);
      assert readings[..|readings| - 1] == Readings(cfg, start, before);
    }
    GraphPicture.RunFaithful(cfg, readings);
  }
}
