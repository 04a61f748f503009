/** How wide a graph may be before a regenerated byte overflows: the bound of 88 columns is
    exact. */
module NetWidth {
  import opened GraphTypes
  import opened NetAlignment
  import opened NetRates
  import opened Options
  import opened GraphSteps

  // ---------- A burst of traffic, then silence ----------

  /** Bytes each way in each of two reads. */
  const BURST: nat := 10455000

  /** 0.501475 of the burst's peak is above 10 MB. */
  lemma BurstAbove(a: nat, b: nat)
    requires 501475 * a < 1000000 * b
    ensures b * (2 * BURST) > a * (10 * MB)
  {
    assert b * (2 * BURST) == 20910000 * b && a * (10 * MB) == 10485760 * a;
  }

  /** The burst's peak needs a scale of more than 10 MB for 88 idle reads. */
  lemma {:induction false} BurstStaysUp(peak: nat, n: nat)
    requires peak == 2 * BURST && n == 88
    ensures IdlePeak(peak, n) > 10 * MB
  {
    DecayBound(peak, Idle(n));
    IdlePeakIs(peak, n);
    Ratio88(11, n);
    BurstAbove(Pow(128, n), Pow(127, n));
    Above(Pow(128, n), IdlePeak(peak, n), Pow(127, n) * peak, 10 * MB);
  }

  lemma {:induction false} BurstUpper(n: nat, peak: nat, q: nat)
    requires BelowHalf(n) && peak == 2 * BURST
    requires q == PEAK_RATE_MIN || (q > PEAK_RATE_MIN && Pow(128, n) * (q - 127) <= Pow(127, n) * (peak - 127))
    ensures q <= 10 * MB && 256 * q <= 255 * BURST
  {
    if q > PEAK_RATE_MIN {
      FallsBelow(n, q - 127, peak - 127);
    }
  }

  /** After one more it does not, and is below 255/256 of either direction. */
  lemma {:induction false} BurstFalls(peak: nat, n: nat)
    requires peak == 2 * BURST && n == 89
    ensures var q := IdlePeak(peak, n);
            q <= 10 * MB && 256 * q <= 255 * BURST < 257 * q
  {
    BurstStaysUp(peak, n - 1);
    DecayPerRead(IdlePeak(peak, n - 1), 0);
    IdleDecays(peak, n);
    Below89(n);
    BurstUpper(n, peak, IdlePeak(peak, n));
    BurstLower(IdlePeak(peak, n - 1), IdlePeak(peak, n));
  }

  lemma BurstLower(p: nat, q: nat)
    requires p > 10 * MB && 128 * q >= 127 * p
    ensures 255 * BURST < 257 * q
  {
    assert 128 * q >= 127 * 10485760;
  }

  /** Two reads of `a` bytes each way leave a peak that after `n` idle reads needs a scale of
      more than 10 MB, and after one more does not and is below 255/256 of either direction. */
  ghost predicate Surging(a: nat, n: nat) {
    && IdlePeak(2 * a, n) > 10 * MB
    && Halved(a, IdlePeak(2 * a, n + 1))
  }

  predicate Halved(a: nat, q: nat) {
    q <= 10 * MB && 256 * q <= 255 * a < 257 * q
  }

  lemma {:induction false} BurstSurges() returns (a: nat, n: nat)
    ensures a >= PEAK_RATE_MIN && n == 88 && Surging(a, n)
  {
    a, n := BURST, 88;
    BurstStaysUp(2 * a, n);
    BurstFalls(2 * a, n + 1);
  }

  lemma Above(a: nat, p: nat, b: nat, low: nat)
    requires a * p >= b > a * low
    ensures p > low
  {
    if p <= low {
      MulMonotone(p, low, a);
    }
  }

  /** The source after a burst of `a` bytes each way in each of two reads. */
  ghost predicate Surged(net: Net, a: nat, peak: nat) {
    net.prevRx == 2 * a && net.prevTx == 2 * a && net.peak == peak
  }

  /** The fields that one read changes. */
  lemma ReadFields(net: Net, rx: nat, tx: nat)
    ensures var next := Read(net, rx, tx).net;
            && next.prevRx == rx && next.prevTx == tx
            && next.peak == NextPeak(net.peak, RateOf(net, rx, tx).Total())
  {
  }

  /** `next` is what reading the totals `t` each way makes of `net`. */
  ghost predicate Reads(net: Net, next: Net, t: nat) {
    && next.prevRx == t && next.prevTx == t
    && next.peak == NextPeak(net.peak, RateOf(net, t, t).Total())
  }

  lemma SurgeStarts(start: Net, a: nat, net: Net, next: Net)
    requires a >= PEAK_RATE_MIN && start.prevRx == start.prevTx == start.peak == 0
    requires Reads(start, net, a) && Reads(net, next, 2 * a)
    ensures Surged(next, a, NextPeak(2 * a, 0))
    ensures RateOf(net, 2 * a, 2 * a) == Rate(a, a)
  {
    assert net.peak == 2 * a && next.peak == NextPeak(2 * a, 2 * a) == NextPeak(2 * a, 0);
  }

  lemma SurgeGoesOn(a: nat, peak: nat, net: Net, next: Net)
    requires Surged(net, a, peak) && Reads(net, next, 2 * a)
    ensures Surged(next, a, NextPeak(peak, 0))
  {
    IdleRate(net, 2 * a);
  }

  lemma IdleRate(net: Net, t: nat)
    requires net.prevRx == net.prevTx == t
    ensures RateOf(net, t, t).Total() == 0
  {
  }

  /** All rates measured by the source alone, newest first. */
  ghost function RatesAfter(start: Net, ticks: seq<Tick>): seq<Rate> {
    if ticks == [] then []
    else
      var before := ticks[..|ticks| - 1];
      match ticks[|ticks| - 1]
      case Failed => RatesAfter(start, before)
      case Resized => RatesAfter(start, before)
      case Totals(rx, tx) => [RateOf(SourceAfter(start, before), rx, tx)] + RatesAfter(start, before)
  }

  lemma {:induction false} SessionRates(cfg: Config, start: Net, ticks: seq<Tick>)
    requires cfg.Valid() && cfg.w >= 2
    ensures Session(cfg, start, ticks).rates == RatesAfter(start, ticks)
  {
    if ticks != [] {
      SessionRates(cfg, start, ticks[..|ticks| - 1]);
      SessionSource(cfg, start, ticks[..|ticks| - 1]);
    }
  }

  predicate AllReads(ticks: seq<Tick>) {
    forall i :: 0 <= i < |ticks| ==> ticks[i].Totals?
  }

  /** The rate that tick `m` measured. */
  ghost function RateAt(start: Net, ticks: seq<Tick>, m: nat): Rate
    requires m < |ticks| && ticks[m].Totals?
  {
    RateOf(SourceAfter(start, ticks[..m]), ticks[m].rx, ticks[m].tx)
  }

  /** `rates` lists, newest first, what the ticks measured. */
  ghost predicate Measures(rates: seq<Rate>, start: Net, ticks: seq<Tick>, m: nat)
    requires AllReads(ticks) && m < |ticks|
  {
    |rates| == |ticks| && rates[|ticks| - 1 - m] == RateAt(start, ticks, m)
  }

  lemma {:induction false} NewestRate(start: Net, ticks: seq<Tick>)
    requires ticks != [] && ticks[|ticks| - 1].Totals?
    ensures |RatesAfter(start, ticks)| == |RatesAfter(start, ticks[..|ticks| - 1])| + 1
    ensures RatesAfter(start, ticks)[0] == RateAt(start, ticks, |ticks| - 1)
  {
  }

  lemma {:induction false} OlderRate(start: Net, ticks: seq<Tick>, k: nat)
    requires ticks != [] && ticks[|ticks| - 1].Totals?
    requires k < |RatesAfter(start, ticks[..|ticks| - 1])| && k + 1 < |RatesAfter(start, ticks)|
    ensures RatesAfter(start, ticks)[k + 1] == RatesAfter(start, ticks[..|ticks| - 1])[k]
  {
  }

  lemma EarlierRateAt(start: Net, before: seq<Tick>, ticks: seq<Tick>, m: nat)
    requires m < |before| <= |ticks| && ticks[..|before|] == before && ticks[m].Totals?
    ensures before[m].Totals? && RateAt(start, before, m) == RateAt(start, ticks, m)
  {
    assert before[..m] == ticks[..m];
  }

  lemma {:induction false} RatesCount(start: Net, ticks: seq<Tick>)
    requires AllReads(ticks)
    ensures |RatesAfter(start, ticks)| == |ticks|
  {
    if ticks != [] {
      NewestRate(start, ticks);
      RatesCount(start, ticks[..|ticks| - 1]);
    }
  }

  lemma {:induction false} RatesAre(start: Net, ticks: seq<Tick>, m: nat)
    requires AllReads(ticks) && m < |ticks|
    ensures Measures(RatesAfter(start, ticks), start, ticks, m)
    decreases |ticks|, 0
  {
    RatesCount(start, ticks);
    if m == |ticks| - 1 {
      NewestRate(start, ticks);
    } else {
      EarlierRates(start, ticks[..|ticks| - 1], ticks, m);
    }
  }

  lemma {:induction false} EarlierRates(start: Net, before: seq<Tick>, ticks: seq<Tick>, m: nat)
    requires AllReads(ticks) && m < |ticks| - 1 && before == ticks[..|ticks| - 1]
    ensures Measures(RatesAfter(start, ticks), start, ticks, m)
    decreases |before|, 1
  {
    RatesCount(start, ticks);
    RatesAre(start, before, m);
    OlderRate(start, ticks, |before| - 1 - m);
    EarlierRateAt(start, before, ticks, m);
  }

  lemma {:induction false} SourceRead(start: Net, before: seq<Tick>, ticks: seq<Tick>, t: nat)
    requires ticks == before + [Totals(t, t)]
    ensures Reads(SourceAfter(start, before), SourceAfter(start, ticks), t)
  {
    assert ticks[..|ticks| - 1] == before;
    ReadFields(SourceAfter(start, before), t, t);
  }

  /** Two reads of `a` bytes each way, then `n` idle ones. */
  ghost predicate IsSurge(ticks: seq<Tick>, a: nat, n: nat) {
    && |ticks| == n + 2
    && ticks[0] == Totals(a, a)
    && forall i :: 1 <= i < n + 2 ==> ticks[i] == Totals(2 * a, 2 * a)
  }

  lemma {:induction false} SurgeStart(start: Net, a: nat, first: seq<Tick>, ticks: seq<Tick>)
    requires a >= PEAK_RATE_MIN && start.prevRx == start.prevTx == start.peak == 0
    requires first == [Totals(a, a)] && ticks == first + [Totals(2 * a, 2 * a)]
    ensures Surged(SourceAfter(start, ticks), a, NextPeak(2 * a, 0))
    ensures RateOf(SourceAfter(start, first), 2 * a, 2 * a) == Rate(a, a)
  {
    SourceRead(start, [], first, a);
    SourceRead(start, first, ticks, 2 * a);
    SurgeStarts(start, a, SourceAfter(start, first), SourceAfter(start, ticks));
  }

  lemma {:induction false} SurgeNext(start: Net, a: nat, peak: nat, before: seq<Tick>, ticks: seq<Tick>)
    requires ticks == before + [Totals(2 * a, 2 * a)]
    requires Surged(SourceAfter(start, before), a, peak)
    ensures Surged(SourceAfter(start, ticks), a, NextPeak(peak, 0))
  {
    SourceRead(start, before, ticks, 2 * a);
    SurgeGoesOn(a, peak, SourceAfter(start, before), SourceAfter(start, ticks));
  }

  lemma SurgeReads(ticks: seq<Tick>, a: nat, n: nat)
    requires IsSurge(ticks, a, n)
    ensures AllReads(ticks) && ticks[|ticks| - 1] == Totals(2 * a, 2 * a)
    ensures ticks == ticks[..n + 1] + [Totals(2 * a, 2 * a)]
    ensures n > 0 ==> IsSurge(ticks[..n + 1], a, n - 1)
    ensures ticks[..1] == [Totals(a, a)] && ticks[1] == Totals(2 * a, 2 * a)
  {
  }

  lemma {:induction false} SurgeState(start: Net, a: nat, n: nat, ticks: seq<Tick>)
    requires a >= PEAK_RATE_MIN && start.prevRx == start.prevTx == start.peak == 0
    requires IsSurge(ticks, a, n)
    ensures Surged(SourceAfter(start, ticks), a, IdlePeak(2 * a, n + 1))
    decreases n, 1
  {
    SurgeReads(ticks, a, n);
    if n == 0 {
      SurgeStart(start, a, ticks[..1], ticks);
      assert IdlePeak(2 * a, 0) == 2 * a;
    } else {
      SurgeLater(start, a, n, ticks[..n + 1], ticks);
    }
  }

  lemma {:induction false} SurgeLater(start: Net, a: nat, n: nat, before: seq<Tick>, ticks: seq<Tick>)
    requires a >= PEAK_RATE_MIN && start.prevRx == start.prevTx == start.peak == 0
    requires n > 0 && IsSurge(before, a, n - 1) && ticks == before + [Totals(2 * a, 2 * a)]
    ensures Surged(SourceAfter(start, ticks), a, IdlePeak(2 * a, n + 1))
    decreases n, 0
  {
    SurgeState(start, a, n - 1, before);
    SurgeNext(start, a, IdlePeak(2 * a, n), before, ticks);
  }

  // ---------- The exact width ----------

  /** The scaled bidirectional rate of every sample in the window fits a byte. */
  ghost predicate BytesFit(cfg: Config, j: Joint) {
    forall k :: 0 <= k < cfg.w && k < |j.rates| && j.net.peak > 0 ==> j.rates[k].Both() * 255 / j.net.peak < 256
  }

  /** A peak that falls from above to at most 10 MB needs another scale. */
  lemma {:induction false} ScaleFalls(net: Net, t: nat)
    requires IsCeiling(net.peak, net.scale) && net.peak > 10 * MB
    requires NextPeak(net.peak, RateOf(net, t, t).Total()) <= 10 * MB
    ensures Read(net, t, t).regenerate
  {
    ReadGuarantees(net, t, t);
    ReadFields(net, t, t);
    AboveTenMB(net.peak, net.scale);
    BelowTenMB(NextPeak(net.peak, RateOf(net, t, t).Total()), Read(net, t, t).net.scale);
  }

  lemma AboveTenMB(peak: nat, scale: nat)
    requires IsCeiling(peak, scale) && peak > 10 * MB
    ensures scale > 4
  {
    assert SCALES[4] == 10 * MB;
  }

  lemma BelowTenMB(peak: nat, scale: nat)
    requires IsCeiling(peak, scale) && peak <= 10 * MB
    ensures scale <= 4
  {
    assert SCALES[4] == 10 * MB;
  }

  lemma {:induction false} SurgePeak(net: Net, a: nat, n: nat)
    requires n > 0 && Surging(a, n) && Surged(net, a, IdlePeak(2 * a, n))
    ensures net.peak > 10 * MB && NextPeak(net.peak, RateOf(net, 2 * a, 2 * a).Total()) <= 10 * MB
  {
    IdleRate(net, 2 * a);
  }

  /** What the last read of a run did. */
  ghost predicate LastRead(start: Net, ticks: seq<Tick>, t: nat, o: ReadOutcome) {
    && ticks != [] && ticks[|ticks| - 1] == Totals(t, t)
    && o == Read(SourceAfter(start, ticks[..|ticks| - 1]), t, t)
  }

  lemma {:induction false} LastReadSource(start: Net, ticks: seq<Tick>, t: nat, o: ReadOutcome)
    requires LastRead(start, ticks, t, o)
    ensures SourceAfter(start, ticks) == o.net && o.net.peak > 0
  {
  }

  lemma {:induction false} LastReadMark(start: Net, ticks: seq<Tick>, t: nat, o: ReadOutcome)
    requires LastRead(start, ticks, t, o) && o.net.peak > 0
    ensures Marks(start, ticks) == Marks(start, ticks[..|ticks| - 1]) + [Mark(o.net.peak, o.regenerate)]
  {
  }

  lemma {:induction false} MarksCount(start: Net, ticks: seq<Tick>)
    requires AllReads(ticks)
    ensures |Marks(start, ticks)| == |ticks|
  {
    if ticks != [] {
      MarksCount(start, ticks[..|ticks| - 1]);
    }
  }

  /** When the last read regenerated, it drew every sample the history reached. */
  lemma LastDrawsAll(marks: seq<Mark>, last: Mark, own: nat)
    requires last.regenerate && own < |marks + [last]| < HISTORY_MAX
    ensures ShownPeak(marks + [last], own) == Some(last.peak)
  {
  }

  lemma {:induction false} ScaleAfter(start: Net, ticks: seq<Tick>, t: nat, o: ReadOutcome)
    requires LastRead(start, ticks, t, o)
    ensures IsCeiling(SourceAfter(start, ticks).peak, SourceAfter(start, ticks).scale)
  {
    ReadGuarantees(SourceAfter(start, ticks[..|ticks| - 1]), t, t);
    LastReadSource(start, ticks, t, o);
  }

  /** The last of `n` idle reads changes the scale. */
  lemma {:induction false} SurgeRegenerates(start: Net, before: seq<Tick>, a: nat, n: nat)
    requires a >= PEAK_RATE_MIN && start.prevRx == start.prevTx == start.peak == 0
    requires 0 < n && Surging(a, n) && IsSurge(before, a, n - 1)
    ensures Read(SourceAfter(start, before), 2 * a, 2 * a).regenerate
  {
    ScaleAfter(start, before, 2 * a, Read(SourceAfter(start, before[..n]), 2 * a, 2 * a));
    SurgeState(start, a, n - 1, before);
    SurgePeak(SourceAfter(start, before), a, n);
    ScaleFalls(SourceAfter(start, before), 2 * a);
  }

  /** When the last read regenerates, all samples are drawn at the peak of then. */
  lemma {:induction false} LastRedraws(start: Net, ticks: seq<Tick>, t: nat, o: ReadOutcome, own: nat)
    requires AllReads(ticks) && own < |ticks| < HISTORY_MAX
    requires LastRead(start, ticks, t, o) && o.net.peak > 0 && o.regenerate
    ensures |Marks(start, ticks)| == |ticks| && ShownPeak(Marks(start, ticks), own) == Some(o.net.peak)
  {
    MarksCount(start, ticks);
    LastReadMark(start, ticks, t, o);
    LastDrawsAll(Marks(start, ticks[..|ticks| - 1]), Mark(o.net.peak, o.regenerate), own);
  }

  /** The reading of `n` reads ago is drawn at the present peak, and overflows. */
  ghost predicate Overflows(net: Net, rates: seq<Rate>, marks: seq<Mark>, n: nat) {
    && |rates| == |marks| && n < |rates| && net.peak > 0
    && rates[n].Both() * 255 / net.peak == 256
    && ShownPeak(marks, |marks| - 1 - n) == Some(net.peak)
  }

  lemma {:induction false} SurgeSource(start: Net, a: nat, n: nat, ticks: seq<Tick>, o: ReadOutcome)
    requires a >= PEAK_RATE_MIN && start.prevRx == start.prevTx == start.peak == 0
    requires 0 < n < HISTORY_MAX - 2 && Surging(a, n) && IsSurge(ticks, a, n)
    requires LastRead(start, ticks, 2 * a, o) && AllReads(ticks) && IsSurge(ticks[..n + 1], a, n - 1)
    ensures Overflows(SourceAfter(start, ticks), RatesAfter(start, ticks), Marks(start, ticks), n)
  {
    SurgeState(start, a, n, ticks);
    RatesAre(start, ticks, 1);
    SecondRate(start, a, n, ticks);
    LastReadSource(start, ticks, 2 * a, o);
    SurgeRegenerates(start, ticks[..n + 1], a, n);
    LastRedraws(start, ticks, 2 * a, o, 1);
    SurgeValue(SourceAfter(start, ticks), RatesAfter(start, ticks), Marks(start, ticks), a, n);
  }

  lemma {:induction false} SecondRate(start: Net, a: nat, n: nat, ticks: seq<Tick>)
    requires a >= PEAK_RATE_MIN && start.prevRx == start.prevTx == start.peak == 0
    requires IsSurge(ticks, a, n)
    ensures RateAt(start, ticks, 1) == Rate(a, a)
  {
    SurgeReads(ticks, a, n);
    SurgeStart(start, a, ticks[..1], ticks[..1] + [Totals(2 * a, 2 * a)]);
  }

  lemma SurgeValue(net: Net, rates: seq<Rate>, marks: seq<Mark>, a: nat, n: nat)
    requires |rates| == |marks| == n + 2 && rates[n] == Rate(a, a)
    requires net.peak > 0 && Halved(a, net.peak) && ShownPeak(marks, 1) == Some(net.peak)
    ensures Overflows(net, rates, marks, n)
  {
    Quotient(a, net.peak);
  }

  /** A session whose source overflows shows it. */
  ghost predicate Wrapped(j: Joint, n: nat) {
    && n < |j.rates| && n < |j.graph.window| && j.net.peak > 0
    && j.rates[n].Both() * 255 / j.net.peak == 256
    && j.graph.window[n] == Bytes(j.rates[n], j.net.peak)
    && j.graph.window[n][2] == 0
  }

  lemma ShowsWrapped(j: Joint, marks: seq<Mark>, n: nat)
    requires n < |j.graph.window| && Overflows(j.net, j.rates, marks, n)
    requires ShowsExactly(j.graph.window[n], j.rates, marks, n)
    ensures Wrapped(j, n)
  {
  }

  lemma {:induction false} SessionWraps(cfg: Config, start: Net, ticks: seq<Tick>, n: nat)
    requires cfg.Valid() && cfg.w >= 2 && n < cfg.w && FreshStart(start)
    requires Overflows(SourceAfter(start, ticks), RatesAfter(start, ticks), Marks(start, ticks), n)
    ensures Wrapped(Session(cfg, start, ticks), n)
  {
    SessionSource(cfg, start, ticks);
    SessionRates(cfg, start, ticks);
    SampleShows(cfg, start, ticks, n);
    ShowsWrapped(Session(cfg, start, ticks), Marks(start, ticks), n);
  }

  lemma Quotient(a: nat, q: nat)
    requires 256 * q <= 255 * a < 257 * q
    ensures a * 255 / q == 256
  {
    QuotientBelow(a * 255, 257, q);
    QuotientMonotone(256 * q, a * 255, q);
    assert 256 * q / q == 256;
  }

  /** The same after a session that started with the given totals. */
  ghost predicate SessionFits(cfg: Config, rx: nat, tx: nat, ticks: seq<Tick>)
    requires cfg.Valid() && cfg.w >= 2
  {
    BytesFit(cfg, Session(cfg, Primed(rx, tx), ticks))
  }

  /** The bound on the width is exact: bytes fit in every session of a graph exactly when it has
      at most 88 columns. */
  lemma {:induction false} BytesFitIff(cfg: Config)
    requires cfg.Valid() && cfg.w >= 2
    ensures (forall rx, tx, ticks :: SessionFits(cfg, rx, tx, ticks)) <==> cfg.w <= 88
  {
    if cfg.w <= 88 {
      forall rx, tx, ticks
        ensures SessionFits(cfg, rx, tx, ticks)
      {
        FitsUpTo88(cfg, rx, tx, ticks);
      }
    } else {
      var ticks := FitsNotFrom89(cfg);
    }
  }

  lemma {:induction false} FitsUpTo88(cfg: Config, rx: nat, tx: nat, ticks: seq<Tick>)
    requires cfg.Valid() && 2 <= cfg.w <= 88
    ensures SessionFits(cfg, rx, tx, ticks)
  {
    BytesFitUpTo88(cfg, Primed(rx, tx), ticks);
  }

  lemma {:induction false} FitsNotFrom89(cfg: Config) returns (ticks: seq<Tick>)
    requires cfg.Valid() && cfg.w >= 89
    ensures !SessionFits(cfg, 0, 0, ticks)
  {
    ticks := BytesOverflow(cfg, Primed(0, 0));
    WrappedIsUnfit(cfg, Session(cfg, Primed(0, 0), ticks), 88);
  }

  /** The failing session for a graph of 89 columns or more: its last read redraws the sample
      of 88 reads ago with a third byte of 256, cut to 0. */
  lemma {:induction false} BytesOverflow(cfg: Config, start: Net) returns (ticks: seq<Tick>)
    requires cfg.Valid() && cfg.w >= 89 && start == Primed(0, 0)
    ensures Wrapped(Session(cfg, start, ticks), 88)
  {
    var a, n := BurstSurges();
    ticks := SurgeTicks(start, a, n);
    SessionWraps(cfg, start, ticks, n);
  }

  lemma SurgeTicks(start: Net, a: nat, n: nat) returns (ticks: seq<Tick>)
    requires a >= PEAK_RATE_MIN && start.prevRx == start.prevTx == start.peak == 0
    requires 0 < n < HISTORY_MAX - 2 && Surging(a, n)
    ensures Overflows(SourceAfter(start, ticks), RatesAfter(start, ticks), Marks(start, ticks), n)
  {
    ticks := [Totals(a, a)] + seq(n + 1, _ => Totals(2 * a, 2 * a));
    SurgeReads(ticks, a, n);
    SurgeSource(start, a, n, ticks, Read(SourceAfter(start, ticks[..n + 1]), 2 * a, 2 * a));
  }

  lemma WrappedIsUnfit(cfg: Config, j: Joint, k: nat)
    requires k < cfg.w && Wrapped(j, k)
    ensures !BytesFit(cfg, j)
  {
    assert !(j.rates[k].Both() * 255 / j.net.peak < 256);
  }

  lemma {:induction false} BytesFitUpTo88(cfg: Config, start: Net, ticks: seq<Tick>)
    requires cfg.Valid() && 2 <= cfg.w <= 88 && FreshStart(start)
    ensures BytesFit(cfg, Session(cfg, start, ticks))
  {
    var j := Session(cfg, start, ticks);
    forall k | 0 <= k < cfg.w && k < |j.rates| && j.net.peak > 0
      ensures j.rates[k].Both() * 255 / j.net.peak < 256
    {
      RegeneratedBytesFit(cfg, start, ticks, k);
    }
  }
}
