/** The auto-scaling network source on values: rates, decaying peak, scale selection, byte
    scaling and the history kept for regeneration (`apps/wlmnetgraph.c`). */
module NetRates {
  import opened GraphTypes

  const PEAK_RATE_MIN: nat := 1024 * 1024
  const PEAK_DECAY_DIVISOR: nat := 128
  const PEAK_DECAY_THRESHOLD: nat := 1024
  const HISTORY_MAX: nat := 512

  const KB: nat := 1024
  const MB: nat := 1024 * 1024
  const GB: nat := 1024 * 1024 * 1024
  const SCALES: seq<nat> := [KB, 10 * KB, 100 * KB, MB, 10 * MB, 100 * MB, GB, 10 * GB, 100 * GB]

  /** Bytes received and sent during one interval. */
  datatype Rate = Rate(rx: nat, tx: nat) {
    function Total(): nat { rx + tx }
    function Both(): nat { Min(rx, tx) }
  }

  /** Source state; `history` is newest first, at most `HISTORY_MAX` long. */
  datatype Net = Net(prevRx: nat, prevTx: nat, peak: nat, scale: nat, history: seq<Rate>)

  /** Outcome of one successful read. */
  datatype ReadOutcome = ReadOutcome(net: Net, values: Values, regenerate: bool)

  // ---------- Scales ----------

  /** `i` is the smallest scale that holds `val`, or the last one when none does. */
  predicate IsCeiling(val: nat, i: nat) {
    && i < |SCALES|
    && (forall j :: 0 <= j < i ==> SCALES[j] < val)
    && (SCALES[i] >= val || i == |SCALES| - 1)
  }

  lemma CeilingExists(val: nat) returns (i: nat)
    ensures IsCeiling(val, i)
  {
    i := 0;
    while SCALES[i] < val && i < |SCALES| - 1
      invariant i < |SCALES|
      invariant forall j :: 0 <= j < i ==> SCALES[j] < val
    {
      i := i + 1;
    }
  }

  ghost function Ceiling(val: nat): (r: nat)
    ensures IsCeiling(val, r)
  {
    assert exists i :: IsCeiling(val, i) by {
      var i := CeilingExists(val);
    }
    var i :| IsCeiling(val, i);
    i
  }

  lemma CeilingUnique(val: nat, i: nat, j: nat)
    requires IsCeiling(val, i) && IsCeiling(val, j)
    ensures i == j
  {
  }

  // ---------- Reading ----------

  function RateOf(net: Net, totalRx: nat, totalTx: nat): Rate {
    Rate(if totalRx >= net.prevRx then totalRx - net.prevRx else 0,
         if totalTx >= net.prevTx then totalTx - net.prevTx else 0)
  }

  /** Peak before the lower bound is enforced. */
  function Adapted(peak: nat, total: nat): nat {
    if total > peak then total
    else if peak > PEAK_DECAY_THRESHOLD then peak - peak / PEAK_DECAY_DIVISOR
    else peak
  }

  function NextPeak(peak: nat, total: nat): (p: nat)
    ensures p >= PEAK_RATE_MIN
  {
    if Adapted(peak, total) < PEAK_RATE_MIN then PEAK_RATE_MIN else Adapted(peak, total)
  }

  ghost function NextScale(peak: nat, scale: nat, total: nat): nat {
    if Adapted(peak, total) < PEAK_RATE_MIN then Ceiling(PEAK_RATE_MIN)
    else if total > peak || peak > PEAK_DECAY_THRESHOLD then Ceiling(Adapted(peak, total))
    else scale
  }

  /** A rate scaled to a byte: the quotient, cut to eight bits by the cast. */
  function ToByte(rate: nat, peak: nat): Byte
    requires peak > 0
  {
    rate * 255 / peak % 256
  }

  /** The three category bytes of a reading shown at a given peak. */
  function Bytes(r: Rate, peak: nat): (vs: Values)
    requires peak > 0
    ensures |vs| == 3
  {
    [ToByte(Min(r.rx, peak), peak), ToByte(Min(r.tx, peak), peak), ToByte(r.Both(), peak)]
  }

  function Remember(history: seq<Rate>, r: Rate): (h: seq<Rate>)
    ensures |history| <= HISTORY_MAX ==> |h| <= HISTORY_MAX
  {
    [r] + if |history| < HISTORY_MAX then history else history[..HISTORY_MAX - 1]
  }

  ghost function NextNet(net: Net, totalRx: nat, totalTx: nat): (next: Net)
    ensures next.peak > 0
  {
    var r := RateOf(net, totalRx, totalTx);
    Net(totalRx, totalTx, NextPeak(net.peak, r.Total()), NextScale(net.peak, net.scale, r.Total()),
        Remember(net.history, r))
  }

  ghost function Read(net: Net, totalRx: nat, totalTx: nat): ReadOutcome {
    var next := NextNet(net, totalRx, totalTx);
    ReadOutcome(next, Bytes(RateOf(net, totalRx, totalTx), next.peak), next.scale != net.scale)
  }

  /** State in which the program starts graphing: one read primes the counters. */
  ghost function Primed(totalRx: nat, totalTx: nat): Net {
    Read(Net(0, 0, 0, 0, []), totalRx, totalTx).net.(peak := 0, history := [])
  }

  // ---------- Regeneration ----------

  /** Values of older samples, newest first, redrawn at the current peak; cleared where the
      history does not reach. */
  function Regenerated(net: Net, samples: seq<Values>): (r: seq<Values>)
    requires net.peak > 0
    ensures |r| == |samples|
  {
    seq(|samples|, i requires 0 <= i < |samples| =>
      if i + 1 < |net.history| then Rewritten(samples[i], Bytes(net.history[i + 1], net.peak))
      else Cleared(samples[i]))
  }

  /** Overwrites the first three values. */
  function Rewritten(values: Values, bytes: Values): (r: Values)
    requires |bytes| == 3
    ensures |values| == 3 ==> r == bytes
  {
    if |values| < 3 then bytes else bytes + values[3..]
  }

  function Cleared(values: Values): (r: Values)
    ensures |r| == |values| && forall i :: 0 <= i < |r| ==> r[i] == 0
  {
    seq(|values|, _ => 0)
  }

  // ---------- Every successful read ----------

  lemma {:induction false} QuotientMonotone(a: nat, b: nat, k: nat)
    requires a <= b && k > 0
    ensures a / k <= b / k
  {
    assert a / k * k <= a && b < (b / k + 1) * k;
    if b / k + 1 <= a / k {
      MulMonotone(b / k + 1, a / k, k);
    }
  }

  /** A rate no higher than the peak is not cut by the cast. */
  lemma {:induction false} ByteFits(rate: nat, peak: nat)
    requires 0 < peak && rate <= peak
    ensures rate * 255 / peak < 256
    ensures ToByte(rate, peak) == rate * 255 / peak
  {
    QuotientBelow(rate * 255, 256, peak);
  }

  /** The unclamped bidirectional rate keeps its value exactly while it stays below 256/255 of
      the peak. */
  lemma {:induction false} ByteExactIff(rate: nat, peak: nat)
    requires 0 < peak
    ensures ToByte(rate, peak) == rate * 255 / peak <==> rate * 255 < 256 * peak
  {
    if rate * 255 < 256 * peak {
      QuotientBelow(rate * 255, 256, peak);
    } else {
      QuotientMonotone(256 * peak, rate * 255, peak);
      assert 256 * peak / peak == 256;
    }
  }

  lemma {:induction false} ByteMonotone(a: nat, b: nat, peak: nat)
    requires 0 < peak && a <= b <= peak
    ensures ToByte(a, peak) <= ToByte(b, peak)
  {
    ByteFits(a, peak);
    ByteFits(b, peak);
    QuotientMonotone(a * 255, b * 255, peak);
  }

  /** A byte is the scaled rate rounded down, up to whole multiples of 256. */
  lemma {:induction false} ByteScales(rate: nat, peak: nat) returns (wraps: nat)
    requires 0 < peak
    ensures var whole := ToByte(rate, peak) + 256 * wraps;
            whole * peak <= 255 * rate < (whole + 1) * peak
    ensures 255 * rate < 256 * peak ==> wraps == 0
  {
    wraps := rate * 255 / peak / 256;
    QuotientBounds(rate * 255, peak);
    if 255 * rate < 256 * peak {
      QuotientBelow(rate * 255, 256, peak);
    }
  }

  /** `byte` is `amount` as 255ths of the peak, rounded down. */
  predicate Scales(byte: nat, amount: nat, peak: nat) {
    byte * peak <= 255 * amount < (byte + 1) * peak
  }

  /** What the bytes show: what was received, what was sent, each at most the peak, and the
      smaller of the two; the last may wrap. */
  ghost predicate ShowsTraffic(vs: Values, received: nat, sent: nat, peak: nat) {
    && |vs| == 3
    && Scales(vs[0], Min(received, peak), peak)
    && Scales(vs[1], Min(sent, peak), peak)
    && exists wraps: nat ::
         && Scales(vs[2] + 256 * wraps, Min(received, sent), peak)
         && (255 * Min(received, sent) < 256 * peak ==> wraps == 0)
  }

  lemma {:induction false} BytesShow(r: Rate, peak: nat)
    requires 0 < peak
    ensures ShowsTraffic(Bytes(r, peak), r.rx, r.tx, peak)
  {
    var received := ByteScales(Min(r.rx, peak), peak);
    var sent := ByteScales(Min(r.tx, peak), peak);
    var both := ByteScales(r.Both(), peak);
    assert Scales(Bytes(r, peak)[2] + 256 * both, Min(r.rx, r.tx), peak);
  }

  /** By how much a counter has grown; nothing if it went backwards. */
  function Grown(now: nat, before: nat): nat {
    if now < before then 0 else now - before
  }

  /** A read shows the growth of the two counters since the last one, and remembers it and them. */
  lemma {:induction false} ReadShowsTraffic(net: Net, totalRx: nat, totalTx: nat)
    ensures var o := Read(net, totalRx, totalTx);
            var received, sent := Grown(totalRx, net.prevRx), Grown(totalTx, net.prevTx);
            && ShowsTraffic(o.values, received, sent, o.net.peak)
            && o.net.prevRx == totalRx && o.net.prevTx == totalTx
            && o.net.history != [] && o.net.history[0] == Rate(received, sent)
  {
    BytesShow(RateOf(net, totalRx, totalTx), NextNet(net, totalRx, totalTx).peak);
  }

  /** Priming takes the counters and nothing else to be shown. */
  lemma PrimedIs(totalRx: nat, totalTx: nat)
    ensures var net := Primed(totalRx, totalTx);
            net.prevRx == totalRx && net.prevTx == totalTx && net.peak == 0 && net.history == []
  {
  }

  /** The peak is never above all of the old peak, the total and its minimum; a higher total is
      taken at once, and otherwise a 128th is lost, rounded down. */
  lemma PeakFollows(peak: nat, total: nat)
    ensures var next := NextPeak(peak, total);
            && (total > peak && total >= PEAK_RATE_MIN ==> next == total)
            && (total <= peak && peak >= 2 * PEAK_RATE_MIN ==> 128 * (peak - next) <= peak < 128 * (peak - next + 1))
            && next <= (if total > peak then (if total < PEAK_RATE_MIN then PEAK_RATE_MIN else total)
                        else if peak < PEAK_RATE_MIN then PEAK_RATE_MIN else peak)
  {
  }

  /** One read loses at most one part in 128, of the old peak and of the new total. */
  lemma DecayPerRead(peak: nat, total: nat)
    ensures 128 * NextPeak(peak, total) >= 127 * peak
    ensures 128 * NextPeak(peak, total) >= 127 * total
  {
  }

  /** After a read the smaller direction never exceeds the peak. */
  lemma BothWithinPeak(peak: nat, r: Rate)
    ensures r.Both() <= NextPeak(peak, r.Total())
  {
  }

  lemma ScaleIsCeiling(peak: nat, scale: nat, total: nat)
    ensures IsCeiling(NextPeak(peak, total), NextScale(peak, scale, total))
  {
  }

  lemma {:induction false} ThirdByteIsSmaller(r: Rate, peak: nat)
    requires 0 < peak && r.Both() <= peak
    ensures var vs := Bytes(r, peak);
            vs[2] == Min(vs[0], vs[1])
  {
    ByteMonotone(r.Both(), Min(r.rx, peak), peak);
    ByteMonotone(r.Both(), Min(r.tx, peak), peak);
  }

  /** What every successful read guarantees: a peak that never reaches zero, the ceiling
      scale, a third byte that is the smaller of the other two, and a regeneration request
      exactly when the scale changed. */
  lemma {:induction false} ReadGuarantees(net: Net, totalRx: nat, totalTx: nat)
    ensures var o := Read(net, totalRx, totalTx);
            && o.net.peak >= PEAK_RATE_MIN
            && IsCeiling(o.net.peak, o.net.scale)
            && |o.values| == 3
            && o.values[2] == Min(o.values[0], o.values[1])
            && (o.regenerate <==> !IsCeiling(o.net.peak, net.scale))
  {
    var r := RateOf(net, totalRx, totalTx);
    ScaleIsCeiling(net.peak, net.scale, r.Total());
    if IsCeiling(NextPeak(net.peak, r.Total()), net.scale) {
      CeilingUnique(NextPeak(net.peak, r.Total()), net.scale, NextScale(net.peak, net.scale, r.Total()));
    }
    BothWithinPeak(net.peak, r);
    ThirdByteIsSmaller(r, NextPeak(net.peak, r.Total()));
  }

  // ---------- Peak decay ----------

  function PeakAfter(peak: nat, totals: seq<nat>): nat {
    if totals == [] then peak
    else NextPeak(PeakAfter(peak, totals[..|totals| - 1]), totals[|totals| - 1])
  }

  lemma PeakAppend(peak: nat, totals: seq<nat>, total: nat)
    ensures PeakAfter(peak, totals + [total]) == NextPeak(PeakAfter(peak, totals), total)
  {
    assert (totals + [total])[..|totals|] == totals;
  }

  function Pow(b: nat, n: nat): nat {
    if n == 0 then 1 else b * Pow(b, n - 1)
  }

  lemma {:induction false} PowPositive(b: nat, n: nat)
    requires b > 0
    ensures Pow(b, n) > 0
  {
    if n > 0 {
      PowPositive(b, n - 1);
      MulMonotone(1, Pow(b, n - 1), b);
    }
  }

  lemma {:induction false} PowAdd(b: nat, m: nat, n: nat)
    ensures Pow(b, m + n) == Pow(b, m) * Pow(b, n)
  {
    if m > 0 {
      PowAdd(b, m - 1, n);
      assert Pow(b, m + n) == b * Pow(b, m - 1 + n);
      MulAssoc(b, Pow(b, m - 1), Pow(b, n));
    }
  }

  lemma MulAssoc(a: nat, b: nat, c: nat)
    ensures a * (b * c) == a * b * c
  {
  }

  /** Over any reads the peak keeps at least the fraction (127/128)^n of its start. */
  lemma {:induction false} DecayBound(peak: nat, totals: seq<nat>)
    ensures Pow(128, |totals|) * PeakAfter(peak, totals) >= Pow(127, |totals|) * peak
  {
    if totals != [] {
      var n := |totals| - 1;
      DecayBound(peak, totals[..n]);
      DecayStep(n, PeakAfter(peak, totals[..n]), PeakAfter(peak, totals), peak);
    }
  }

  /** One more factor of 127/128. */
  lemma DecayStep(n: nat, p: nat, q: nat, start: nat)
    requires 128 * q >= 127 * p
    requires Pow(128, n) * p >= Pow(127, n) * start
    ensures Pow(128, n + 1) * q >= Pow(127, n + 1) * start
  {
    var a, b := Pow(128, n), Pow(127, n);
    MulMonotone(127 * p, 128 * q, a);
    assert Pow(128, n + 1) * q == 128 * q * a by { Shuffle(128, a, q); }
    assert 127 * p * a == 127 * (a * p) by { Shuffle(127, a, p); }
    MulMonotone(b * start, a * p, 127);
    assert Pow(127, n + 1) * start == 127 * (b * start) by { MulAssoc(127, b, start); }
  }

  lemma Shuffle(a: nat, b: nat, c: nat)
    ensures a * b * c == a * c * b == a * (b * c)
  {
    MulAssoc(a, b, c);
    MulAssoc(a, c, b);
    assert b * c == c * b;
  }

  lemma PowDouble(b: nat, n: nat, v: nat)
    requires Pow(b, n) == v
    ensures Pow(b, 2 * n) == v * v
  {
    PowAdd(b, n, n);
  }

  /** (127/128)^88 lies between 0.501475 and 0.501476. */
  lemma Ratio88(m: nat, n: nat)
    requires m == 11 && n == 8 * m
    ensures 501475 * Pow(128, n) < 1000000 * Pow(127, n) < 501476 * Pow(128, n)
  {
    Eleven127(m);
    Eleven128(m);
    Eighth(127, m, 138624799340320978519423);
    Eighth(128, m, 151115727451828646838272);
  }

  lemma Eleven127(n: nat)
    requires n == 11
    ensures Pow(127, n) == 138624799340320978519423
  {
  }

  lemma Eleven128(n: nat)
    requires n == 11
    ensures Pow(128, n) == 151115727451828646838272
  {
  }

  lemma Eighth(b: nat, n: nat, v: nat)
    requires Pow(b, n) == v
    ensures Pow(b, 8 * n) == v * v * (v * v) * (v * v * (v * v))
  {
    PowDouble(b, n, v);
    PowDouble(b, 2 * n, v * v);
    PowDouble(b, 4 * n, v * v * (v * v));
  }

  lemma {:induction false} HalfUpTo88(n: nat)
    requires n <= 88
    ensures 2 * Pow(127, n) >= Pow(128, n)
    decreases 88 - n
  {
    if n == 88 {
      Ratio88(11, n);
    } else {
      HalfUpTo88(n + 1);
    }
  }

  lemma Cancel(a: nat, x: nat, y: nat)
    requires a > 0 && a * x >= a * y
    ensures x >= y
  {
    if x < y {
      MulMonotone(x + 1, y, a);
    }
  }

  /** A value that kept the fraction (127/128)^n over at most 88 reads kept half. */
  lemma HalfKept(n: nat, q: nat, start: nat)
    requires n <= 88 && Pow(128, n) * q >= Pow(127, n) * start
    ensures 2 * q >= start
  {
    HalfUpTo88(n);
    PowPositive(128, n);
    MulMonotone(Pow(128, n), 2 * Pow(127, n), start);
    Shuffle(2, Pow(127, n), start);
    Shuffle(2, Pow(128, n), q);
    assert Pow(128, n) * (2 * q) == 2 * q * Pow(128, n) == 2 * (Pow(128, n) * q);
    Cancel(Pow(128, n), 2 * q, start);
  }

  /** Whatever the traffic, 88 reads never halve the peak. */
  lemma PeakHalvesSlowly(peak: nat, totals: seq<nat>)
    requires |totals| <= 88
    ensures 2 * PeakAfter(peak, totals) >= peak
  {
    DecayBound(peak, totals);
    HalfKept(|totals|, PeakAfter(peak, totals), peak);
  }

  /** Reads without traffic. */
  function Idle(n: nat): (totals: seq<nat>)
    ensures |totals| == n
  {
    seq(n, _ => 0)
  }

  /** Peak after `n` of them. */
  function IdlePeak(peak: nat, n: nat): nat {
    if n == 0 then peak else NextPeak(IdlePeak(peak, n - 1), 0)
  }

  lemma {:induction false} IdlePeakIs(peak: nat, n: nat)
    ensures IdlePeak(peak, n) == PeakAfter(peak, Idle(n))
  {
    if n > 0 {
      IdlePeakIs(peak, n - 1);
      assert Idle(n) == Idle(n - 1) + [0];
      PeakAppend(peak, Idle(n - 1), 0);
    }
  }

  /** One idle read takes at least its 128th part, rounded, off what a peak has above 127. */
  lemma IdleReadDecays(peak: nat)
    requires peak > PEAK_RATE_MIN
    ensures var p := NextPeak(peak, 0);
            p == PEAK_RATE_MIN || (p > PEAK_RATE_MIN && 128 * (p - 127) <= 127 * (peak - 127))
  {
  }

  /** Without traffic a peak falls to its minimum, or faster than (127/128)^n. */
  lemma {:induction false} IdleDecays(peak: nat, n: nat)
    requires peak > PEAK_RATE_MIN
    ensures var p := IdlePeak(peak, n);
            || p == PEAK_RATE_MIN
            || (p > PEAK_RATE_MIN && Pow(128, n) * (p - 127) <= Pow(127, n) * (peak - 127))
  {
    if n > 0 {
      IdleDecays(peak, n - 1);
      IdleDecayStep(peak, n - 1, IdlePeak(peak, n - 1), IdlePeak(peak, n));
    }
  }

  lemma {:induction false} IdleDecayStep(peak: nat, n: nat, p: nat, q: nat)
    requires peak > PEAK_RATE_MIN && q == NextPeak(p, 0)
    requires p == PEAK_RATE_MIN || (p > PEAK_RATE_MIN && Pow(128, n) * (p - 127) <= Pow(127, n) * (peak - 127))
    ensures q == PEAK_RATE_MIN || (q > PEAK_RATE_MIN && Pow(128, n + 1) * (q - 127) <= Pow(127, n + 1) * (peak - 127))
  {
    if p > PEAK_RATE_MIN {
      IdleReadDecays(p);
      if q > PEAK_RATE_MIN {
        GrowthStep(n, p - 127, q - 127, peak - 127);
      }
    }
  }

  lemma GrowthStep(n: nat, p: nat, q: nat, start: nat)
    requires 128 * q <= 127 * p
    requires Pow(128, n) * p <= Pow(127, n) * start
    ensures Pow(128, n + 1) * q <= Pow(127, n + 1) * start
  {
    var a, b := Pow(128, n), Pow(127, n);
    MulMonotone(128 * q, 127 * p, a);
    assert Pow(128, n + 1) * q == 128 * q * a by { Shuffle(128, a, q); }
    assert 127 * p * a == 127 * (a * p) by { Shuffle(127, a, p); }
    MulMonotone(a * p, b * start, 127);
    assert Pow(127, n + 1) * start == 127 * (b * start) by { MulAssoc(127, b, start); }
  }

  lemma Below89(n: nat)
    requires n == 89
    ensures BelowHalf(n)
  {
    Ratio88(11, n - 1);
  }

  /** After `n` reads less than half is left of what decays. */
  ghost predicate BelowHalf(n: nat) {
    2000 * Pow(127, n) <= 996 * Pow(128, n)
  }

  /** A value kept below the fraction (127/128)^n of a start is then below 996/2000 of it. */
  lemma FallsBelow(n: nat, q: nat, start: nat)
    requires BelowHalf(n) && Pow(128, n) * q <= Pow(127, n) * start
    ensures 2000 * q <= 996 * start
  {
    PowPositive(128, n);
    Scaled(Pow(128, n), Pow(127, n), q, start);
  }

  lemma Scaled(a: nat, b: nat, q: nat, start: nat)
    requires a > 0 && a * q <= b * start && 2000 * b <= 996 * a
    ensures 2000 * q <= 996 * start
  {
    MulMonotone(a * q, b * start, 2000);
    MulMonotone(2000 * b, 996 * a, start);
    assert 2000 * (a * q) == a * (2000 * q) by { Shuffle(2000, a, q); Shuffle(a, 2000, q); }
    assert 2000 * b * start == 2000 * (b * start) by { MulAssoc(2000, b, start); }
    assert 996 * a * start == a * (996 * start) by { Shuffle(996, a, start); Shuffle(a, 996, start); }
    Cancel(a, 996 * start, 2000 * q);
  }

  lemma {:induction false} DecayedBelowHalf(n: nat, peak: nat, p: nat)
    requires BelowHalf(n) && peak > 2 * PEAK_RATE_MIN
    requires p == PEAK_RATE_MIN || (p > PEAK_RATE_MIN && Pow(128, n) * (p - 127) <= Pow(127, n) * (peak - 127))
    ensures 2 * p < peak
  {
    if p > PEAK_RATE_MIN {
      FallsBelow(n, p - 127, peak - 127);
    }
  }

  lemma IdleAtLeastMin(peak: nat, n: nat)
    requires n > 0
    ensures IdlePeak(peak, n) >= PEAK_RATE_MIN
  {
  }

  lemma {:induction false} IdleHalves(peak: nat, n: nat)
    requires n > 0 && BelowHalf(n)
    ensures 2 * IdlePeak(peak, n) < peak <==> peak > 2 * PEAK_RATE_MIN
  {
    IdleAtLeastMin(peak, n);
    if peak > 2 * PEAK_RATE_MIN {
      IdleDecays(peak, n);
      DecayedBelowHalf(n, peak, IdlePeak(peak, n));
    }
  }

  /** 88 is the best possible: 89 idle reads halve every peak that can be halved at all. */
  lemma {:induction false} HalvedAfter89Iff(peak: nat)
    ensures 2 * PeakAfter(peak, Idle(89)) < peak <==> peak > 2 * PEAK_RATE_MIN
  {
    var n := 89;
    IdlePeakIs(peak, n);
    Below89(n);
    IdleHalves(peak, n);
  }

  lemma {:induction false} IdleFalls(peak: nat, n: nat)
    ensures var p := IdlePeak(peak, n);
            && (p <= PEAK_RATE_MIN || p + n <= peak)
            && (n > 0 ==> p >= PEAK_RATE_MIN)
  {
    if n > 0 {
      IdleFalls(peak, n - 1);
    }
  }

  /** Under zero traffic the peak reaches its minimum within `peak` reads and stays there. */
  lemma {:induction false} IdleSettles(peak: nat, n: nat)
    requires n > 0 && n >= peak
    ensures PeakAfter(peak, Idle(n)) == PEAK_RATE_MIN
  {
    IdlePeakIs(peak, n);
    IdleFalls(peak, n);
  }
}
