/** The network source as the program keeps it: scalar fields and a 512-entry ring of rates,
    updated in place by every read. */
module NetEngine {
  import opened GraphTypes
  import opened NetRates

  /** Slot of the ring written `i + 1` reads before the slot `index` comes up next. */
  function Slot(index: nat, i: nat): (j: nat)
    requires index < HISTORY_MAX && i < HISTORY_MAX
    ensures j < HISTORY_MAX
  {
    if i < index then index - 1 - i else index + HISTORY_MAX - 1 - i
  }

  /** The `num` entries last written to the ring, newest first. */
  function RingContents(ring: seq<Rate>, index: nat, num: nat): (h: seq<Rate>)
    requires |ring| == HISTORY_MAX && index < HISTORY_MAX && num <= HISTORY_MAX
    ensures |h| == num
  {
    seq(num, i requires 0 <= i < num => ring[Slot(index, i)])
  }

  class NetState {
    var prevRx: nat
    var prevTx: nat
    var peakRate: nat
    var scaleIndex: nat
    const history: array<Rate>
    var historyIndex: nat // next slot to write
    var historyNum: nat

    ghost predicate Valid()
      reads `historyIndex, `historyNum
    {
      && history.Length == HISTORY_MAX
      && historyIndex < HISTORY_MAX
      && historyNum <= HISTORY_MAX
    }

    /** The remembered rates, newest first. */
    ghost function History(): (h: seq<Rate>)
      requires Valid()
      reads `historyIndex, `historyNum, history
      ensures |h| == historyNum
    {
      RingContents(history[..], historyIndex, historyNum)
    }

    ghost function State(): Net
      requires Valid()
      reads this, history
    {
      Net(prevRx, prevTx, peakRate, scaleIndex, History())
    }

    /** The state right after the program primed its counters with one read. */
    constructor (totalRx: nat, totalTx: nat)
      ensures Valid() && fresh(history)
      ensures State() == Primed(totalRx, totalTx)
    {
      prevRx, prevTx, peakRate, scaleIndex := 0, 0, 0, 0;
      history := new Rate[HISTORY_MAX](_ => Rate(0, 0));
      historyIndex, historyNum := 0, 0;
      new;
      assert State() == Net(0, 0, 0, 0, []);
      var vs, regenerate := StatsRead(totalRx, totalTx);
      peakRate, historyIndex, historyNum := 0, 0, 0;
      assert History() == [];
    }

    method ScaleIndexCeil(val: nat) returns (index: nat)
      ensures index == Ceiling(val)
    {
      for i := 0 to |SCALES|
        invariant forall j :: 0 <= j < i ==> SCALES[j] < val
      {
        if SCALES[i] >= val {
          CeilingUnique(val, i, Ceiling(val));
          return i;
        }
      }
      index := |SCALES| - 1;
      CeilingUnique(val, index, Ceiling(val));
    }

    /** One read, given the byte totals parsed from the statistics file. */
    method StatsRead(totalRx: nat, totalTx: nat) returns (vs: Values, regenerate: bool)
      requires Valid()
      modifies this, history
      ensures Valid()
      ensures ReadOutcome(State(), vs, regenerate) == Read(old(State()), totalRx, totalTx)
    {
      var prevScale := scaleIndex;
      var rate := Ingest(totalRx, totalTx);
      vs := Scaled(rate);
      regenerate := scaleIndex != prevScale;
    }

    /** Measures the rate (zero when a counter went backwards), remembers it and adapts the
        peak. */
    method Ingest(totalRx: nat, totalTx: nat) returns (rate: Rate)
      requires Valid()
      modifies this, history
      ensures Valid()
      ensures rate == RateOf(old(State()), totalRx, totalTx)
      ensures State() == NextNet(old(State()), totalRx, totalTx)
    {
      var rx, tx := 0, 0;
      if totalRx >= prevRx {
        rx := totalRx - prevRx;
      }
      if totalTx >= prevTx {
        tx := totalTx - prevTx;
      }
      prevRx, prevTx := totalRx, totalTx;
      rate := Rate(rx, tx);
      Record(rate);
      UpdatePeak(rate.Total());
    }

    /** The three category bytes at the current peak. */
    method Scaled(r: Rate) returns (vs: Values)
      requires peakRate > 0
      ensures vs == Bytes(r, peakRate)
    {
      vs := [ToByte(Min(r.rx, peakRate), peakRate), ToByte(Min(r.tx, peakRate), peakRate), ToByte(r.Both(), peakRate)];
    }

    /** Stores a rate in the ring, over the oldest one when it is full. */
    method Record(rate: Rate)
      requires Valid()
      modifies history, `historyIndex, `historyNum
      ensures Valid()
      ensures History() == Remember(old(History()), rate)
    {
      history[historyIndex] := rate;
      historyIndex := (historyIndex + 1) % HISTORY_MAX;
      if historyNum < HISTORY_MAX {
        historyNum := historyNum + 1;
      }
      assert History()[0] == rate;
      assert forall i :: 1 <= i < historyNum ==> History()[i] == old(History())[i - 1];
    }

    /** Follows a higher total at once, otherwise decays; never below the minimum. */
    method UpdatePeak(total: nat)
      modifies `peakRate, `scaleIndex
      ensures peakRate == NextPeak(old(peakRate), total)
      ensures scaleIndex == NextScale(old(peakRate), old(scaleIndex), total)
    {
      if total > peakRate {
        peakRate := total;
        scaleIndex := ScaleIndexCeil(peakRate);
      } else if peakRate > PEAK_DECAY_THRESHOLD {
        peakRate := peakRate - peakRate / PEAK_DECAY_DIVISOR;
        scaleIndex := ScaleIndexCeil(peakRate);
      }
      if peakRate < PEAK_RATE_MIN {
        peakRate := PEAK_RATE_MIN;
        scaleIndex := ScaleIndexCeil(PEAK_RATE_MIN);
      }
    }

    /** Redraws the sample `i + 1` reads before the current one. */
    method RewriteSample(samples: array<Values>, i: nat)
      requires Valid() && peakRate > 0
      requires i < samples.Length && i + 1 < historyNum && |samples[i]| == 3
      modifies samples
      ensures samples[i] == Bytes(History()[i + 1], peakRate)
      ensures forall j :: 0 <= j < samples.Length && j != i ==> samples[j] == old(samples[j])
    {
      // Never below zero: at most 510 entries precede the current one.
      var slot: nat := (historyIndex + HISTORY_MAX - 2 - i) % HISTORY_MAX;
      RingOffsetTight(i);
      var bytes := Scaled(history[slot]);
      samples[i] := samples[i][0 := bytes[0]][1 := bytes[1]][2 := bytes[2]];
    }

    /** Redraws older samples (newest first) at the current peak.  Samples the history covers
        must have their three-byte buffer already; the others are cleared. */
    method RegenerateSamples(samples: array<Values>)
      requires Valid() && peakRate > 0
      requires forall i :: 0 <= i < samples.Length && i + 1 < historyNum ==> |samples[i]| == 3
      modifies samples
      ensures samples[..] == Regenerated(State(), old(samples[..]))
    {
      var done := 0;
      ghost var before := samples[..];
      if historyNum > 1 {
        done := Min(samples.Length, historyNum - 1);
        for i := 0 to done
          invariant forall j :: 0 <= j < i ==> samples[j] == Bytes(History()[j + 1], peakRate)
          invariant forall j :: i <= j < samples.Length ==> samples[j] == before[j]
        {
          RewriteSample(samples, i);
        }
      }
      for i := done to samples.Length
        invariant forall j :: 0 <= j < done ==> samples[j] == Bytes(History()[j + 1], peakRate)
        invariant forall j :: done <= j < i ==> samples[j] == Cleared(before[j])
        invariant forall j :: i <= j < samples.Length ==> samples[j] == before[j]
      {
        samples[i] := Cleared(samples[i]);
      }
    }

    /** How far back regeneration may reach without the ring index wrapping below zero: the
        full 512-entry history is the extreme case. */
    lemma RingOffsetTight(i: nat)
      requires Valid() && i + 1 < historyNum
      ensures historyIndex + HISTORY_MAX - 2 - i >= 0
      ensures historyIndex + HISTORY_MAX - 2 - i == 0 <==>
              historyIndex == 0 && historyNum == HISTORY_MAX && i == HISTORY_MAX - 2
      ensures (historyIndex + HISTORY_MAX - 2 - i) % HISTORY_MAX == Slot(historyIndex, i + 1)
    {
    }
  }
}
