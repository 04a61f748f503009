/** The scrolling graph as the program keeps it: a ring of samples and a pixel buffer, both
    changed in place.  Every method promises the corresponding step of `GraphSteps` on the
    abstract state; what those steps draw is proved in `GraphPicture`.  */
module GraphEngine {
  import opened GraphSteps
  import opened GraphTypes
  import opened Options

  class GraphState {
    const cfg: Config

    // Ring of samples, one slot per column.
    const prev: array<nat>
    const next: array<nat>
    const values: array<Values>
    const peaks: array<Byte>
    var current: nat

    // Rendering buffers; pixels[y, x], row 0 on top.
    const rowCounts: array<nat>
    const pixels: array2<Pixel>

    // Peak cache.
    var yMin: nat
    var yMinPrev: nat
    var samplePeak: Option<nat>

    // ---------- Abstract state ----------

    /** Slot reached from `i` by `k` steps along `prev`. */
    function Back(i: nat, k: nat): (j: nat)
      requires i < cfg.w && k <= cfg.w
      ensures j < cfg.w
      ensures j == i <==> k == 0 || k == cfg.w
    {
      if k <= i then i - k else i + cfg.w - k
    }

    ghost predicate Linked()
      reads prev, next
    {
      && prev.Length == next.Length == cfg.w
      && (forall i :: 0 <= i < cfg.w ==> prev[i] == Back(i, 1))
      && (forall i :: 0 <= i < cfg.w ==> next[i] == if i + 1 < cfg.w then i + 1 else 0)
    }

    ghost predicate Buffers()
      reads prev, next
    {
      && cfg.Valid()
      && Linked()
      && values.Length == peaks.Length == cfg.w
      && rowCounts.Length == cfg.h
      && pixels.Length0 == cfg.h && pixels.Length1 == cfg.w
      && rowCounts != prev && rowCounts != next
      && Apart()
    }

    /** The ring is not part of the rendering buffers. */
    ghost predicate Apart() {
      && {prev as object, next, values, peaks} !! {rowCounts as object, pixels}
    }

    ghost predicate Peaked(i: nat)
      requires i < values.Length && i < peaks.Length
      reads values, peaks
    {
      peaks[i] == Peak(cfg.mode, values[i])
    }

    ghost predicate Valid()
      reads this, prev, next, values, peaks
    {
      && Buffers()
      && (forall i :: 0 <= i < cfg.w ==> Peaked(i))
      && current < cfg.w
      && yMin <= cfg.h
      && yMinPrev <= cfg.h
      && (samplePeak.Some? ==> samplePeak.value < cfg.w)
    }

    /** Samples met walking `prev` from `start`. */
    ghost function WindowFrom(start: nat): (r: seq<Values>)
      requires start < cfg.w && values.Length == cfg.w
      reads values
      ensures |r| == cfg.w
    {
      seq(cfg.w, k requires 0 <= k < cfg.w reads values => values[Back(start, k)])
    }

    ghost function Col(x: nat): (r: Column)
      requires pixels.Length0 == cfg.h && pixels.Length1 == cfg.w && x < cfg.w
      reads pixels
      ensures |r| == cfg.h
    {
      seq(cfg.h, y requires 0 <= y < cfg.h reads pixels => pixels[y, x])
    }

    ghost function Pic(): (r: Picture)
      requires pixels.Length0 == cfg.h && pixels.Length1 == cfg.w
      reads pixels
      ensures IsPicture(cfg, r)
    {
      seq(cfg.w, x requires 0 <= x < cfg.w reads pixels => Col(x))
    }

    /** How many steps back from `start` the slot `i` lies. */
    function AgeFrom(start: nat, i: nat): (k: nat)
      requires start < cfg.w && i < cfg.w
      ensures k < cfg.w && Back(start, k) == i
    {
      if i <= start then start - i else start + cfg.w - i
    }

    ghost function PeakAge(start: nat, peak: Option<nat>): (r: Option<nat>)
      requires start < cfg.w && (peak.Some? ==> peak.value < cfg.w)
    {
      if peak.Some? then Some(AgeFrom(start, peak.value)) else None
    }

    ghost function State(): (g: Graph)
      requires Valid()
      reads this, prev, next, values, peaks, pixels
      ensures Shaped(cfg, g)
    {
      Graph(WindowFrom(current), Pic(), yMin, yMinPrev, PeakAge(current, samplePeak))
    }

    /** Slot reached by following `prev` pointers `k` times. */
    function Walk(start: nat, k: nat): (j: nat)
      requires Linked() && start < cfg.w
      reads prev, next
      ensures j < cfg.w
    {
      if k == 0 then start else prev[Walk(start, k - 1)]
    }

    /** Walking the ring returns to its start after exactly one step per slot, having met
        every slot exactly once. */
    lemma {:induction false} WalkMeetsEachOnce(start: nat, k: nat)
      requires Linked() && start < cfg.w && k <= cfg.w
      ensures Walk(start, k) == Back(start, k)
      ensures Walk(start, k) == start <==> k == 0 || k == cfg.w
      ensures k < cfg.w ==> AgeFrom(start, Walk(start, k)) == k
      ensures forall i :: 0 <= i < cfg.w ==> Back(start, AgeFrom(start, i)) == i
      decreases k
    {
      if k > 0 {
        WalkMeetsEachOnce(start, k - 1);
      }
    }

    // ---------- Construction ----------

    constructor (cfg: Config)
      requires cfg.Valid()
      ensures this.cfg == cfg
      ensures Valid() && fresh(prev) && fresh(next) && fresh(values) && fresh(peaks)
      ensures fresh(rowCounts) && fresh(pixels)
      ensures State() == Start(cfg)
    {
      this.cfg := cfg;
      prev, next := new nat[cfg.w], new nat[cfg.w];
      values, peaks := new Values[cfg.w], new Byte[cfg.w];
      rowCounts := new nat[cfg.h];
      pixels := new Pixel[cfg.h, cfg.w];
      current := 0;
      yMin, yMinPrev, samplePeak := 0, 0, None;
      new;
      SamplesInit();
      RebuildFromSamples();
      assert State().window == Start(cfg).window;
    }

    /** Links the slots into a ring of blank samples. */
    method SamplesInit()
      requires cfg.Valid()
      requires prev.Length == next.Length == values.Length == peaks.Length == cfg.w && prev != next
      modifies prev, next, values, peaks
      ensures Linked()
      ensures forall i :: 0 <= i < cfg.w ==> values[i] == [] && peaks[i] == 0
    {
      for i := 0 to cfg.w
        invariant forall j :: 0 <= j < i ==> prev[j] == Back(j, 1)
        invariant forall j :: 0 <= j < i ==> next[j] == if j + 1 < cfg.w then j + 1 else 0
        invariant forall j :: 0 <= j < i ==> values[j] == [] && peaks[j] == 0
      {
        RingIndex(i, cfg.w);
        prev[i] := (i + cfg.w - 1) % cfg.w;
        next[i] := (i + 1) % cfg.w;
        values[i] := [];
        peaks[i] := 0;
      }
    }

    // ---------- Samples ----------

    /** Computes the peak of slot `i` from its values. */
    method ComputePeak(i: nat)
      requires values.Length == peaks.Length == cfg.w && i < cfg.w
      modifies peaks
      ensures Peaked(i)
      ensures forall j :: 0 <= j < cfg.w && j != i ==> peaks[j] == old(peaks[j])
    {
      var vs := values[i];
      if cfg.mode.Stacked? {
        var total := 0;
        for k := 0 to |vs|
          invariant total == Sum(vs[..k])
        {
          assert vs[..k + 1][..k] == vs[..k];
          total := total + vs[k];
        }
        assert vs[..|vs|] == vs;
        peaks[i] := Min(total, 255);
      } else {
        var most: Byte := 0;
        for k := 0 to |vs|
          invariant most == Max(vs[..k])
        {
          assert vs[..k + 1][..k] == vs[..k];
          most := if vs[k] > most then vs[k] else most;
        }
        assert vs[..|vs|] == vs;
        peaks[i] := most;
      }
    }

    /** `k` samples into the rescan of a window from slot `start`, which has found `y` and `peak`. */
    ghost predicate Rescanned(window: seq<Values>, start: nat, k: nat, y: nat, peak: Option<nat>)
      requires cfg.Valid() && |window| == cfg.w && start < cfg.w
    {
      && k <= cfg.w
      && (peak.Some? ==> peak.value < cfg.w)
      && (y, PeakAge(start, peak)) == Rescan(cfg, window, k)
    }

    /** One sample's part of it. */
    lemma {:induction false} RescanStep(window: seq<Values>, start: nat, k: nat, sample: nat, y: nat, peak: Option<nat>)
      requires Buffers() && start < cfg.w && k < cfg.w && sample == Back(start, k) && Peaked(sample)
      requires window == WindowFrom(start) && Rescanned(window, start, k, y, peak)
      ensures var usage := peaks[sample];
              var higher := 0 < usage && UsageToY(usage, cfg.h) < y;
              Rescanned(window, start, k + 1, if higher then UsageToY(usage, cfg.h) else y,
                        if higher then Some(sample) else peak)
    {
      assert window[k] == values[sample];
      assert AgeFrom(start, sample) == k;
    }

    /** Full rescan for the highest peak, newest sample first, over exactly one turn of the
        ring. */
    method YMinFromSamples(start: nat)
      requires Buffers() && (forall i :: 0 <= i < cfg.w ==> Peaked(i)) && start < cfg.w
      modifies `yMin, `samplePeak
      ensures samplePeak.Some? ==> samplePeak.value < cfg.w
      ensures (yMin, PeakAge(start, samplePeak)) == Rescan(cfg, WindowFrom(start), cfg.w)
    {
      ghost var window := WindowFrom(start);
      var y: nat, peak: Option<nat> := cfg.h, None;
      var sample := start;
      ghost var k := 0;
      while true
        invariant 0 <= k < cfg.w && sample == Back(start, k)
        invariant Rescanned(window, start, k, y, peak)
        decreases cfg.w - k
      {
        RescanStep(window, start, k, sample, y, peak);
        if 0 < peaks[sample] {
          var ySample := UsageToY(peaks[sample], cfg.h);
          if ySample < y {
            y, peak := ySample, Some(sample);
          }
        }
        sample := prev[sample];
        k := k + 1;
        if sample == start {
          break;
        }
      }
      yMin, samplePeak := y, peak;
    }

    // ---------- Drawing ----------

    method ScrollLeft(yStart: nat)
      requires Buffers() && yStart <= cfg.h
      modifies pixels
      ensures Pic() == Scroll(cfg, old(Pic()), yStart)
    {
      for y := yStart to cfg.h
        invariant forall r, x :: 0 <= r < cfg.h && 0 <= x < cfg.w ==>
          pixels[r, x] == if yStart <= r < y && x + 1 < cfg.w then old(pixels[r, x + 1]) else old(pixels[r, x])
      {
        forall x | 0 <= x < cfg.w - 1 {
          pixels[y, x] := pixels[y, x + 1];
        }
      }
      assert forall x :: 0 <= x < cfg.w ==> Col(x) == Scroll(cfg, old(Pic()), yStart)[x];
    }

    method FillBlack()
      requires Buffers()
      modifies pixels
      ensures Pic() == Blank(cfg)
    {
      for y := 0 to cfg.h
        invariant forall r, x :: 0 <= r < y && 0 <= x < cfg.w ==> pixels[r, x] == BLACK
      {
        for x := 0 to cfg.w
          invariant forall r, c :: 0 <= r < y && 0 <= c < cfg.w ==> pixels[r, c] == BLACK
          invariant forall c :: 0 <= c < x ==> pixels[y, c] == BLACK
        {
          pixels[y, x] := BLACK;
        }
      }
      assert forall x :: 0 <= x < cfg.w ==> Col(x) == Blank(cfg)[x];
    }

    method PeakConnectorDraw(x: nat, from: nat, to: nat)
      requires Buffers() && x < cfg.w && to <= cfg.h
      modifies pixels
      ensures Pic() == old(Pic())[x := DrawLine(cfg, old(Col(x)), from, to)]
    {
      var y := from;
      while y < to
        invariant from <= y
        invariant y <= to || y == from
        invariant forall r, c :: 0 <= r < cfg.h && 0 <= c < cfg.w ==>
          pixels[r, c] == if c == x && from <= r < y && r < to then cfg.line else old(pixels[r, c])
      {
        pixels[y, x] := cfg.line;
        y := y + 1;
      }
      assert Col(x) == DrawLine(cfg, old(Col(x)), from, to);
      assert forall c :: 0 <= c < cfg.w && c != x ==> Col(c) == old(Col(c));
    }

    method PeakConnectorDrawBetween(usageCurr: Byte, usagePrev: Byte, columnCurr: nat, columnPrev: nat)
      requires Buffers() && columnCurr < cfg.w && columnPrev < cfg.w
      modifies pixels
      ensures Pic() == Connect(cfg, old(Pic()), usageCurr, usagePrev, columnCurr, columnPrev)
    {
      if usageCurr == usagePrev {
        return;
      }
      var yCurr, yPrev := YLine(usageCurr, cfg.h), YLine(usagePrev, cfg.h);
      if usageCurr < usagePrev {
        PeakConnectorDraw(columnCurr, if 0 < usagePrev then yPrev + 1 else yPrev, yCurr);
      } else {
        PeakConnectorDraw(columnPrev, if 0 < usageCurr then yCurr + 1 else yCurr, yPrev);
      }
    }

    /** Fills the scratch buffer: how many values of the sample cover each row. */
    method CountRows(sample: nat)
      requires Buffers() && sample < cfg.w
      modifies rowCounts
      ensures forall y :: 0 <= y < cfg.h ==> rowCounts[y] == RowCount(cfg, values[sample], y)
    {
      forall y | 0 <= y < cfg.h {
        rowCounts[y] := 0;
      }
      var vs := values[sample];
      var cumulative: nat := 0;
      for i := 0 to |vs|
        invariant cfg.mode.Stacked? ==> cumulative == Sum(vs[..i])
        invariant forall y :: 0 <= y < cfg.h ==> rowCounts[y] == |Reaching(cfg, vs, i, y)|
      {
        forall y | 0 <= y < cfg.h
          ensures |Reaching(cfg, vs, i + 1, y)| == |Reaching(cfg, vs, i, y)| + if Covers(cfg, vs, i, y) then 1 else 0
        {
          ReachingStep(cfg, vs, i, y);
        }
        assert vs[..i + 1][..i] == vs[..i];
        if vs[i] > 0 {
          var level := vs[i];
          if cfg.mode.Stacked? {
            cumulative := cumulative + vs[i];
            level := Min(cumulative, 255);
          }
          CoverFrom(UsageToY(level, cfg.h));
        }
      }
    }

    /** Marks all rows from `yTop` to the bottom as covered once more. */
    method CoverFrom(yTop: nat)
      requires rowCounts.Length == cfg.h && yTop < cfg.h
      modifies rowCounts
      ensures forall y :: 0 <= y < cfg.h ==> rowCounts[y] == old(rowCounts[y]) + if yTop <= y then 1 else 0
    {
      for y := yTop to cfg.h
        invariant forall r :: 0 <= r < cfg.h ==> rowCounts[r] == old(rowCounts[r]) + if yTop <= r < y then 1 else 0
      {
        rowCounts[y] := rowCounts[y] + 1;
      }
    }

    /** Blackens pixels upward from `yLine` until the first black one. */
    method ClearStale(column: nat, yLine: nat)
      requires Buffers() && column < cfg.w && yLine <= cfg.h
      modifies pixels
      ensures forall r, c :: 0 <= r < cfg.h && 0 <= c < cfg.w ==>
        pixels[r, c] ==
        if c == column && StaleTop(old(Col(column)), yLine) <= r < yLine then BLACK else old(pixels[r, c])
    {
      var y := yLine;
      while y > 0
        invariant 0 <= y <= yLine
        invariant StaleTop(old(Col(column)), y) == StaleTop(old(Col(column)), yLine)
        invariant forall r, c :: 0 <= r < cfg.h && 0 <= c < cfg.w ==>
          pixels[r, c] == if c == column && y <= r < yLine then BLACK else old(pixels[r, c])
      {
        assert pixels[y - 1, column] == old(Col(column))[y - 1];
        if pixels[y - 1, column] == BLACK {
          break;
        }
        y := y - 1;
        pixels[y, column] := BLACK;
      }
    }

    /** Paints the rows from `yLine` down from the row counts, then the line pixel. */
    method PaintBar(sample: nat, column: nat, yLine: nat)
      requires Buffers() && sample < cfg.w && column < cfg.w
      requires yLine == Line(cfg, values[sample])
      requires forall y :: 0 <= y < cfg.h ==> rowCounts[y] == RowCount(cfg, values[sample], y)
      modifies pixels
      ensures forall r, c :: 0 <= r < cfg.h && 0 <= c < cfg.w ==>
        pixels[r, c] == if c == column && yLine <= r then LineAndBar(cfg, values[sample], r) else old(pixels[r, c])
    {
      var num := |values[sample]|;
      for y := yLine to cfg.h
        invariant forall r, c :: 0 <= r < cfg.h && 0 <= c < cfg.w ==>
          pixels[r, c] == if c == column && yLine <= r < y then BarPixel(cfg, values[sample], r) else old(pixels[r, c])
      {
        var count := rowCounts[y];
        ReachingBounded(cfg, values[sample], num, y);
        if count == 0 {
          pixels[y, column] := BLACK;
        } else if num <= 1 {
          pixels[y, column] := cfg.lut[255];
        } else {
          LutIndexInRange(count, num);
          pixels[y, column] := cfg.lut[(count - 1) * 255 / (num - 1)];
        }
      }
      if yLine < cfg.h {
        pixels[yLine, column] := cfg.line;
      }
    }

    method ColumnRender(sample: nat, column: nat) returns (yLine: nat)
      requires Buffers() && sample < cfg.w && column < cfg.w && Peaked(sample)
      modifies pixels, rowCounts
      ensures yLine == Line(cfg, values[sample])
      ensures Pic() == old(Pic())[column := RenderOver(cfg, old(Col(column)), values[sample])]
    {
      CountRows(sample);
      yLine := YLine(peaks[sample], cfg.h);
      ClearStale(column, yLine);
      PaintBar(sample, column, yLine);
      assert Col(column) == RenderOver(cfg, old(Col(column)), values[sample]);
      assert forall c :: 0 <= c < cfg.w && c != column ==> Col(c) == old(Col(c));
    }

    // ---------- Ticks ----------

    /** Rebuilds the picture from the ring, newest sample in the rightmost column. */
    method RebuildFromSamples()
      requires Buffers() && (forall i :: 0 <= i < cfg.w ==> Peaked(i)) && current < cfg.w
      modifies pixels, rowCounts, `yMin, `yMinPrev, `samplePeak
      ensures Valid()
      ensures values[current] == [] ==> Pic() == Blank(cfg) && yMin == yMinPrev == cfg.h && samplePeak == None
      ensures values[current] != [] ==>
        && Pic() == RebuildFrom(cfg, old(Pic()), WindowFrom(current), cfg.w - 1)
        && (yMin, PeakAge(current, samplePeak)) == Rescan(cfg, WindowFrom(current), cfg.w)
        && yMinPrev == yMin
    {
      if |values[current]| == 0 {
        yMin, yMinPrev, samplePeak := cfg.h, cfg.h, None;
        FillBlack();
        return;
      }
      RebuildAll();
      YMinFromSamples(current);
      yMinPrev := yMin;
    }

    /** Renders one column and the connector to the older neighbour, which is rendered next.
        Returns the older sample's slot. */
    method RebuildOne(sample: nat, column: nat, ghost window: seq<Values>) returns (older: nat)
      requires Buffers() && (forall i :: 0 <= i < cfg.w ==> Peaked(i)) && current < cfg.w
      requires window == WindowFrom(current)
      requires column < cfg.w && sample == Back(current, cfg.w - 1 - column)
      modifies pixels, rowCounts
      ensures older == Back(current, cfg.w - column)
      ensures Pic() == RebuildColumn(cfg, old(Pic()), window, column)
    {
      assert window[cfg.w - 1 - column] == values[sample] && Peaked(sample);
      var yLine := ColumnRender(sample, column);
      assert Pic() == old(Pic())[column := RenderOver(cfg, old(Pic())[column], window[cfg.w - 1 - column])];
      var usage := peaks[sample];
      older := prev[sample];
      if older != current && 0 < column {
        assert window[cfg.w - column] == values[older] && Peaked(older);
        PeakConnectorDrawBetween(usage, peaks[older], column, column - 1);
      }
    }

    /** Walks the ring once, right to left.  It has one slot per column, so no column is left
        over to be blackened. */
    method RebuildAll()
      requires Buffers() && (forall i :: 0 <= i < cfg.w ==> Peaked(i)) && current < cfg.w
      modifies pixels, rowCounts
      ensures Pic() == RebuildFrom(cfg, old(Pic()), WindowFrom(current), cfg.w - 1)
    {
      var sample := current;
      var column := cfg.w;
      ghost var window := WindowFrom(current);
      ghost var goal := RebuildFrom(cfg, Pic(), window, cfg.w - 1);
      while true
        invariant 0 < column <= cfg.w
        invariant sample == Back(current, cfg.w - column)
        invariant LeadsTo(cfg, Pic(), window, column, goal)
        decreases column
      {
        ghost var before := Pic();
        column := column - 1;
        sample := RebuildOne(sample, column, window);
        RebuildTurn(cfg, before, Pic(), window, column, goal);
        if column == 0 || sample == current {
          break;
        }
      }
      assert column == 0;
    }

    /** Scrolls in the sample just written to the slot after the current one. */
    method UpdateWithSample(newSample: nat)
      requires Valid() && cfg.w >= 2 && newSample == next[current]
      modifies pixels, rowCounts, `yMin, `yMinPrev, `samplePeak, `current
      ensures Valid()
      ensures State() == Update(cfg, old(State()), values[newSample])
    {
      ghost var g := State();
      var needRescan := Some(newSample) == samplePeak;
      var yLine := ScrollAndRender(newSample);
      UpdatePeakCache(newSample, needRescan, yLine);
      FinishUpdate(newSample, g);
    }

    /** The rest of an update of `g`, with the picture scrolled and the cache updated. */
    method FinishUpdate(newSample: nat, ghost g: Graph)
      requires Valid() && cfg.w >= 2 && newSample == next[current] && Shaped(cfg, g)
      requires g.window == WindowFrom(current) && Pic() == Scrolled(cfg, g.pic, g.yMinPrev, values[newSample])
      requires (yMin, PeakAge(newSample, samplePeak)) ==
               UpdatePeak(cfg, g.window, g.yMin, g.peakAge, values[newSample])
      modifies pixels, `yMinPrev, `current
      ensures Valid()
      ensures State() == Update(cfg, g, values[newSample])
    {
      yMinPrev := yMin;
      Advance(newSample);
    }

    /** Makes the new sample current and connects it to the one before it. */
    method Advance(newSample: nat)
      requires Valid() && cfg.w >= 2 && newSample == next[current]
      modifies pixels, `current
      ensures Valid() && current == newSample
      ensures WindowFrom(current) == Push(cfg, WindowFrom(old(current)), values[newSample])
      ensures Pic() == Connect(cfg, old(Pic()), Peak(cfg.mode, values[newSample]),
                               Peak(cfg.mode, WindowFrom(old(current))[0]), cfg.w - 1, cfg.w - 2)
    {
      assert WindowFrom(newSample) == Push(cfg, WindowFrom(current), values[newSample]);
      var older := prev[newSample];
      assert older == current && WindowFrom(current)[0] == values[older];
      assert Peaked(older) && Peaked(newSample);
      current := newSample;
      PeakConnectorDrawBetween(peaks[newSample], peaks[older], cfg.w - 1, cfg.w - 2);
    }

    method ScrollAndRender(newSample: nat) returns (yLine: nat)
      requires Buffers() && newSample < cfg.w && Peaked(newSample) && yMinPrev <= cfg.h
      modifies pixels, rowCounts
      ensures yLine == Line(cfg, values[newSample])
      ensures Pic() == Scrolled(cfg, old(Pic()), yMinPrev, values[newSample])
    {
      ScrollLeft(yMinPrev);
      yLine := ColumnRender(newSample, cfg.w - 1);
    }

    /** Rescans only when the overwritten sample was the cached peak. */
    method UpdatePeakCache(newSample: nat, needRescan: bool, yLine: nat)
      requires Valid() && cfg.w >= 2 && newSample == next[current]
      requires needRescan == (Some(newSample) == samplePeak)
      requires yLine == Line(cfg, values[newSample])
      modifies `yMin, `samplePeak
      ensures Valid()
      ensures (yMin, PeakAge(newSample, samplePeak)) ==
              UpdatePeak(cfg, WindowFrom(current), old(yMin), PeakAge(current, old(samplePeak)), values[newSample])
    {
      assert needRescan <==> PeakAge(current, samplePeak) == Some(cfg.w - 1);
      if needRescan {
        assert WindowFrom(newSample) == Push(cfg, WindowFrom(current), values[newSample]);
        YMinFromSamples(newSample);
      } else if yLine <= yMin {
        yMin := yLine;
        samplePeak := Some(newSample);
      }
    }

    /** One timer tick, given what the statistics callback (and, when the scale changed, the
        regeneration callback) delivered. */
    method SampleUpdate(r: Reading)
      requires Valid() && Fits(cfg, r) && !r.Redraw?
      modifies this, pixels, rowCounts, values, peaks
      ensures Valid()
      ensures State() == Step(cfg, old(State()), r)
    {
      if cfg.w < 2 {
        return;
      }
      var sample := next[current];
      match r {
        case ReadError =>
        case ReadOk(vs) => Accept(sample, vs);
        case ReadRegenerate(vs, history) => Regenerate(sample, vs, history);
      }
    }

    /** The icon got a new size which leaves the graph its size. */
    method IconResized()
      requires Valid()
      modifies pixels, rowCounts, `yMin, `yMinPrev, `samplePeak
      ensures Valid()
      ensures State() == Rebuild(cfg, old(State()))
    {
      RebuildFromSamples();
    }

    /** Dispatches one event. */
    method Handle(r: Reading)
      requires Valid() && Fits(cfg, r)
      modifies this, pixels, rowCounts, values, peaks
      ensures Valid()
      ensures State() == Step(cfg, old(State()), r)
    {
      if r.Redraw? {
        IconResized();
      } else {
        SampleUpdate(r);
      }
    }

    method Accept(sample: nat, vs: Values)
      requires Valid() && cfg.w >= 2 && sample == next[current]
      modifies this, pixels, rowCounts, values, peaks
      ensures Valid()
      ensures State() == Update(cfg, old(State()), vs)
    {
      UpdateIgnoresOldest(cfg, State(), vs);
      StoreSample(sample, vs);
      UpdateWithSample(sample);
    }

    method Regenerate(sample: nat, vs: Values, history: seq<Values>)
      requires Valid() && cfg.w >= 2 && sample == next[current] && |history| == cfg.w - 1
      modifies this, pixels, rowCounts, values, peaks
      ensures Valid()
      ensures State() == Rebuild(cfg, old(State()).(window := [vs] + history))
    {
      RegenerateAll(sample, vs, history);
      current := sample;
      RebuildFromSamples();
    }

    /** Puts the new values over the oldest sample and computes their peak. */
    method StoreSample(sample: nat, vs: Values)
      requires Valid() && cfg.w >= 2 && sample == next[current]
      modifies values, peaks
      ensures Valid() && values[sample] == vs
      ensures State() == old(State()).(window := old(State()).window[cfg.w - 1 := vs])
    {
      values[sample] := vs;
      ComputePeak(sample);
      forall j | 0 <= j < cfg.w
        ensures Peaked(j)
      {
        assert j != sample ==> old(Peaked(j));
      }
      assert WindowFrom(current) == old(State()).window[cfg.w - 1 := vs];
    }

    /** Stores the new sample and replaces all others by their regenerated values. */
    method RegenerateAll(sample: nat, vs: Values, history: seq<Values>)
      requires Buffers() && sample < cfg.w && |history| == cfg.w - 1
      modifies values, peaks
      ensures forall i :: 0 <= i < cfg.w ==> Peaked(i)
      ensures WindowFrom(sample) == [vs] + history
    {
      values[sample] := vs;
      RegenerateHistory(sample, history);
      ComputePeak(sample);
      forall i | 0 <= i < cfg.w
        ensures Peaked(i)
      {
        assert Back(sample, AgeFrom(sample, i)) == i;
      }
      assert forall k :: 1 <= k < cfg.w ==> WindowFrom(sample)[k] == values[Back(sample, k)];
    }

    /** Writes the regenerated values back along the ring, recomputing peaks. */
    method RegenerateHistory(sample: nat, history: seq<Values>)
      requires Buffers() && sample < cfg.w && |history| == cfg.w - 1
      modifies values, peaks
      ensures values[sample] == old(values[sample])
      ensures forall k :: 1 <= k < cfg.w ==> values[Back(sample, k)] == history[k - 1]
      ensures forall k :: 1 <= k < cfg.w ==> Peaked(Back(sample, k))
    {
      var count := CountOthers(sample);
      var s := prev[sample];
      for i := 0 to count
        invariant s == Back(sample, i + 1)
        invariant values[sample] == old(values[sample])
        invariant forall k :: 1 <= k <= i ==> values[Back(sample, k)] == history[k - 1]
        invariant forall k :: 1 <= k <= i ==> Peaked(Back(sample, k))
      {
        assert forall k :: 1 <= k <= i ==> Back(sample, k) != s;
        values[s] := history[i];
        ComputePeak(s);
        s := prev[s];
      }
    }

    /** Walks the ring once: there is a slot for every column, the starting one excluded. */
    method CountOthers(sample: nat) returns (count: nat)
      requires Buffers() && sample < cfg.w
      ensures count == cfg.w - 1
    {
      count := 0;
      var s := prev[sample];
      while s != sample && count < cfg.w
        invariant count < cfg.w && s == Back(sample, count + 1)
        decreases cfg.w - count
      {
        count := count + 1;
        s := prev[s];
      }
    }
  }

  /** A whole session: from a fresh graph through all ticks and redraws. */
  method Session(cfg: Config, readings: seq<Reading>) returns (gs: GraphState)
    requires cfg.Valid() && AllFit(cfg, readings)
    ensures fresh(gs) && gs.cfg == cfg && gs.Valid()
    ensures gs.State() == Run(cfg, readings)
  {
    gs := new GraphState(cfg);
    assert readings[..0] == [];
    for i := 0 to |readings|
      invariant fresh(gs) && gs.cfg == cfg && gs.Valid()
      invariant fresh(gs.prev) && fresh(gs.next) && fresh(gs.values) && fresh(gs.peaks)
      invariant fresh(gs.rowCounts) && fresh(gs.pixels)
      invariant gs.State() == Run(cfg, readings[..i])
    {
      gs.Handle(readings[i]);
      assert readings[..i + 1][..i] == readings[..i];
    }
    assert readings[..|readings|] == readings;
  }

  /** Rebuilding the `n` leftmost columns of the picture gives `goal`. */
  ghost predicate LeadsTo(cfg: Config, pic: Picture, window: seq<Values>, n: nat, goal: Picture)
    requires cfg.Valid() && IsPicture(cfg, pic) && |window| == cfg.w && n <= cfg.w
  {
    goal == if n == 0 then pic else RebuildFrom(cfg, pic, window, n - 1)
  }

  /** One turn of the rebuild loop. */
  lemma {:induction false} RebuildTurn(cfg: Config, pic: Picture, after: Picture, window: seq<Values>, c: nat,
                                       goal: Picture)
    requires cfg.Valid() && IsPicture(cfg, pic) && |window| == cfg.w && c < cfg.w
    requires after == RebuildColumn(cfg, pic, window, c) && LeadsTo(cfg, pic, window, c + 1, goal)
    ensures LeadsTo(cfg, after, window, c, goal)
  {
  }

  lemma RingIndex(i: nat, w: nat)
    requires i < w
    ensures (i + w - 1) % w == if i >= 1 then i - 1 else w - 1
    ensures (i + 1) % w == if i + 1 < w then i + 1 else 0
  {
    if i >= 1 {
      Remainder(i + w - 1, 1, i - 1, w);
    } else {
      Remainder(w - 1, 0, w - 1, w);
    }
    if i + 1 < w {
      Remainder(i + 1, 0, i + 1, w);
    } else {
      Remainder(w, 1, 0, w);
    }
  }

  lemma Remainder(a: nat, q: nat, r: nat, w: nat)
    requires r < w && q <= 1 && a == q * w + r
    ensures a % w == r
  {
    if q == 0 {
      assert a / w == 0;
    } else {
      assert a / w == 1;
    }
  }

  /** The sample an update overwrites plays no part in its outcome. */
  lemma UpdateIgnoresOldest(cfg: Config, g: Graph, values: Values)
    requires cfg.Valid() && cfg.w >= 2 && Shaped(cfg, g)
    ensures Update(cfg, g.(window := g.window[cfg.w - 1 := values]), values) == Update(cfg, g, values)
  {
    var h := g.(window := g.window[cfg.w - 1 := values]);
    assert Push(cfg, h.window, values) == Push(cfg, g.window, values);
  }
}
