/** The leftmost column, where the picture may differ from the from-scratch one: a connector to
    a sample that has scrolled out can stay visible.  */
module GraphLeftmost {
  import opened GraphPicture
  import opened GraphSteps
  import opened GraphTypes
  import opened Options

  // ---------- One event ----------

  /** What an update leaves in the leftmost column, pixel by pixel: the exact column that was
      its right neighbour, connector to the dropped sample included, but above the old
      minimum row whatever the column showed before. */
  lemma {:induction false} LeftmostColumn(cfg: Config, g: Graph, values: Values, m: nat, y: nat)
    requires cfg.Valid() && cfg.w >= 2 && Faithful(cfg, g, m) && y < cfg.h
    ensures Update(cfg, g, values).pic[0][y] ==
            if cfg.w == 2 && Line(cfg, values) < y < Line(cfg, g.window[0]) then cfg.line
            else if y >= g.yMin then ScratchColumn(cfg, g.window, 1, HasRight(cfg, 1, m))[y]
            else g.pic[0][y]
  {
    UpdateDraws(cfg, g, values, m);
    assert ExactColumn(cfg, g, 1, m);
  }

  /** The leftmost column drawn from scratch: it has no left neighbour, and after `m` updates
      since the last rebuild the connector to its right one is there as on other columns. */
  ghost function ScratchLeftmost(cfg: Config, window: seq<Values>, m: nat): (col: Column)
    requires cfg.Valid() && cfg.w >= 2 && |window| == cfg.w
    ensures |col| == cfg.h
  {
    Painted(cfg, window[cfg.w - 1], LeftmostTop(cfg, window, m))
  }

  ghost function LeftmostTop(cfg: Config, window: seq<Values>, m: nat): (top: nat)
    requires cfg.Valid() && cfg.w >= 2 && |window| == cfg.w
  {
    if HasRight(cfg, 0, m) then LineOf(cfg, window, 1) + 1 else cfg.h
  }

  /** Exactly when an update leaves the leftmost column as drawn from scratch: when nothing is
      left above the rows that are scrolled, and the connector to the dropped sample is
      hidden, by the bar of the sample now leftmost or by the connector on its other side. */
  ghost predicate LeavesLeftmostClean(cfg: Config, g: Graph, top: nat)
    requires cfg.Valid() && cfg.w >= 2 && Shaped(cfg, g)
  {
    && (forall y :: 0 <= y < Min(g.yMin, top) ==> g.pic[0][y] == BLACK)
    && (|| LineOf(cfg, g.window, 1) <= LineOf(cfg, g.window, 0) + 1
        || top <= LineOf(cfg, g.window, 0) + 1)
  }

  lemma {:induction false} LeftmostExactIff(cfg: Config, g: Graph, values: Values, m: nat)
    requires cfg.Valid() && cfg.w >= 2 && Faithful(cfg, g, m)
    ensures var window := Push(cfg, g.window, values);
            Update(cfg, g, values).pic[0] == ScratchLeftmost(cfg, window, m + 1) <==>
            LeavesLeftmostClean(cfg, g, LeftmostTop(cfg, window, m + 1))
  {
    var window := Push(cfg, g.window, values);
    var col, scratch := Update(cfg, g, values).pic[0], ScratchLeftmost(cfg, window, m + 1);
    var top := LeftmostTop(cfg, window, m + 1);
    forall y | 0 <= y < cfg.h
      ensures col[y] == scratch[y] <==> LeftmostPixelClean(cfg, g, top, y)
    {
      LeftmostPixelIff(cfg, g, values, m, y);
    }
    LeftmostBounds(cfg, g, values, m);
    CleanByPixel(cfg, g, top);
    SameByPixel(cfg, g, top, col, scratch);
  }

  lemma SameByPixel(cfg: Config, g: Graph, top: nat, col: Column, scratch: Column)
    requires cfg.Valid() && cfg.w >= 2 && Shaped(cfg, g) && |col| == |scratch| == cfg.h
    requires forall y :: 0 <= y < cfg.h ==> (col[y] == scratch[y] <==> LeftmostPixelClean(cfg, g, top, y))
    ensures col == scratch <==> forall y :: 0 <= y < cfg.h ==> LeftmostPixelClean(cfg, g, top, y)
  {
  }

  lemma {:induction false} CleanByPixel(cfg: Config, g: Graph, top: nat)
    requires cfg.Valid() && cfg.w >= 2 && Shaped(cfg, g)
    requires g.yMin <= LineOf(cfg, g.window, 0)
    ensures LeavesLeftmostClean(cfg, g, top) <==> forall y :: 0 <= y < cfg.h ==> LeftmostPixelClean(cfg, g, top, y)
  {
    if forall y :: 0 <= y < cfg.h ==> LeftmostPixelClean(cfg, g, top, y) {
      forall y | 0 <= y < Min(g.yMin, top)
        ensures g.pic[0][y] == BLACK
      {
        assert LeftmostPixelClean(cfg, g, top, y);
      }
      var y := LineOf(cfg, g.window, 0) + 1;
      assert y < LineOf(cfg, g.window, 1) ==> LeftmostPixelClean(cfg, g, top, y);
    }
  }

  /** One row's share of that condition. */
  ghost predicate LeftmostPixelClean(cfg: Config, g: Graph, top: nat, y: nat)
    requires cfg.Valid() && cfg.w >= 2 && Shaped(cfg, g) && y < cfg.h
  {
    if y < g.yMin then y >= top || g.pic[0][y] == BLACK
    else !(LineOf(cfg, g.window, 0) < y < LineOf(cfg, g.window, 1)) || top <= y
  }

  lemma LeftmostBounds(cfg: Config, g: Graph, values: Values, m: nat)
    requires cfg.Valid() && cfg.w >= 2 && Faithful(cfg, g, m)
    ensures g.yMin <= LineOf(cfg, g.window, 0) && g.yMin <= LineOf(cfg, g.window, 1)
    ensures cfg.w > 2 ==> g.yMin <= LeftmostTop(cfg, Push(cfg, g.window, values), m + 1)
  {
    if cfg.w > 2 {
      assert g.yMin <= LineOf(cfg, g.window, 2);
      assert Push(cfg, g.window, values)[cfg.w - 2] == g.window[cfg.w - 3];
    }
  }

  lemma {:induction false} LeftmostPixelIff(cfg: Config, g: Graph, values: Values, m: nat, y: nat)
    requires cfg.Valid() && cfg.w >= 2 && Faithful(cfg, g, m) && y < cfg.h
    ensures var window := Push(cfg, g.window, values);
            Update(cfg, g, values).pic[0][y] == ScratchLeftmost(cfg, window, m + 1)[y] <==>
            LeftmostPixelClean(cfg, g, LeftmostTop(cfg, window, m + 1), y)
  {
    LeftmostBounds(cfg, g, values, m);
    LeftmostColumn(cfg, g, values, m, y);
    CleanPixel(cfg, g, values, m, y, Update(cfg, g, values).pic[0][y]);
  }

  lemma CleanPixel(cfg: Config, g: Graph, values: Values, m: nat, y: nat, pixel: Pixel)
    requires cfg.Valid() && cfg.w >= 2 && Shaped(cfg, g) && y < cfg.h
    requires g.yMin <= LineOf(cfg, g.window, 0) && g.yMin <= LineOf(cfg, g.window, 1)
    requires cfg.w > 2 ==> g.yMin <= LeftmostTop(cfg, Push(cfg, g.window, values), m + 1)
    requires pixel == if cfg.w == 2 && Line(cfg, values) < y < Line(cfg, g.window[0]) then cfg.line
                      else if y >= g.yMin then ScratchColumn(cfg, g.window, 1, HasRight(cfg, 1, m))[y]
                      else g.pic[0][y]
    ensures var window := Push(cfg, g.window, values);
            pixel == ScratchLeftmost(cfg, window, m + 1)[y] <==>
            LeftmostPixelClean(cfg, g, LeftmostTop(cfg, window, m + 1), y)
  {
    var window := Push(cfg, g.window, values);
    assert window[cfg.w - 1] == g.window[cfg.w - 2];
    assert cfg.w > 2 ==> window[cfg.w - 2] == g.window[cfg.w - 3];
  }

  /** Nothing black lies below something drawn, above row `line`. */
  ghost predicate NoGap(col: Column, line: nat)
    requires line <= |col|
  {
    forall y, z :: 0 <= y < z < line && col[y] != BLACK ==> col[z] != BLACK
  }

  /** Rendering clears a column exactly when there is no gap for the stale scan to stop in. */
  lemma {:induction false} RenderClearsIff(cfg: Config, col: Column, values: Values)
    requires cfg.Valid() && |col| == cfg.h
    ensures RenderOver(cfg, col, values) == Painted(cfg, values, cfg.h) <==> NoGap(col, Line(cfg, values))
  {
    var line, stop := Line(cfg, values), StaleTop(col, Line(cfg, values));
    var r, bar := RenderOver(cfg, col, values), Painted(cfg, values, cfg.h);
    StaleTopStops(col, line);
    assert forall y :: 0 <= y < cfg.h ==> r[y] == if y >= stop then bar[y] else col[y];
    if r == bar {
      forall y | 0 <= y < stop
        ensures col[y] == BLACK
      {
        assert r[y] == bar[y];
      }
    }
    if NoGap(col, line) {
      forall y | 0 <= y < stop
        ensures col[y] == BLACK
      {
        assert col[stop - 1] == BLACK;
      }
    }
  }

  /** What a rebuild makes of the leftmost column: it draws the connector to its neighbour,
      then renders over both. */
  lemma {:induction false} RebuildLeftmost(cfg: Config, pic: Picture, window: seq<Values>, c: nat)
    requires cfg.Valid() && IsPicture(cfg, pic) && |window| == cfg.w && 1 <= c < cfg.w
    ensures var oldest := window[cfg.w - 1];
            var joined := DrawLine(cfg, pic[0], LineOf(cfg, window, 1) + 1, Line(cfg, oldest));
            RebuildFrom(cfg, pic, window, c)[0] == RenderOver(cfg, joined, oldest)
    decreases c
  {
    var values, older := window[cfg.w - 1 - c], window[cfg.w - c];
    ConnectBoth(cfg, pic[c := RenderOver(cfg, pic[c], values)], values, older, c);
    if c > 1 {
      RebuildLeftmost(cfg, RebuildColumn(cfg, pic, window, c), window, c - 1);
    }
  }

  /** Exactly when a rebuild leaves the leftmost column as drawn from scratch. */
  lemma {:induction false} RebuildLeftmostExactIff(cfg: Config, g: Graph)
    requires cfg.Valid() && cfg.w >= 2 && Shaped(cfg, g) && g.window[0] != []
    ensures var oldest := g.window[cfg.w - 1];
            var joined := DrawLine(cfg, g.pic[0], LineOf(cfg, g.window, 1) + 1, Line(cfg, oldest));
            Rebuild(cfg, g).pic[0] == ScratchLeftmost(cfg, g.window, 0) <==> NoGap(joined, Line(cfg, oldest))
  {
    var oldest := g.window[cfg.w - 1];
    var joined := DrawLine(cfg, g.pic[0], LineOf(cfg, g.window, 1) + 1, Line(cfg, oldest));
    RebuildLeftmost(cfg, g.pic, g.window, cfg.w - 1);
    RenderClearsIff(cfg, joined, oldest);
  }

  /** So the leftmost column need not be the from-scratch picture: after usage 255, 0, 0 in a
      two-column graph nothing in the window is active, yet the connector to the sample that
      scrolled out stays visible. */
  lemma StaleConnectorRemains() returns (cfg: Config, readings: seq<Reading>)
    ensures cfg.Valid() && cfg.w == cfg.h == 2 && NeverRebuilds(readings)
    ensures AllIdle(cfg, Run(cfg, readings).window) && Run(cfg, readings).window[0] != []
    ensures Run(cfg, readings).pic[0][1] == cfg.line != Blank(cfg)[0][1]
  {
    cfg := Config(2, 2, Independent, seq(256, _ => 1), 1);
    readings := [ReadOk([255]), ReadOk([0]), ReadOk([0])];
    StaleRun(cfg, readings);
  }

  lemma StaleRun(cfg: Config, readings: seq<Reading>)
    requires cfg.Valid() && cfg.w == cfg.h == 2 && cfg.mode.Independent?
    requires readings == [ReadOk([255]), ReadOk([0]), ReadOk([0])]
    ensures NeverRebuilds(readings)
    ensures AllIdle(cfg, Run(cfg, readings).window) && Run(cfg, readings).window[0] != []
    ensures Run(cfg, readings).pic[0][1] == cfg.line
  {
    var two := readings[..2];
    FullThenIdle(cfg, two);
    UpdatesAreUsable(cfg, two);
    RunFaithful(cfg, two);
    StaleStep(cfg, Run(cfg, two), Updates(cfg, two));
  }

  lemma FullThenIdle(cfg: Config, two: seq<Reading>)
    requires cfg.Valid() && cfg.w == 2 && two == [ReadOk([255]), ReadOk([0])]
    ensures Run(cfg, two).window == [[0], [255]]
  {
    WindowIsLastReadings(cfg, two);
    assert two[..1] == [ReadOk([255])] && two[..1][..0] == [];
    assert Delivered(two[..1]) == [[255]];
    assert Delivered(two) == [[0], [255]];
  }

  lemma StaleStep(cfg: Config, g: Graph, m: nat)
    requires cfg.Valid() && cfg.w == cfg.h == 2 && cfg.mode.Independent? && Faithful(cfg, g, m)
    requires g.window == [[0], [255]]
    ensures AllIdle(cfg, Update(cfg, g, [0]).window) && Update(cfg, g, [0]).window[0] != []
    ensures Update(cfg, g, [0]).pic[0][1] == cfg.line
  {
    IdleAndFull();
    LeftmostColumn(cfg, g, [0], m, 1);
    assert Update(cfg, g, [0]).window == [[0], [0]];
  }

  lemma IdleAndFull()
    ensures Max([0]) == 0 && Max([255]) == 255
  {
    assert [0][..0] == [255][..0] == [];
  }

  // ---------- Which readings show ----------

  /** The `i`-th value delivered before the last, blank where there was none. */
  function At(delivered: seq<Values>, i: nat): Values {
    if i < |delivered| then delivered[i] else []
  }

  function Dropped(cfg: Config, delivered: seq<Values>): seq<Values> {
    if |delivered| <= cfg.w then [] else delivered[cfg.w..]
  }

  /** The most recent of these values whose line is at or above row `y` has it strictly above. */
  ghost predicate LeavesTrace(cfg: Config, delivered: seq<Values>, y: nat)
    requires cfg.h > 0
  {
    && delivered != []
    && if Line(cfg, delivered[0]) <= y then Line(cfg, delivered[0]) < y else LeavesTrace(cfg, delivered[1..], y)
  }

  /** Row `y`, above the bar in column 0, shows a connector to a sample that has scrolled out:
      to the last one while the present samples reach this row, else to the last that did. */
  ghost predicate Stale(cfg: Config, delivered: seq<Values>, y: nat)
    requires cfg.h > 0
  {
    if exists i :: 1 <= i < cfg.w && Line(cfg, At(delivered, i)) <= y then Line(cfg, At(delivered, cfg.w)) < y
    else LeavesTrace(cfg, Dropped(cfg, delivered), y)
  }

  /** The colour of row `y` of column 0, from the values delivered alone. */
  ghost function LeftmostPixel(cfg: Config, delivered: seq<Values>, y: nat): Pixel
    requires cfg.Valid() && cfg.w >= 2
  {
    var oldest, next := At(delivered, cfg.w - 1), At(delivered, cfg.w - 2);
    if y >= Line(cfg, oldest) then LineAndBar(cfg, oldest, y)
    else if y > Line(cfg, next) || Stale(cfg, delivered, y) then cfg.line
    else BLACK
  }

  lemma BlankLine(cfg: Config)
    requires cfg.Valid()
    ensures Line(cfg, []) == cfg.h
  {
  }

  /** Before any reading column 0 is black. */
  lemma LeftmostPixelAtStart(cfg: Config, y: nat)
    requires cfg.Valid() && cfg.w >= 2 && y < cfg.h
    ensures LeftmostPixel(cfg, [], y) == BLACK
  {
    BlankLine(cfg);
    assert forall i: nat :: At([], i) == [];
  }

  lemma AtShifts(values: Values, delivered: seq<Values>, i: nat)
    ensures At([values] + delivered, i + 1) == At(delivered, i)
    ensures At([values] + delivered, 0) == values
  {
  }

  /** A sample below the row leaves the traces of those before it. */
  lemma {:induction false} DroppedSkips(cfg: Config, values: Values, delivered: seq<Values>, y: nat)
    requires cfg.Valid() && y < Line(cfg, At(delivered, cfg.w - 1))
    ensures LeavesTrace(cfg, Dropped(cfg, [values] + delivered), y) == LeavesTrace(cfg, Dropped(cfg, delivered), y)
  {
    var more := [values] + delivered;
    if |delivered| >= cfg.w {
      assert more[cfg.w..] == delivered[cfg.w - 1..];
      assert more[cfg.w..][0] == delivered[cfg.w - 1];
      if |delivered| == cfg.w {
        assert |more[cfg.w..]| == 1;
      } else {
        assert more[cfg.w..][1..] == delivered[cfg.w..];
      }
    }
  }

  /** The row is above every sample of the window: the trace is what it was. */
  lemma {:induction false} StaleStays(cfg: Config, values: Values, delivered: seq<Values>, y: nat)
    requires cfg.Valid() && cfg.w >= 2 && y < cfg.h
    requires forall i :: 0 <= i < cfg.w ==> y < Line(cfg, At(delivered, i))
    ensures Stale(cfg, [values] + delivered, y) == Stale(cfg, delivered, y)
  {
    forall i | 1 <= i < cfg.w
      ensures y < Line(cfg, At([values] + delivered, i))
    {
      AtShifts(values, delivered, i - 1);
      assert y < Line(cfg, At(delivered, i - 1));
    }
    DroppedSkips(cfg, values, delivered, y);
  }

  /** Some sample of the window reaches the row: the trace is that of the sample just dropped. */
  lemma {:induction false} StaleRenewed(cfg: Config, values: Values, delivered: seq<Values>, y: nat, i: nat)
    requires cfg.Valid() && cfg.w >= 2 && y < cfg.h && i < cfg.w
    requires Line(cfg, At(delivered, i)) <= y < Line(cfg, At(delivered, cfg.w - 2))
    ensures Stale(cfg, [values] + delivered, y) <==> Line(cfg, At(delivered, cfg.w - 1)) < y
  {
    var more := [values] + delivered;
    AtShifts(values, delivered, i);
    AtShifts(values, delivered, cfg.w - 1);
    if i < cfg.w - 1 {
      assert Line(cfg, At(more, i + 1)) <= y;
    } else {
      BlankLine(cfg);
      assert Dropped(cfg, more)[0] == At(delivered, i);
    }
  }

  /** What the scroll brings to column 0: the pixel of its right neighbour, from the values
      around it. */
  lemma {:induction false} NeighbourPixel(cfg: Config, window: seq<Values>, delivered: seq<Values>, m: nat, y: nat)
    requires cfg.Valid() && cfg.w >= 2 && m >= cfg.w && y < cfg.h && ShowsLast(cfg, window, delivered)
    ensures var own := At(delivered, cfg.w - 2);
            ScratchColumn(cfg, window, 1, HasRight(cfg, 1, m))[y] ==
            if y >= Line(cfg, own) then LineAndBar(cfg, own, y)
            else if Line(cfg, At(delivered, cfg.w - 1)) < y then cfg.line
            else if cfg.w > 2 && Line(cfg, At(delivered, cfg.w - 3)) < y then cfg.line
            else BLACK
  {
  }

  /** One update's share, on rows the scroll reaches. */
  lemma {:induction false} ScrolledPixel(cfg: Config, g: Graph, values: Values, delivered: seq<Values>, m: nat, y: nat)
    requires cfg.Valid() && cfg.w >= 2 && Faithful(cfg, g, m) && m >= cfg.w && g.yMin <= y < cfg.h
    requires ShowsLast(cfg, g.window, delivered)
    ensures Update(cfg, g, values).pic[0][y] == LeftmostPixel(cfg, [values] + delivered, y)
  {
    LeftmostColumn(cfg, g, values, m, y);
    NeighbourPixel(cfg, g.window, delivered, m, y);
    RenewedPixel(cfg, values, delivered, y, g.peakAge.value);
  }

  lemma {:induction false} RenewedPixel(cfg: Config, values: Values, delivered: seq<Values>, y: nat, i: nat)
    requires cfg.Valid() && cfg.w >= 2 && y < cfg.h && i < cfg.w && Line(cfg, At(delivered, i)) <= y
    ensures var own := At(delivered, cfg.w - 2);
            var next := if cfg.w == 2 then values else At(delivered, cfg.w - 3);
            LeftmostPixel(cfg, [values] + delivered, y) ==
            if y >= Line(cfg, own) then LineAndBar(cfg, own, y)
            else if Line(cfg, At(delivered, cfg.w - 1)) < y || Line(cfg, next) < y then cfg.line
            else BLACK
  {
    AtShifts(values, delivered, cfg.w - 2);
    if cfg.w > 2 {
      AtShifts(values, delivered, cfg.w - 3);
    }
    if y < Line(cfg, At(delivered, cfg.w - 2)) {
      StaleRenewed(cfg, values, delivered, y, i);
    }
  }

  /** One update's share, on the rows above. */
  lemma {:induction false} SkippedPixel(cfg: Config, g: Graph, values: Values, delivered: seq<Values>, m: nat, y: nat)
    requires cfg.Valid() && cfg.w >= 2 && Faithful(cfg, g, m) && y < g.yMin
    requires ShowsLast(cfg, g.window, delivered)
    requires g.pic[0][y] == LeftmostPixel(cfg, delivered, y)
    ensures Update(cfg, g, values).pic[0][y] == LeftmostPixel(cfg, [values] + delivered, y)
  {
    LeftmostColumn(cfg, g, values, m, y);
    AtShifts(values, delivered, cfg.w - 2);
    if cfg.w > 2 {
      AtShifts(values, delivered, cfg.w - 3);
    }
    BelowWindow(cfg, g, delivered, m, y);
    StaleStays(cfg, values, delivered, y);
  }

  /** Every run of updates: each pixel of column 0, from the values delivered alone.  With
      `IncrementalIsFromScratch` this fixes the whole picture. */
  lemma {:induction false} LeftmostFromReadings(cfg: Config, readings: seq<Reading>, y: nat)
    requires cfg.Valid() && cfg.w >= 2 && NeverRebuilds(readings) && y < cfg.h
    ensures Run(cfg, readings).pic[0][y] == LeftmostPixel(cfg, Delivered(readings), y)
  {
    if readings == [] {
      LeftmostPixelAtStart(cfg, y);
    } else {
      var before, r := readings[..|readings| - 1], readings[|readings| - 1];
      LeftmostFromReadings(cfg, before, y);
      UpdatesAreUsable(cfg, before);
      RunFaithful(cfg, before);
      UpdatesOfOkRun(cfg, before);
      WindowIsLastReadings(cfg, before);
      if r.ReadOk? {
        UpdatedPixel(cfg, Run(cfg, before), r.values, Delivered(before), Updates(cfg, before), y);
      }
    }
  }

  lemma UpdatedPixel(cfg: Config, g: Graph, values: Values, delivered: seq<Values>, m: nat, y: nat)
    requires cfg.Valid() && cfg.w >= 2 && Faithful(cfg, g, m) && m >= cfg.w && y < cfg.h
    requires ShowsLast(cfg, g.window, delivered)
    requires g.pic[0][y] == LeftmostPixel(cfg, delivered, y)
    ensures Update(cfg, g, values).pic[0][y] == LeftmostPixel(cfg, [values] + delivered, y)
  {
    if y < g.yMin {
      SkippedPixel(cfg, g, values, delivered, m, y);
    } else {
      ScrolledPixel(cfg, g, values, delivered, m, y);
    }
  }

  /** No row above bar and connector shows a connector to a sample that has scrolled out. */
  ghost predicate NothingStale(cfg: Config, delivered: seq<Values>)
    requires cfg.Valid() && cfg.w >= 2
  {
    forall y :: 0 <= y < Line(cfg, At(delivered, cfg.w - 1)) && y <= Line(cfg, At(delivered, cfg.w - 2)) ==>
      !Stale(cfg, delivered, y)
  }

  ghost predicate ShowsReadings(cfg: Config, col: Column, delivered: seq<Values>)
    requires cfg.Valid() && cfg.w >= 2
  {
    |col| == cfg.h && forall y :: 0 <= y < cfg.h ==> col[y] == LeftmostPixel(cfg, delivered, y)
  }

  lemma {:induction false} LeftmostShowsReadings(cfg: Config, readings: seq<Reading>)
    requires cfg.Valid() && cfg.w >= 2 && NeverRebuilds(readings)
    ensures ShowsReadings(cfg, Run(cfg, readings).pic[0], Delivered(readings))
  {
    forall y | 0 <= y < cfg.h
      ensures Run(cfg, readings).pic[0][y] == LeftmostPixel(cfg, Delivered(readings), y)
    {
      LeftmostFromReadings(cfg, readings, y);
    }
  }

  /** Every run of updates: column 0 is the from-scratch picture exactly when no row above bar
      and connector has a stale connector. */
  lemma {:induction false} LeftmostFromScratchIff(cfg: Config, readings: seq<Reading>)
    requires cfg.Valid() && cfg.w >= 2 && NeverRebuilds(readings)
    ensures var g := Run(cfg, readings);
            g.pic[0] == ScratchLeftmost(cfg, g.window, Updates(cfg, readings)) <==>
            NothingStale(cfg, Delivered(readings))
  {
    var g := Run(cfg, readings);
    UpdatesOfOkRun(cfg, readings);
    WindowIsLastReadings(cfg, readings);
    LeftmostShowsReadings(cfg, readings);
    ScratchIff(cfg, g.window, Delivered(readings), Updates(cfg, readings), g.pic[0]);
  }

  lemma {:induction false} ScratchIff(cfg: Config, window: seq<Values>, delivered: seq<Values>, m: nat, col: Column)
    requires cfg.Valid() && cfg.w >= 2 && m >= cfg.w && ShowsLast(cfg, window, delivered)
    requires ShowsReadings(cfg, col, delivered)
    ensures col == ScratchLeftmost(cfg, window, m) <==> NothingStale(cfg, delivered)
  {
    var scratch := ScratchLeftmost(cfg, window, m);
    assert window[cfg.w - 1] == At(delivered, cfg.w - 1) && window[cfg.w - 2] == At(delivered, cfg.w - 2);
    if col == scratch {
      forall y | 0 <= y < Line(cfg, At(delivered, cfg.w - 1)) && y <= Line(cfg, At(delivered, cfg.w - 2))
        ensures !Stale(cfg, delivered, y)
      {
        assert scratch[y] == BLACK;
      }
    }
  }

  /** Above the cached minimum only the values' own order matters. */
  lemma {:induction false} LeftmostAboveMin(cfg: Config, readings: seq<Reading>, y: nat)
    requires cfg.Valid() && cfg.w >= 2 && NeverRebuilds(readings) && y < Run(cfg, readings).yMin
    ensures Run(cfg, readings).pic[0][y] ==
            if LeavesTrace(cfg, Delivered(readings), y) then cfg.line else BLACK
  {
    LeftmostFromReadings(cfg, readings, y);
    UpdatesAreUsable(cfg, readings);
    RunFaithful(cfg, readings);
    WindowIsLastReadings(cfg, readings);
    PixelAboveMin(cfg, Run(cfg, readings), Delivered(readings), Updates(cfg, readings), y);
  }

  lemma {:induction false} PixelAboveMin(cfg: Config, g: Graph, delivered: seq<Values>, m: nat, y: nat)
    requires cfg.Valid() && cfg.w >= 2 && Faithful(cfg, g, m) && y < g.yMin && ShowsLast(cfg, g.window, delivered)
    ensures LeftmostPixel(cfg, delivered, y) == if LeavesTrace(cfg, delivered, y) then cfg.line else BLACK
  {
    BelowWindow(cfg, g, delivered, m, y);
    TraceSkips(cfg, delivered, cfg.w, y);
  }

  lemma BelowWindow(cfg: Config, g: Graph, delivered: seq<Values>, m: nat, y: nat)
    requires cfg.Valid() && Faithful(cfg, g, m) && y < g.yMin && ShowsLast(cfg, g.window, delivered)
    ensures forall i :: 0 <= i < cfg.w ==> y < Line(cfg, At(delivered, i))
  {
    forall i | 0 <= i < cfg.w
      ensures y < Line(cfg, At(delivered, i))
    {
      assert g.yMin <= Line(cfg, g.window[i]);
    }
  }

  lemma {:induction false} TraceSkips(cfg: Config, delivered: seq<Values>, n: nat, y: nat)
    requires cfg.h > 0 && forall i :: 0 <= i < n ==> y < Line(cfg, At(delivered, i))
    ensures LeavesTrace(cfg, delivered, y) == LeavesTrace(cfg, if |delivered| <= n then [] else delivered[n..], y)
  {
    if n == 0 {
      assert delivered[0..] == delivered;
    } else if delivered != [] {
      assert delivered[0] == At(delivered, 0);
      forall i | 0 <= i < n - 1
        ensures y < Line(cfg, At(delivered[1..], i))
      {
        assert At(delivered[1..], i) == At(delivered, i + 1);
      }
      TraceSkips(cfg, delivered[1..], n - 1, y);
      if |delivered| > n {
        assert delivered[1..][n - 1..] == delivered[n..];
      }
    }
  }
}
