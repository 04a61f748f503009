/** What redrawing the samples from the ring changes in a picture that updates have drawn.  */
module GraphRebuild {
  import opened GraphLeftmost
  import opened GraphPicture
  import opened GraphSteps
  import opened GraphTypes
  import opened Options

  // ---------- Which pixels change ----------

  /** One of the two pixels is black and the other a connector pixel above the line. */
  ghost predicate OnlyConnectorDiffers(cfg: Config, p: Pixel, q: Pixel, y: nat, line: nat) {
    p != q ==> y < line && ((p == BLACK && q == cfg.line) || (p == cfg.line && q == BLACK))
  }

  ghost predicate OnlyConnectorsDiffer(cfg: Config, window: seq<Values>, a: Picture, b: Picture)
    requires cfg.Valid() && |window| == cfg.w && IsPicture(cfg, a) && IsPicture(cfg, b)
  {
    forall c, y :: 0 <= c < cfg.w && 0 <= y < cfg.h ==>
      OnlyConnectorDiffers(cfg, a[c][y], b[c][y], y, LineOf(cfg, window, c))
  }

  lemma TwoExactColumns(cfg: Config, a: Column, b: Column, values: Values, y: nat)
    requires cfg.Valid() && |a| == |b| == cfg.h && y < cfg.h
    requires ExactBelowLine(cfg, a, values) && ExactBelowLine(cfg, b, values)
    ensures OnlyConnectorDiffers(cfg, a[y], b[y], y, Line(cfg, values))
  {
  }

  /** Rebuilding any reachable picture changes it only above the peak lines, and there only
      between black and line colour, exactly when the newest sample has values or nothing is
      active: else the code blanks the bars. */
  lemma {:induction false} RebuildChangesOnlyConnectorsIff(cfg: Config, readings: seq<Reading>)
    requires cfg.Valid() && AllUsable(cfg, readings)
    ensures var g := Run(cfg, readings);
            OnlyConnectorsDiffer(cfg, g.window, g.pic, Rebuild(cfg, g).pic) <==> Redrawable(cfg, g.window)
  {
    RunFaithful(cfg, readings);
    FaithfulRebuildIff(cfg, Run(cfg, readings), Updates(cfg, readings));
  }

  lemma {:induction false} FaithfulRebuildIff(cfg: Config, g: Graph, m: nat)
    requires cfg.Valid() && Faithful(cfg, g, m)
    ensures OnlyConnectorsDiffer(cfg, g.window, g.pic, Rebuild(cfg, g).pic) <==> Redrawable(cfg, g.window)
  {
    if Redrawable(cfg, g.window) {
      forall c, y | 0 <= c < cfg.w && 0 <= y < cfg.h
        ensures OnlyConnectorDiffers(cfg, g.pic[c][y], Rebuild(cfg, g).pic[c][y], y, LineOf(cfg, g.window, c))
      {
        FaithfulRebuild(cfg, g, m, c, y);
      }
    } else {
      BlankedLine(cfg, g, m);
    }
  }

  lemma FaithfulRebuild(cfg: Config, g: Graph, m: nat, c: nat, y: nat)
    requires cfg.Valid() && Faithful(cfg, g, m) && c < cfg.w && y < cfg.h && Redrawable(cfg, g.window)
    ensures OnlyConnectorDiffers(cfg, g.pic[c][y], Rebuild(cfg, g).pic[c][y], y, LineOf(cfg, g.window, c))
  {
    RebuildExactBelowLine(cfg, g, m, c);
    ColumnExactBelowLine(cfg, g, c, m);
    TwoExactColumns(cfg, g.pic[c], Rebuild(cfg, g).pic[c], g.window[cfg.w - 1 - c], y);
  }

  lemma RebuildExactBelowLine(cfg: Config, g: Graph, m: nat, c: nat)
    requires cfg.Valid() && Faithful(cfg, g, m) && c < cfg.w && Redrawable(cfg, g.window)
    ensures ExactBelowLine(cfg, Rebuild(cfg, g).pic[c], g.window[cfg.w - 1 - c])
  {
    assert g.(window := g.window) == g;
    RebuildFaithfulIff(cfg, g, g.window, m);
    ColumnExactBelowLine(cfg, Rebuild(cfg, g), c, 0);
  }

  /** The blanked picture lacks the peak line of an active sample. */
  lemma {:induction false} BlankedLine(cfg: Config, g: Graph, m: nat)
    requires cfg.Valid() && Faithful(cfg, g, m) && !Redrawable(cfg, g.window)
    ensures !OnlyConnectorsDiffer(cfg, g.window, g.pic, Rebuild(cfg, g).pic)
  {
    var i :| 0 <= i < cfg.w && Peak(cfg.mode, g.window[i]) != 0;
    var c := cfg.w - 1 - i;
    var y := Line(cfg, g.window[i]);
    ColumnExactBelowLine(cfg, g, c, m);
    assert g.pic[c][y] == cfg.line && Rebuild(cfg, g).pic[c][y] == BLACK;
    assert !OnlyConnectorDiffers(cfg, g.pic[c][y], Rebuild(cfg, g).pic[c][y], y, LineOf(cfg, g.window, c));
  }

  // ---------- When nothing changes: columns from 1 up ----------

  /** No right connector is drawn on the column, or what is drawn hides that one, being the
      left connector or the bar itself. */
  ghost predicate ShowsNoRight(cfg: Config, window: seq<Values>, m: nat, c: nat)
    requires cfg.Valid() && |window| == cfg.w && 1 <= c < cfg.w
  {
    HasRight(cfg, c, m) ==> ConnectorTop(cfg, window, c, false) <= LineOf(cfg, window, c + 1) + 1
  }

  /** Exactly when a rebuild leaves a column from 1 up as it is. */
  lemma {:induction false} RebuildKeepsColumnIff(cfg: Config, g: Graph, m: nat, c: nat)
    requires cfg.Valid() && Faithful(cfg, g, m) && 1 <= c < cfg.w && g.window[0] != []
    ensures Rebuild(cfg, g).pic[c] == g.pic[c] <==> ShowsNoRight(cfg, g.window, m, c)
  {
    RebuildIsScratch(cfg, g, m, c);
    assert ExactColumn(cfg, g, c, m);
    if HasRight(cfg, c, m) {
      PaintedSameIff(cfg, g.window[cfg.w - 1 - c], ConnectorTop(cfg, g.window, c, false),
                     ConnectorTop(cfg, g.window, c, true));
    }
  }

  lemma RebuildIsScratch(cfg: Config, g: Graph, m: nat, c: nat)
    requires cfg.Valid() && Faithful(cfg, g, m) && 1 <= c < cfg.w && g.window[0] != []
    ensures Rebuild(cfg, g).pic[c] == ScratchColumn(cfg, g.window, c, false)
  {
    assert g.(window := g.window) == g;
    RebuildFaithful(cfg, g, g.window, m);
    assert ExactColumn(cfg, Rebuild(cfg, g), c, 0);
  }

  /** Two painted columns of one sample are the same exactly when their connectors reach
      equally high. */
  lemma {:induction false} PaintedSameIff(cfg: Config, values: Values, t: nat, u: nat)
    requires cfg.Valid()
    ensures Painted(cfg, values, t) == Painted(cfg, values, u) <==>
            Min(t, Line(cfg, values)) == Min(u, Line(cfg, values))
  {
    var a, b := Min(t, Line(cfg, values)), Min(u, Line(cfg, values));
    if a < b {
      assert Painted(cfg, values, t)[a] == cfg.line != Painted(cfg, values, u)[a];
    } else if b < a {
      assert Painted(cfg, values, u)[b] == cfg.line != Painted(cfg, values, t)[b];
    }
  }

  // ---------- When nothing changes: the leftmost column ----------

  /** The rows between the neighbour's line (at the latest the last row above the bar) and the
      bar are black. */
  ghost predicate BareBelow(col: Column, next: nat, line: nat)
    requires line <= |col|
  {
    forall y :: 0 <= y < line && Min(next, line - 1) <= y ==> col[y] == BLACK
  }

  /** Drawing the connector to a neighbour's line at row `next` and rendering over it. */
  ghost function Redrawn(cfg: Config, col: Column, next: nat, values: Values): Column
    requires cfg.Valid() && |col| == cfg.h
  {
    RenderOver(cfg, DrawLine(cfg, col, next + 1, Line(cfg, values)), values)
  }

  lemma {:induction false} RedrawnSame(cfg: Config, col: Column, next: nat, values: Values)
    requires cfg.Valid() && |col| == cfg.h && ExactBelowLine(cfg, col, values)
    requires BareBelow(col, next, Line(cfg, values))
    ensures Redrawn(cfg, col, next, values) == col
  {
    var line := Line(cfg, values);
    var drawn := DrawLine(cfg, col, next + 1, line);
    var stop := StaleTop(drawn, line);
    StaleTopStops(drawn, line);
    if 0 < line {
      var first := Min(next, line - 1);
      assert drawn[first] == col[first] == BLACK;
      assert first < stop;
    }
  }

  lemma {:induction false} SameRedrawn(cfg: Config, col: Column, next: nat, values: Values)
    requires cfg.Valid() && |col| == cfg.h && Redrawn(cfg, col, next, values) == col
    ensures BareBelow(col, next, Line(cfg, values))
  {
    var line := Line(cfg, values);
    var drawn := DrawLine(cfg, col, next + 1, line);
    var stop := StaleTop(drawn, line);
    StaleTopStops(drawn, line);
    forall y | 0 <= y < line && Min(next, line - 1) <= y
      ensures col[y] == BLACK
    {
      if y >= stop {
        assert Redrawn(cfg, col, next, values)[y] == BLACK;
      } else {
        assert drawn[stop - 1] == BLACK;
      }
    }
  }

  lemma RedrawnSameIff(cfg: Config, col: Column, next: nat, values: Values)
    requires cfg.Valid() && |col| == cfg.h && ExactBelowLine(cfg, col, values)
    ensures Redrawn(cfg, col, next, values) == col <==> BareBelow(col, next, Line(cfg, values))
  {
    if BareBelow(col, next, Line(cfg, values)) {
      RedrawnSame(cfg, col, next, values);
    } else if Redrawn(cfg, col, next, values) == col {
      SameRedrawn(cfg, col, next, values);
    }
  }

  lemma RebuildRedraws(cfg: Config, g: Graph)
    requires cfg.Valid() && cfg.w >= 2 && Shaped(cfg, g) && g.window[0] != []
    ensures Rebuild(cfg, g).pic[0] == Redrawn(cfg, g.pic[0], LineOf(cfg, g.window, 1), g.window[cfg.w - 1])
  {
    RebuildLeftmost(cfg, g.pic, g.window, cfg.w - 1);
  }

  /** Exactly when a rebuild leaves the leftmost column as it is. */
  lemma {:induction false} RebuildKeepsLeftmostIff(cfg: Config, g: Graph, m: nat)
    requires cfg.Valid() && cfg.w >= 2 && Faithful(cfg, g, m) && g.window[0] != []
    ensures Rebuild(cfg, g).pic[0] == g.pic[0] <==>
            BareBelow(g.pic[0], LineOf(cfg, g.window, 1), LineOf(cfg, g.window, 0))
  {
    RebuildRedraws(cfg, g);
    RedrawnSameIff(cfg, g.pic[0], LineOf(cfg, g.window, 1), g.window[cfg.w - 1]);
  }

  /** The same from the readings, after any run of updates: no connector to the neighbour or to
      a dropped sample meets the bar. */
  lemma {:induction false} RebuildKeepsLeftmostRunIff(cfg: Config, readings: seq<Reading>)
    requires cfg.Valid() && cfg.w >= 2 && NeverRebuilds(readings) && Run(cfg, readings).window[0] != []
    ensures var g := Run(cfg, readings);
            Rebuild(cfg, g).pic[0] == g.pic[0] <==> MeetsNothing(cfg, g.window, Delivered(readings))
  {
    UpdatesAreUsable(cfg, readings);
    RunFaithful(cfg, readings);
    WindowIsLastReadings(cfg, readings);
    LeftmostShowsReadings(cfg, readings);
    KeptIff(cfg, Run(cfg, readings), Delivered(readings), Updates(cfg, readings));
  }

  lemma KeptIff(cfg: Config, g: Graph, delivered: seq<Values>, m: nat)
    requires cfg.Valid() && cfg.w >= 2 && Faithful(cfg, g, m) && g.window[0] != []
    requires ShowsLast(cfg, g.window, delivered) && ShowsReadings(cfg, g.pic[0], delivered)
    ensures Rebuild(cfg, g).pic[0] == g.pic[0] <==> MeetsNothing(cfg, g.window, delivered)
  {
    RebuildKeepsLeftmostIff(cfg, g, m);
    BareBelowIff(cfg, g.window, delivered, g.pic[0]);
  }

  /** In column 0 the bar reaches the top, or the row above it has no connector. */
  ghost predicate MeetsNothing(cfg: Config, window: seq<Values>, delivered: seq<Values>)
    requires cfg.Valid() && cfg.w >= 2 && |window| == cfg.w
  {
    var line := LineOf(cfg, window, 0);
    line == 0 || (line <= LineOf(cfg, window, 1) + 1 && !Stale(cfg, delivered, line - 1))
  }

  lemma {:induction false} BareBelowIff(cfg: Config, window: seq<Values>, delivered: seq<Values>, col: Column)
    requires cfg.Valid() && cfg.w >= 2 && ShowsLast(cfg, window, delivered) && ShowsReadings(cfg, col, delivered)
    ensures var line, next := LineOf(cfg, window, 0), LineOf(cfg, window, 1);
            BareBelow(col, next, line) <==> MeetsNothing(cfg, window, delivered)
  {
    assert window[cfg.w - 1] == At(delivered, cfg.w - 1) && window[cfg.w - 2] == At(delivered, cfg.w - 2);
    BareRowsIff(cfg, delivered, LineOf(cfg, window, 0), LineOf(cfg, window, 1), col);
  }

  lemma BareRowsIff(cfg: Config, delivered: seq<Values>, line: nat, next: nat, col: Column)
    requires cfg.Valid() && cfg.w >= 2 && ShowsReadings(cfg, col, delivered)
    requires line == Line(cfg, At(delivered, cfg.w - 1)) && next == Line(cfg, At(delivered, cfg.w - 2))
    ensures BareBelow(col, next, line) <==> line == 0 || (line <= next + 1 && !Stale(cfg, delivered, line - 1))
  {
    if line > 0 {
      assert col[line - 1] == LeftmostPixel(cfg, delivered, line - 1);
    }
  }

  // ---------- When nothing changes: the whole picture ----------

  /** With a newest sample, no column may show a connector the rebuild leaves out; without
      one, nothing may be drawn at all. */
  ghost predicate NothingToErase(cfg: Config, g: Graph, m: nat)
    requires cfg.Valid() && cfg.w >= 2 && Shaped(cfg, g)
  {
    if g.window[0] != [] then
      && BareBelow(g.pic[0], LineOf(cfg, g.window, 1), LineOf(cfg, g.window, 0))
      && forall c :: 1 <= c < cfg.w ==> ShowsNoRight(cfg, g.window, m, c)
    else
      && AllIdle(cfg, g.window)
      && forall y :: 0 <= y < cfg.h ==> g.pic[0][y] == BLACK
  }

  /** Every run: exactly when a rebuild leaves the whole picture as it is. */
  lemma {:induction false} RebuildChangesNothingIff(cfg: Config, readings: seq<Reading>)
    requires cfg.Valid() && AllUsable(cfg, readings) && cfg.w >= 2
    ensures var g := Run(cfg, readings);
            Rebuild(cfg, g).pic == g.pic <==> NothingToErase(cfg, g, Updates(cfg, readings))
  {
    RunFaithful(cfg, readings);
    FaithfulSameIff(cfg, Run(cfg, readings), Updates(cfg, readings));
  }

  lemma {:induction false} FaithfulSameIff(cfg: Config, g: Graph, m: nat)
    requires cfg.Valid() && cfg.w >= 2 && Faithful(cfg, g, m)
    ensures Rebuild(cfg, g).pic == g.pic <==> NothingToErase(cfg, g, m)
  {
    if g.window[0] == [] {
      BlankIff(cfg, g, m);
    } else {
      RebuildKeepsLeftmostIff(cfg, g, m);
      forall c | 1 <= c < cfg.w
        ensures Rebuild(cfg, g).pic[c] == g.pic[c] <==> ShowsNoRight(cfg, g.window, m, c)
      {
        RebuildKeepsColumnIff(cfg, g, m, c);
      }
      SameByColumn(cfg, g.pic, Rebuild(cfg, g).pic);
    }
  }

  lemma SameByColumn(cfg: Config, a: Picture, b: Picture)
    requires IsPicture(cfg, a) && IsPicture(cfg, b) && cfg.w >= 1
    ensures a == b <==> a[0] == b[0] && forall c :: 1 <= c < cfg.w ==> b[c] == a[c]
  {
    if a[0] == b[0] && forall c :: 1 <= c < cfg.w ==> b[c] == a[c] {
      assert forall c :: 0 <= c < cfg.w ==> a[c] == b[c];
    }
  }

  lemma BlackIsIdle(cfg: Config, col: Column, values: Values)
    requires cfg.Valid() && |col| == cfg.h && ExactBelowLine(cfg, col, values)
    ensures (forall y :: 0 <= y < cfg.h ==> col[y] == BLACK) ==> Peak(cfg.mode, values) == 0
  {
    if Peak(cfg.mode, values) != 0 {
      assert col[Line(cfg, values)] == cfg.line;
    }
  }

  /** The picture is blank exactly when the window is idle and column 0 is black. */
  lemma {:induction false} BlankIff(cfg: Config, g: Graph, m: nat)
    requires cfg.Valid() && Faithful(cfg, g, m)
    ensures g.pic == Blank(cfg) <==> AllIdle(cfg, g.window) && forall y :: 0 <= y < cfg.h ==> g.pic[0][y] == BLACK
  {
    if g.pic == Blank(cfg) {
      forall i | 0 <= i < cfg.w
        ensures Peak(cfg.mode, g.window[i]) == 0
      {
        ColumnExactBelowLine(cfg, g, cfg.w - 1 - i, m);
        BlackIsIdle(cfg, g.pic[cfg.w - 1 - i], g.window[i]);
      }
    } else if AllIdle(cfg, g.window) && forall y :: 0 <= y < cfg.h ==> g.pic[0][y] == BLACK {
      forall c | 0 <= c < cfg.w
        ensures g.pic[c] == Blank(cfg)[c]
      {
        if c > 0 {
          assert ExactColumn(cfg, g, c, m);
        }
      }
    }
  }

  /** So the incremental picture is not always what a rebuild would draw: after usage 0 and
      255 in three columns, a rebuild erases the connector on the idle sample. */
  lemma {:induction false} RebuildErasesConnector() returns (cfg: Config, readings: seq<Reading>)
    ensures cfg.Valid() && cfg.w == 3 && cfg.h == 2 && NeverRebuilds(readings)
    ensures Run(cfg, readings).window[0] != []
    ensures Rebuild(cfg, Run(cfg, readings)).pic[1] != Run(cfg, readings).pic[1]
  {
    cfg := Config(3, 2, Independent, seq(256, _ => 1), 1);
    readings := [ReadOk([0]), ReadOk([255])];
    IdleThenFull(cfg, readings);
    UpdatesAreUsable(cfg, readings);
    RunFaithful(cfg, readings);
    UpdatesOfOkRun(cfg, readings);
    IdleBesideFull(cfg, Run(cfg, readings), Updates(cfg, readings));
  }

  lemma IdleBesideFull(cfg: Config, g: Graph, m: nat)
    requires cfg.Valid() && cfg.w == 3 && cfg.h == 2 && cfg.mode.Independent? && Faithful(cfg, g, m) && m >= cfg.w
    requires g.window == [[255], [0], []]
    ensures Rebuild(cfg, g).pic[1] != g.pic[1]
  {
    IdleAndFull();
    RebuildKeepsColumnIff(cfg, g, m, 1);
  }

  lemma IdleThenFull(cfg: Config, two: seq<Reading>)
    requires cfg.Valid() && cfg.w == 3 && two == [ReadOk([0]), ReadOk([255])]
    ensures Run(cfg, two).window == [[255], [0], []]
  {
    WindowIsLastReadings(cfg, two);
    assert two[..1] == [ReadOk([0])] && two[..1][..0] == [];
    assert Delivered(two[..1]) == [[0]];
    assert Delivered(two) == [[255], [0]];
  }

  /** Nor does a rebuild change connectors only: after 255 and a reading without values, it
      blanks a bar. */
  lemma {:induction false} RebuildBlanksBar() returns (cfg: Config, readings: seq<Reading>)
    ensures cfg.Valid() && cfg.w == cfg.h == 2 && NeverRebuilds(readings)
    ensures var g := Run(cfg, readings);
            g.window == [[], [255]] && !OnlyConnectorsDiffer(cfg, g.window, g.pic, Rebuild(cfg, g).pic)
  {
    cfg := Config(2, 2, Independent, seq(256, _ => 1), 1);
    readings := [ReadOk([255]), ReadOk([])];
    FullThenNothing(cfg, readings);
    UpdatesAreUsable(cfg, readings);
    RebuildChangesOnlyConnectorsIff(cfg, readings);
    IdleAndFull();
    assert Peak(cfg.mode, Run(cfg, readings).window[1]) != 0;
  }

  lemma FullThenNothing(cfg: Config, two: seq<Reading>)
    requires cfg.Valid() && cfg.w == 2 && two == [ReadOk([255]), ReadOk([])]
    ensures Run(cfg, two).window == [[], [255]]
  {
    WindowIsLastReadings(cfg, two);
    assert two[..1] == [ReadOk([255])] && two[..1][..0] == [];
    assert Delivered(two[..1]) == [[255]];
    assert Delivered(two) == [[], [255]];
  }

  /** Column 0 may change alone: after 255, 0, 0 in two columns a rebuild erases the stale
      connector there and leaves the other column. */
  lemma {:induction false} RebuildErasesStale() returns (cfg: Config, readings: seq<Reading>)
    ensures cfg.Valid() && cfg.w == cfg.h == 2 && NeverRebuilds(readings)
    ensures var g := Run(cfg, readings);
            && g.window[0] != []
            && Rebuild(cfg, g).pic[1] == g.pic[1]
            && Rebuild(cfg, g).pic[0] != g.pic[0]
  {
    cfg, readings := StaleConnectorRemains();
    UpdatesAreUsable(cfg, readings);
    RunFaithful(cfg, readings);
    var g, m := Run(cfg, readings), Updates(cfg, readings);
    RebuildKeepsColumnIff(cfg, g, m, 1);
    RebuildKeepsLeftmostIff(cfg, g, m);
    assert !BareBelow(g.pic[0], LineOf(cfg, g.window, 1), LineOf(cfg, g.window, 0));
  }
}
