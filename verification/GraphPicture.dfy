/** The incremental picture is the from-scratch picture.

    The invariant `Faithful` pins down every pixel of every column but the leftmost, over
    every run that mixes updates and rebuilds; the leftmost column is pinned down at and
    below its own peak line.  */
module GraphPicture {
  import opened GraphSteps
  import opened GraphTypes
  import opened Options

  // ---------- The invariant ----------

  /** Whether the connector between columns `c` and `c + 1` is also drawn on `c`.  A rebuild
      renders `c` over it, so it is present only for pairs joined by one of the `m` updates
      since the last rebuild. */
  predicate HasRight(cfg: Config, c: nat, m: nat) {
    c + 1 < cfg.w && c + m + 1 >= cfg.w
  }

  ghost predicate ExactColumn(cfg: Config, g: Graph, c: nat, m: nat)
    requires cfg.Valid() && Shaped(cfg, g) && 1 <= c < cfg.w
  {
    g.pic[c] == ScratchColumn(cfg, g.window, c, HasRight(cfg, c, m))
  }

  /** At and below the sample's line the pixels are exact; above it, black or line colour. */
  ghost predicate ExactBelowLine(cfg: Config, col: Column, values: Values)
    requires cfg.Valid() && |col| == cfg.h
  {
    forall y :: 0 <= y < cfg.h ==>
      if y >= Line(cfg, values) then col[y] == LineAndBar(cfg, values, y)
      else col[y] == BLACK || col[y] == cfg.line
  }

  /** The cached peak agrees with the window. */
  ghost predicate PeakCached(cfg: Config, window: seq<Values>, yMin: nat, age: Option<nat>)
    requires cfg.Valid()
  {
    && yMin <= cfg.h
    && (forall i :: 0 <= i < |window| ==> yMin <= Line(cfg, window[i]))
    && (yMin < cfg.h ==>
         && age.Some?
         && age.value < |window|
         && Line(cfg, window[age.value]) == yMin
         && forall i :: 0 <= i < age.value ==> yMin < Line(cfg, window[i]))
  }

  ghost predicate Faithful(cfg: Config, g: Graph, m: nat)
    requires cfg.Valid()
  {
    && Shaped(cfg, g)
    && g.yMinPrev == g.yMin
    && PeakCached(cfg, g.window, g.yMin, g.peakAge)
    && (forall c :: 1 <= c < cfg.w ==> ExactColumn(cfg, g, c, m))
    && ExactBelowLine(cfg, g.pic[0], g.window[cfg.w - 1])
  }

  // ---------- Painting and scanning ----------

  /** Black above row `t`, not black from there down. */
  ghost predicate Suffix(col: Column, t: nat) {
    forall y :: 0 <= y < |col| ==> (col[y] == BLACK <==> y < t)
  }

  lemma PaintedSuffix(cfg: Config, values: Values, top: nat)
    requires cfg.Valid()
    ensures Suffix(Painted(cfg, values, top), Min(top, Line(cfg, values)))
  {
    forall y | 0 <= y < cfg.h
      ensures Painted(cfg, values, top)[y] == BLACK <==> y < Min(top, Line(cfg, values))
    {
      PaintedIsSuffix(cfg, values, top, y);
    }
  }

  lemma DrawOnPainted(cfg: Config, values: Values, top: nat, from: nat)
    requires cfg.Valid()
    ensures DrawLine(cfg, Painted(cfg, values, top), from, Line(cfg, values)) == Painted(cfg, values, Min(top, from))
  {
  }

  /** Either connector rule amounts to: on both columns, colour the rows strictly between
      the neighbour's line and the column's own line. */
  lemma {:induction false} ConnectBoth(cfg: Config, pic: Picture, newer: Values, older: Values, c: nat)
    requires cfg.Valid() && IsPicture(cfg, pic) && 1 <= c < cfg.w
    ensures var r := Connect(cfg, pic, Peak(cfg.mode, newer), Peak(cfg.mode, older), c, c - 1);
            && r[c] == DrawLine(cfg, pic[c], Line(cfg, older) + 1, Line(cfg, newer))
            && r[c - 1] == DrawLine(cfg, pic[c - 1], Line(cfg, newer) + 1, Line(cfg, older))
            && forall j :: 0 <= j < cfg.w && j != c && j != c - 1 ==> r[j] == pic[j]
  {
    var un, uo := Peak(cfg.mode, newer), Peak(cfg.mode, older);
    if un <= uo {
      YMonotone(un, uo, cfg.h);
      assert DrawLine(cfg, pic[c - 1], Line(cfg, newer) + 1, Line(cfg, older)) == pic[c - 1];
    }
    if uo <= un {
      YMonotone(uo, un, cfg.h);
      assert DrawLine(cfg, pic[c], Line(cfg, older) + 1, Line(cfg, newer)) == pic[c];
    }
  }

  /** Where the stale scan stops there is a black pixel just above, or the top. */
  lemma {:induction false} StaleTopStops(col: Column, y: nat)
    requires y <= |col|
    ensures var t := StaleTop(col, y);
            && (t == 0 || col[t - 1] == BLACK)
            && forall i :: t <= i < y ==> col[i] != BLACK
  {
    if y > 0 && col[y - 1] != BLACK {
      StaleTopStops(col, y - 1);
    }
  }

  /** The scan that stops at the first black pixel clears everything above the new bar, even
      with a connector freshly drawn on the column. */
  lemma RenderClears(cfg: Config, col: Column, t: nat, from: nat, values: Values)
    requires cfg.Valid() && |col| == cfg.h && Suffix(col, t)
    ensures RenderOver(cfg, DrawLine(cfg, col, from, Line(cfg, values)), values) == Painted(cfg, values, cfg.h)
  {
    var drawn := DrawLine(cfg, col, from, Line(cfg, values));
    StaleTopStops(drawn, Line(cfg, values));
    var stop := StaleTop(drawn, Line(cfg, values));
    forall y | 0 <= y < stop
      ensures drawn[y] == BLACK
    {
      assert drawn[stop - 1] == BLACK;
      assert col[stop - 1] == BLACK;
      assert col[y] == BLACK;
    }
  }

  /** On a column whose pixels above row `p` are only black or line colour, rendering leaves
      only such pixels above the new line. */
  lemma {:induction false} RenderKeepsBelowLine(cfg: Config, col: Column, shown: Values, from: nat, values: Values)
    requires cfg.Valid() && |col| == cfg.h && ExactBelowLine(cfg, col, shown)
    ensures ExactBelowLine(cfg, RenderOver(cfg, DrawLine(cfg, col, from, Line(cfg, values)), values), values)
  {
    var drawn := DrawLine(cfg, col, from, Line(cfg, values));
    StaleTopStops(drawn, Line(cfg, values));
    var stop := StaleTop(drawn, Line(cfg, values));
    PaintedSuffix(cfg, shown, cfg.h);
    assert forall y :: Line(cfg, shown) <= y < cfg.h ==> col[y] == Painted(cfg, shown, cfg.h)[y] != BLACK;
    forall y | 0 <= y < stop
      ensures drawn[y] == BLACK || drawn[y] == cfg.line
    {
      assert drawn[stop - 1] == BLACK;
    }
  }

  // ---------- The peak cache ----------

  lemma {:induction false} RescanCaches(cfg: Config, window: seq<Values>, n: nat)
    requires cfg.Valid() && n <= |window|
    ensures PeakCached(cfg, window[..n], Rescan(cfg, window, n).0, Rescan(cfg, window, n).1)
  {
    if n > 0 {
      RescanCaches(cfg, window, n - 1);
      assert forall i :: 0 <= i < n - 1 ==> window[..n][i] == window[..n - 1][i];
    }
  }

  /** Two caches of the same window agree, so the cheap update equals a full rescan. */
  lemma CacheIsUnique(cfg: Config, window: seq<Values>, y1: nat, a1: Option<nat>, y2: nat, a2: Option<nat>)
    requires cfg.Valid()
    requires PeakCached(cfg, window, y1, a1) && PeakCached(cfg, window, y2, a2)
    ensures y1 == y2 && (y1 < cfg.h ==> a1 == a2)
  {
    if y1 < cfg.h && y2 < cfg.h {
      assert y1 <= Line(cfg, window[a2.value]) && y2 <= Line(cfg, window[a1.value]);
    }
  }

  lemma UpdateCaches(cfg: Config, g: Graph, values: Values)
    requires cfg.Valid() && cfg.w >= 2 && Shaped(cfg, g)
    requires PeakCached(cfg, g.window, g.yMin, g.peakAge)
    ensures var r := UpdatePeak(cfg, g.window, g.yMin, g.peakAge, values);
            PeakCached(cfg, Push(cfg, g.window, values), r.0, r.1)
  {
    var window := Push(cfg, g.window, values);
    if g.peakAge == Some(cfg.w - 1) {
      RescanCaches(cfg, window, cfg.w);
      assert window[..cfg.w] == window;
    } else {
      assert forall i :: 1 <= i < cfg.w ==> window[i] == g.window[i - 1];
    }
  }

  // ---------- One update ----------

  lemma ScrollExact(cfg: Config, pic: Picture, yStart: nat, c: nat)
    requires IsPicture(cfg, pic) && c + 1 < cfg.w
    requires forall y :: 0 <= y < cfg.h && y < yStart ==> pic[c][y] == pic[c + 1][y]
    ensures Scroll(cfg, pic, yStart)[c] == pic[c + 1]
  {
  }

  /** Column 0 keeps its rows above the scroll start, where it is black or line colour. */
  lemma ScrollLeftmost(cfg: Config, pic: Picture, yStart: nat, oldest: Values, next: Values)
    requires cfg.Valid() && cfg.w >= 2 && IsPicture(cfg, pic)
    requires ExactBelowLine(cfg, pic[0], oldest) && yStart <= Line(cfg, oldest)
    requires ExactBelowLine(cfg, pic[1], next) && yStart <= Line(cfg, next)
    ensures ExactBelowLine(cfg, Scroll(cfg, pic, yStart)[0], next)
  {
  }

  lemma DrawKeepsBelowLine(cfg: Config, col: Column, values: Values, from: nat)
    requires cfg.Valid() && |col| == cfg.h && ExactBelowLine(cfg, col, values)
    ensures ExactBelowLine(cfg, DrawLine(cfg, col, from, Line(cfg, values)), values)
  {
  }

  lemma PaintedExact(cfg: Config, values: Values, top: nat)
    requires cfg.Valid()
    ensures ExactBelowLine(cfg, Painted(cfg, values, top), values)
  {
  }

  lemma ColumnExactBelowLine(cfg: Config, g: Graph, c: nat, m: nat)
    requires cfg.Valid() && Faithful(cfg, g, m) && c < cfg.w
    ensures ExactBelowLine(cfg, g.pic[c], g.window[cfg.w - 1 - c])
  {
    if c >= 1 {
      assert ExactColumn(cfg, g, c, m);
      PaintedExact(cfg, g.window[cfg.w - 1 - c], ConnectorTop(cfg, g.window, c, HasRight(cfg, c, m)));
    }
  }

  /** No pixel of columns 1 and up is drawn above the cached minimum row. */
  lemma BlackAboveMin(cfg: Config, g: Graph, c: nat, m: nat)
    requires cfg.Valid() && Faithful(cfg, g, m) && 1 <= c < cfg.w
    ensures forall y :: 0 <= y < g.yMin ==> g.pic[c][y] == BLACK
  {
    var right := HasRight(cfg, c, m);
    assert ExactColumn(cfg, g, c, m);
    PaintedSuffix(cfg, g.window[cfg.w - 1 - c], ConnectorTop(cfg, g.window, c, right));
    assert g.yMin <= LineOf(cfg, g.window, c) && g.yMin <= LineOf(cfg, g.window, c - 1);
    if right {
      assert g.yMin <= LineOf(cfg, g.window, c + 1);
    }
  }

  lemma ColumnIsSuffix(cfg: Config, g: Graph, c: nat, m: nat) returns (t: nat)
    requires cfg.Valid() && Faithful(cfg, g, m) && 1 <= c < cfg.w
    ensures g.yMin <= t <= Line(cfg, g.window[cfg.w - 1 - c])
    ensures Suffix(g.pic[c], t)
  {
    var right := HasRight(cfg, c, m);
    assert ExactColumn(cfg, g, c, m);
    PaintedSuffix(cfg, g.window[cfg.w - 1 - c], ConnectorTop(cfg, g.window, c, right));
    t := Min(ConnectorTop(cfg, g.window, c, right), Line(cfg, g.window[cfg.w - 1 - c]));
    assert g.yMin <= LineOf(cfg, g.window, c) && g.yMin <= LineOf(cfg, g.window, c - 1);
    if right {
      assert g.yMin <= LineOf(cfg, g.window, c + 1);
    }
  }

  /** Drawing the right connector on an exact column gives the exact column with both. */
  lemma JoinRight(cfg: Config, window: seq<Values>, c: nat)
    requires cfg.Valid() && |window| == cfg.w && 1 <= c && c + 1 < cfg.w
    ensures DrawLine(cfg, ScratchColumn(cfg, window, c, false), LineOf(cfg, window, c + 1) + 1, LineOf(cfg, window, c))
            == ScratchColumn(cfg, window, c, true)
  {
    DrawOnPainted(cfg, window[cfg.w - 1 - c], ConnectorTop(cfg, window, c, false), LineOf(cfg, window, c + 1) + 1);
  }

  /** Drawing the left connector on a bare bar gives the exact column without the right one. */
  lemma JoinLeft(cfg: Config, window: seq<Values>, c: nat)
    requires cfg.Valid() && |window| == cfg.w && 1 <= c < cfg.w
    ensures DrawLine(cfg, Painted(cfg, window[cfg.w - 1 - c], cfg.h),
                     LineOf(cfg, window, c - 1) + 1, LineOf(cfg, window, c))
            == ScratchColumn(cfg, window, c, false)
  {
    DrawOnPainted(cfg, window[cfg.w - 1 - c], cfg.h, LineOf(cfg, window, c - 1) + 1);
  }

  /** What the update's passes make of the last two columns. */
  lemma {:induction false} UpdateDraws(cfg: Config, g: Graph, values: Values, m: nat)
    requires cfg.Valid() && cfg.w >= 2 && Faithful(cfg, g, m)
    ensures var r, scrolled := UpdatePicture(cfg, g, values), Scroll(cfg, g.pic, g.yMinPrev);
            var last := cfg.w - 1;
            && r[last] == DrawLine(cfg, Painted(cfg, values, cfg.h), Line(cfg, g.window[0]) + 1, Line(cfg, values))
            && r[last - 1] == DrawLine(cfg, scrolled[last - 1], Line(cfg, values) + 1, Line(cfg, g.window[0]))
            && forall c :: 0 <= c < last - 1 ==> r[c] == scrolled[c]
  {
    var last := cfg.w - 1;
    var scrolled := Scroll(cfg, g.pic, g.yMinPrev);
    assert scrolled[last] == g.pic[last];
    var t := ColumnIsSuffix(cfg, g, last, m);
    assert DrawLine(cfg, scrolled[last], cfg.h, Line(cfg, values)) == scrolled[last];
    RenderClears(cfg, scrolled[last], t, cfg.h, values);
    ConnectBoth(cfg, scrolled[last := RenderOver(cfg, scrolled[last], values)], values, g.window[0], last);
  }

  lemma ScrolledColumn(cfg: Config, g: Graph, c: nat, m: nat)
    requires cfg.Valid() && cfg.w >= 2 && Faithful(cfg, g, m) && 1 <= c < cfg.w - 1
    ensures Scroll(cfg, g.pic, g.yMinPrev)[c] == g.pic[c + 1]
  {
    BlackAboveMin(cfg, g, c, m);
    BlackAboveMin(cfg, g, c + 1, m);
    ScrollExact(cfg, g.pic, g.yMinPrev, c);
  }

  lemma UpdateColumn(cfg: Config, g: Graph, values: Values, m: nat, c: nat)
    requires cfg.Valid() && cfg.w >= 2 && Faithful(cfg, g, m) && 1 <= c < cfg.w
    ensures UpdatePicture(cfg, g, values)[c] ==
            ScratchColumn(cfg, Push(cfg, g.window, values), c, HasRight(cfg, c, m + 1))
  {
    var window := Push(cfg, g.window, values);
    UpdateDraws(cfg, g, values, m);
    if c == cfg.w - 1 {
      JoinLeft(cfg, window, c);
    } else {
      ScrolledColumn(cfg, g, c, m);
      assert ExactColumn(cfg, g, c + 1, m);
      ScratchShifts(cfg, g.window, values, c, HasRight(cfg, c + 1, m));
      if c == cfg.w - 2 {
        JoinRight(cfg, window, c);
      }
    }
  }

  /** The scratch picture of a column moves left with its sample. */
  lemma ScratchShifts(cfg: Config, window: seq<Values>, values: Values, c: nat, right: bool)
    requires cfg.Valid() && |window| == cfg.w && 1 <= c < cfg.w - 1 && (right ==> c + 2 < cfg.w)
    ensures ScratchColumn(cfg, window, c + 1, right) == ScratchColumn(cfg, Push(cfg, window, values), c, right)
  {
    var shifted := Push(cfg, window, values);
    assert forall i :: 1 <= i < cfg.w ==> shifted[i] == window[i - 1];
    assert ConnectorTop(cfg, window, c + 1, right) == ConnectorTop(cfg, shifted, c, right);
  }

  lemma {:induction false} UpdateLeftmost(cfg: Config, g: Graph, values: Values, m: nat)
    requires cfg.Valid() && cfg.w >= 2 && Faithful(cfg, g, m)
    ensures ExactBelowLine(cfg, UpdatePicture(cfg, g, values)[0], g.window[cfg.w - 2])
  {
    var oldest, next := g.window[cfg.w - 1], g.window[cfg.w - 2];
    UpdateDraws(cfg, g, values, m);
    ColumnExactBelowLine(cfg, g, 1, m);
    ScrollLeftmost(cfg, g.pic, g.yMinPrev, oldest, next);
    DrawKeepsBelowLine(cfg, Scroll(cfg, g.pic, g.yMinPrev)[0], next, Line(cfg, values) + 1);
  }

  lemma UpdateFaithful(cfg: Config, g: Graph, values: Values, m: nat)
    requires cfg.Valid() && cfg.w >= 2 && Faithful(cfg, g, m)
    ensures Faithful(cfg, Update(cfg, g, values), m + 1)
  {
    UpdateCaches(cfg, g, values);
    UpdateLeftmost(cfg, g, values, m);
    var n := m + 1;
    forall c | 1 <= c < cfg.w
      ensures ExactColumn(cfg, Update(cfg, g, values), c, n)
    {
      UpdateColumn(cfg, g, values, m, c);
    }
  }

  // ---------- One rebuild ----------

  /** What rebuilding column `c` needs of its pixels: rendering any sample over them, with or
      without a fresh connector, comes out right. */
  ghost predicate Renderable(cfg: Config, col: Column, c: nat)
    requires cfg.Valid()
  {
    && |col| == cfg.h
    && if c == 0 then exists shown :: ExactBelowLine(cfg, col, shown)
       else exists t :: Suffix(col, t)
  }

  ghost predicate RendersTo(cfg: Config, col: Column, values: Values, c: nat)
    requires cfg.Valid() && |col| == cfg.h
  {
    if c == 0 then ExactBelowLine(cfg, RenderOver(cfg, col, values), values)
    else RenderOver(cfg, col, values) == Painted(cfg, values, cfg.h)
  }

  lemma RenderableRenders(cfg: Config, col: Column, c: nat, from: nat, values: Values)
    requires cfg.Valid() && Renderable(cfg, col, c)
    ensures RendersTo(cfg, DrawLine(cfg, col, from, Line(cfg, values)), values, c)
  {
    if c == 0 {
      var shown :| ExactBelowLine(cfg, col, shown);
      RenderKeepsBelowLine(cfg, col, shown, from, values);
    } else {
      var t :| Suffix(col, t);
      RenderClears(cfg, col, t, from, values);
    }
  }

  lemma RebuildOneColumn(cfg: Config, pic: Picture, window: seq<Values>, c: nat)
    requires cfg.Valid() && IsPicture(cfg, pic) && |window| == cfg.w && 1 <= c < cfg.w
    requires RendersTo(cfg, pic[c], window[cfg.w - 1 - c], c)
    requires Renderable(cfg, pic[c - 1], c - 1)
    ensures var r := RebuildColumn(cfg, pic, window, c);
            && r[c] == ScratchColumn(cfg, window, c, false)
            && RendersTo(cfg, r[c - 1], window[cfg.w - c], c - 1)
            && forall j :: 0 <= j < cfg.w && j != c && j != c - 1 ==> r[j] == pic[j]
  {
    var values, older := window[cfg.w - 1 - c], window[cfg.w - c];
    ConnectBoth(cfg, pic[c := RenderOver(cfg, pic[c], values)], values, older, c);
    JoinLeft(cfg, window, c);
    RenderableRenders(cfg, pic[c - 1], c - 1, Line(cfg, values) + 1, older);
  }

  lemma {:induction false} RebuildColumns(cfg: Config, pic: Picture, window: seq<Values>, c: nat)
    requires cfg.Valid() && IsPicture(cfg, pic) && |window| == cfg.w && c < cfg.w
    requires RendersTo(cfg, pic[c], window[cfg.w - 1 - c], c)
    requires forall j :: 0 <= j < c ==> Renderable(cfg, pic[j], j)
    ensures var r := RebuildFrom(cfg, pic, window, c);
            && (forall j :: c < j < cfg.w ==> r[j] == pic[j])
            && (forall j :: 1 <= j <= c ==> r[j] == ScratchColumn(cfg, window, j, false))
            && ExactBelowLine(cfg, r[0], window[cfg.w - 1])
    decreases c
  {
    if c > 0 {
      RebuildOneColumn(cfg, pic, window, c);
      RebuildColumns(cfg, RebuildColumn(cfg, pic, window, c), window, c - 1);
    }
  }

  lemma FaithfulRenderable(cfg: Config, g: Graph, m: nat, c: nat)
    requires cfg.Valid() && Faithful(cfg, g, m) && c < cfg.w
    ensures Renderable(cfg, g.pic[c], c)
  {
    if c > 0 {
      var t := ColumnIsSuffix(cfg, g, c, m);
    }
  }

  lemma {:induction false} RebuildFaithful(cfg: Config, g: Graph, window: seq<Values>, m: nat)
    requires cfg.Valid() && Faithful(cfg, g, m) && |window| == cfg.w && window[0] != []
    ensures Faithful(cfg, Rebuild(cfg, g.(window := window)), 0)
  {
    var last := cfg.w - 1;
    RescanCaches(cfg, window, cfg.w);
    assert window[..cfg.w] == window;
    forall j | 0 <= j < cfg.w
      ensures Renderable(cfg, g.pic[j], j)
    {
      FaithfulRenderable(cfg, g, m, j);
    }
    assert DrawLine(cfg, g.pic[last], cfg.h, Line(cfg, window[0])) == g.pic[last];
    RenderableRenders(cfg, g.pic[last], last, cfg.h, window[0]);
    RebuildColumns(cfg, g.pic, window, last);
  }

  // ---------- Blank pictures ----------

  ghost predicate AllIdle(cfg: Config, window: seq<Values>) {
    forall i :: 0 <= i < |window| ==> Peak(cfg.mode, window[i]) == 0
  }

  lemma BlankFaithful(cfg: Config, g: Graph, m: nat)
    requires cfg.Valid() && Shaped(cfg, g) && AllIdle(cfg, g.window)
    requires g.pic == Blank(cfg) && g.yMin == g.yMinPrev == cfg.h
    ensures Faithful(cfg, g, m)
  {
    forall c | 1 <= c < cfg.w
      ensures ExactColumn(cfg, g, c, m)
    {
      assert g.pic[c] == ScratchColumn(cfg, g.window, c, HasRight(cfg, c, m));
    }
  }

  /** What a rebuild copes with: a newest sample with at least one value, or no activity at all. */
  ghost predicate Redrawable(cfg: Config, window: seq<Values>)
    requires |window| > 0
  {
    window[0] != [] || AllIdle(cfg, window)
  }

  /** A rebuild, for any window, makes picture and cache right exactly when it copes with it: the
      code blanks the picture when the newest sample has no values. */
  lemma {:induction false} RebuildFaithfulIff(cfg: Config, g: Graph, window: seq<Values>, m: nat)
    requires cfg.Valid() && Faithful(cfg, g, m) && |window| == cfg.w
    ensures Faithful(cfg, Rebuild(cfg, g.(window := window)), 0) <==> Redrawable(cfg, window)
  {
    var g' := Rebuild(cfg, g.(window := window));
    if window[0] != [] {
      RebuildFaithful(cfg, g, window, m);
    } else if AllIdle(cfg, window) {
      BlankFaithful(cfg, g', 0);
    } else {
      var i :| 0 <= i < |window| && Peak(cfg.mode, window[i]) != 0;
      assert g'.window[i] == window[i] && Line(cfg, g'.window[i]) < cfg.h == g'.yMin;
    }
  }

  // ---------- Whole runs ----------

  /** The rebuilding events the drawing code copes with, given the window they meet. */
  ghost predicate Usable(cfg: Config, window: seq<Values>, r: Reading)
    requires |window| > 0
  {
    && Fits(cfg, r)
    && (r.ReadRegenerate? ==> Redrawable(cfg, [r.values] + r.history))
    && (r.Redraw? ==> Redrawable(cfg, window))
  }

  ghost predicate AllUsable(cfg: Config, readings: seq<Reading>)
    requires cfg.Valid()
    ensures AllUsable(cfg, readings) ==> AllFit(cfg, readings)
  {
    if readings == [] then true
    else
      var before := readings[..|readings| - 1];
      AllUsable(cfg, before) && Usable(cfg, Run(cfg, before).window, readings[|readings| - 1])
  }

  /** Number of updates since the last rebuild; the start counts as a full window of them. */
  function Updates(cfg: Config, readings: seq<Reading>): nat {
    if readings == [] then cfg.w
    else UpdatesAfter(Updates(cfg, readings[..|readings| - 1]), readings[|readings| - 1])
  }

  function UpdatesAfter(n: nat, r: Reading): nat {
    match r
    case ReadError => n
    case ReadOk(_) => n + 1
    case ReadRegenerate(_, _) => 0
    case Redraw => 0
  }

  /** Every event the code copes with keeps the picture faithful. */
  lemma {:induction false} StepFaithful(cfg: Config, g: Graph, r: Reading, m: nat)
    requires cfg.Valid() && Faithful(cfg, g, m) && Usable(cfg, g.window, r)
    ensures Faithful(cfg, Step(cfg, g, r), UpdatesAfter(m, r))
  {
    match r
    case ReadError =>
    case ReadOk(values) =>
      if cfg.w >= 2 {
        UpdateFaithful(cfg, g, values, m);
      }
    case ReadRegenerate(values, history) =>
      RebuildFaithfulIff(cfg, g, [values] + history, m);
    case Redraw =>
      assert g.(window := g.window) == g;
      RebuildFaithfulIff(cfg, g, g.window, m);
  }

  /** Over every run, every pixel of every column but the leftmost is the from-scratch pixel,
      and the leftmost column is exact at and below its line. */
  lemma {:induction false} RunFaithful(cfg: Config, readings: seq<Reading>)
    requires cfg.Valid() && AllUsable(cfg, readings)
    ensures Faithful(cfg, Run(cfg, readings), Updates(cfg, readings))
  {
    if readings == [] {
      BlankFaithful(cfg, Start(cfg), cfg.w);
    } else {
      var before, r := readings[..|readings| - 1], readings[|readings| - 1];
      RunFaithful(cfg, before);
      StepFaithful(cfg, Run(cfg, before), r, Updates(cfg, before));
    }
  }

  // ---------- What the invariant means ----------

  /** A run of updates and failed reads only. */
  ghost predicate NeverRebuilds(readings: seq<Reading>) {
    forall i :: 0 <= i < |readings| ==> readings[i].ReadOk? || readings[i].ReadError?
  }

  lemma {:induction false} UpdatesAreUsable(cfg: Config, readings: seq<Reading>)
    requires cfg.Valid() && NeverRebuilds(readings)
    ensures AllUsable(cfg, readings)
  {
    if readings != [] {
      UpdatesAreUsable(cfg, readings[..|readings| - 1]);
    }
  }

  lemma {:induction false} UpdatesOfOkRun(cfg: Config, readings: seq<Reading>)
    requires NeverRebuilds(readings)
    ensures Updates(cfg, readings) >= cfg.w
  {
    if readings != [] {
      UpdatesOfOkRun(cfg, readings[..|readings| - 1]);
    }
  }

  /** Without rebuilds the incremental picture is the from-scratch one: bar, peak line and
      connectors to both neighbours. */
  lemma {:induction false} IncrementalIsFromScratch(cfg: Config, readings: seq<Reading>, c: nat)
    requires cfg.Valid() && NeverRebuilds(readings)
    requires c < cfg.w
    ensures var g := Run(cfg, readings);
            && (c >= 1 ==> g.pic[c] == ScratchColumn(cfg, g.window, c, c + 1 < cfg.w))
            && ExactBelowLine(cfg, g.pic[c], g.window[cfg.w - 1 - c])
  {
    UpdatesAreUsable(cfg, readings);
    RunFaithful(cfg, readings);
    UpdatesOfOkRun(cfg, readings);
    ColumnExactBelowLine(cfg, Run(cfg, readings), c, Updates(cfg, readings));
    if c >= 1 {
      assert ExactColumn(cfg, Run(cfg, readings), c, Updates(cfg, readings));
    }
  }

  /** Every column of every run is exact at and below its line. */
  lemma RunExactBelowLine(cfg: Config, readings: seq<Reading>, c: nat)
    requires cfg.Valid() && AllUsable(cfg, readings)
    requires c < cfg.w
    ensures ExactBelowLine(cfg, Run(cfg, readings).pic[c], Run(cfg, readings).window[cfg.w - 1 - c])
  {
    RunFaithful(cfg, readings);
    ColumnExactBelowLine(cfg, Run(cfg, readings), c, Updates(cfg, readings));
  }

  /** Skipping the rows above the cached minimum loses nothing on columns 1 and up. */
  lemma {:induction false} PartialScrollIsFullScroll(cfg: Config, readings: seq<Reading>, c: nat)
    requires cfg.Valid() && AllUsable(cfg, readings)
    requires 1 <= c < cfg.w
    ensures var g := Run(cfg, readings);
            Scroll(cfg, g.pic, g.yMinPrev)[c] == Scroll(cfg, g.pic, 0)[c]
  {
    var g := Run(cfg, readings);
    var m := Updates(cfg, readings);
    RunFaithful(cfg, readings);
    if c + 1 < cfg.w {
      ScrolledColumn(cfg, g, c, m);
      ScrollExact(cfg, g.pic, 0, c);
    }
  }

  /** Rendering any sample over a reachable column leaves no stale pixel: the scan that stops
      at the first black pixel is enough. */
  lemma {:induction false} StaleScanClearsAll(cfg: Config, readings: seq<Reading>, c: nat, values: Values)
    requires cfg.Valid() && AllUsable(cfg, readings)
    requires 1 <= c < cfg.w
    ensures RenderOver(cfg, Run(cfg, readings).pic[c], values) == Painted(cfg, values, cfg.h)
  {
    var g := Run(cfg, readings);
    RunFaithful(cfg, readings);
    var t := ColumnIsSuffix(cfg, g, c, Updates(cfg, readings));
    assert DrawLine(cfg, g.pic[c], cfg.h, Line(cfg, values)) == g.pic[c];
    RenderClears(cfg, g.pic[c], t, cfg.h, values);
  }

  /** Each column from 1 up is black above one row and not black from it to the bottom; that
      row is never above the cached minimum, nor below the column's own line. */
  lemma BlackThenNonBlack(cfg: Config, readings: seq<Reading>, c: nat) returns (t: nat)
    requires cfg.Valid() && AllUsable(cfg, readings)
    requires 1 <= c < cfg.w
    ensures var g := Run(cfg, readings);
            g.yMinPrev <= t <= LineOf(cfg, g.window, c) && Suffix(g.pic[c], t)
  {
    RunFaithful(cfg, readings);
    t := FaithfulSuffix(cfg, Run(cfg, readings), c, Updates(cfg, readings));
  }

  lemma FaithfulSuffix(cfg: Config, g: Graph, c: nat, m: nat) returns (t: nat)
    requires cfg.Valid() && Faithful(cfg, g, m) && 1 <= c < cfg.w
    ensures g.yMinPrev <= t <= LineOf(cfg, g.window, c) && Suffix(g.pic[c], t)
  {
    t := ColumnIsSuffix(cfg, g, c, m);
  }

  /** The cached minimum is always what a full rescan would find; so is the cached sample
      whenever anything is drawn. */
  lemma {:induction false} CacheIsRescan(cfg: Config, readings: seq<Reading>)
    requires cfg.Valid() && AllUsable(cfg, readings)
    ensures var g := Run(cfg, readings);
            var full := Rescan(cfg, g.window, cfg.w);
            && g.yMin == full.0
            && (g.yMin < cfg.h ==> g.peakAge == full.1)
            && PeakCached(cfg, g.window, g.yMin, g.peakAge)
  {
    var g := Run(cfg, readings);
    RunFaithful(cfg, readings);
    RescanCaches(cfg, g.window, cfg.w);
    assert g.window[..cfg.w] == g.window;
    CacheIsUnique(cfg, g.window, g.yMin, g.peakAge, Rescan(cfg, g.window, cfg.w).0, Rescan(cfg, g.window, cfg.w).1);
  }

  // ---------- The sliding window ----------

  /** The values to be shown, newest first: a successful read adds one, a regenerating read
      replaces them all. */
  function Delivered(readings: seq<Reading>): seq<Values> {
    if readings == [] then []
    else Deliver(Delivered(readings[..|readings| - 1]), readings[|readings| - 1])
  }

  function Deliver(delivered: seq<Values>, r: Reading): seq<Values> {
    match r
    case ReadError => delivered
    case ReadOk(values) => [values] + delivered
    case ReadRegenerate(values, history) => [values] + history
    case Redraw => delivered
  }

  ghost predicate ShowsLast(cfg: Config, window: seq<Values>, delivered: seq<Values>) {
    && |window| == cfg.w
    && forall i :: 0 <= i < cfg.w ==> window[i] == if i < |delivered| then delivered[i] else []
  }

  lemma StepShowsLast(cfg: Config, g: Graph, r: Reading, delivered: seq<Values>)
    requires cfg.Valid() && cfg.w >= 2 && Shaped(cfg, g) && Fits(cfg, r)
    requires ShowsLast(cfg, g.window, delivered)
    ensures ShowsLast(cfg, Step(cfg, g, r).window, Deliver(delivered, r))
  {
  }

  /** In every run the window holds the last readings, newest first, and blanks where there
      were none. */
  lemma {:induction false} WindowIsLastReadings(cfg: Config, readings: seq<Reading>)
    requires cfg.Valid() && cfg.w >= 2 && AllFit(cfg, readings)
    ensures ShowsLast(cfg, Run(cfg, readings).window, Delivered(readings))
  {
    if readings != [] {
      var before, r := readings[..|readings| - 1], readings[|readings| - 1];
      WindowIsLastReadings(cfg, before);
      StepShowsLast(cfg, Run(cfg, before), r, Delivered(before));
    }
  }
}
