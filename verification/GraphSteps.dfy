/** One tick of the graph on values: what each drawing pass of `apps/wlm_graph_shared.c`
    does to the picture, the sample window and the cached peak.

    The class in `GraphEngine` performs the same passes in place; its methods promise these
    functions.  That they draw the right picture is proved in `GraphPicture`.  */
module GraphSteps {
  import opened GraphTypes
  import opened Options

  /** Abstract graph state.  `window` lists the samples newest first; `peakAge` is how many
      steps back the cached peak sample lies. */
  datatype Graph = Graph(window: seq<Values>, pic: Picture, yMin: nat, yMinPrev: nat, peakAge: Option<nat>)

  /** What the statistics callback delivered.  A regenerating read also replaces the values of
      all older samples, newest first.  Between reads, a new icon size that leaves the graph
      its size has the same samples drawn again. */
  datatype Reading =
    | ReadError
    | ReadOk(values: Values)
    | ReadRegenerate(values: Values, history: seq<Values>)
    | Redraw

  predicate IsPicture(cfg: Config, pic: Picture) {
    |pic| == cfg.w && forall c :: 0 <= c < cfg.w ==> |pic[c]| == cfg.h
  }

  predicate Shaped(cfg: Config, g: Graph) {
    && |g.window| == cfg.w
    && IsPicture(cfg, g.pic)
    && g.yMin <= cfg.h
    && g.yMinPrev <= cfg.h
    && (g.peakAge.Some? ==> g.peakAge.value < cfg.w)
  }

  predicate Fits(cfg: Config, r: Reading) {
    r.ReadRegenerate? ==> |r.history| == cfg.w - 1
  }

  predicate AllFit(cfg: Config, readings: seq<Reading>) {
    forall i :: 0 <= i < |readings| ==> Fits(cfg, readings[i])
  }

  // ---------- Drawing passes ----------

  /** Where the upward scan for stale pixels from row `y` stops: just below the first black. */
  ghost function StaleTop(col: Column, y: nat): (top: nat)
    requires y <= |col|
    ensures top <= y
  {
    if y == 0 || col[y - 1] == BLACK then y else StaleTop(col, y - 1)
  }

  /** Rendering a sample over whatever the column showed before. */
  ghost function RenderOver(cfg: Config, col: Column, values: Values): (r: Column)
    requires cfg.Valid() && |col| == cfg.h
    ensures |r| == cfg.h
  {
    var top := StaleTop(col, Line(cfg, values));
    seq(cfg.h, y requires 0 <= y < cfg.h =>
      if y >= Line(cfg, values) then LineAndBar(cfg, values, y)
      else if y >= top then BLACK
      else col[y])
  }

  ghost function DrawLine(cfg: Config, col: Column, from: nat, to: nat): (r: Column)
    requires cfg.Valid() && |col| == cfg.h
    ensures |r| == cfg.h
  {
    seq(cfg.h, y requires 0 <= y < cfg.h => if from <= y < to then cfg.line else col[y])
  }

  /** Connector between adjacent columns, drawn on the one with the lower usage, starting
      below the other's line pixel.  (The other's usage is then never zero, so the special
      case the code has for a missing line pixel does not arise.) */
  ghost function Connect(cfg: Config, pic: Picture, usageCurr: Byte, usagePrev: Byte, curr: nat, prev: nat)
      : (r: Picture)
    requires cfg.Valid() && IsPicture(cfg, pic) && curr < cfg.w && prev < cfg.w
    ensures IsPicture(cfg, r)
  {
    var yCurr, yPrev := YLine(usageCurr, cfg.h), YLine(usagePrev, cfg.h);
    if usageCurr == usagePrev then pic
    else if usageCurr < usagePrev then
      pic[curr := DrawLine(cfg, pic[curr], yPrev + 1, yCurr)]
    else
      pic[prev := DrawLine(cfg, pic[prev], yCurr + 1, yPrev)]
  }

  /** Shifts the rows from `yStart` down one column to the left; the last column stays. */
  ghost function Scroll(cfg: Config, pic: Picture, yStart: nat): (r: Picture)
    requires IsPicture(cfg, pic)
    ensures IsPicture(cfg, r)
  {
    seq(cfg.w, c requires 0 <= c < cfg.w =>
      seq(cfg.h, y requires 0 <= y < cfg.h =>
        if y >= yStart && c + 1 < cfg.w then pic[c + 1][y] else pic[c][y]))
  }

  // ---------- Peak cache ----------

  /** Scan of the `n` newest samples, newest first, keeping the first strict minimum. */
  ghost function Rescan(cfg: Config, window: seq<Values>, n: nat): (r: (nat, Option<nat>))
    requires cfg.Valid() && n <= |window|
    ensures r.0 <= cfg.h
    ensures r.1.Some? ==> r.1.value < n
  {
    if n == 0 then (cfg.h, None)
    else
      var (yMin, age) := Rescan(cfg, window, n - 1);
      var usage := Peak(cfg.mode, window[n - 1]);
      if 0 < usage && UsageToY(usage, cfg.h) < yMin then (UsageToY(usage, cfg.h), Some(n - 1))
      else (yMin, age)
  }

  // ---------- Ticks ----------

  /** The picture scrolled, with the new sample rendered in the last column. */
  ghost function Scrolled(cfg: Config, pic: Picture, yStart: nat, values: Values): (r: Picture)
    requires cfg.Valid() && IsPicture(cfg, pic)
    ensures IsPicture(cfg, r)
  {
    var scrolled := Scroll(cfg, pic, yStart);
    scrolled[cfg.w - 1 := RenderOver(cfg, scrolled[cfg.w - 1], values)]
  }

  /** The picture after scrolling in a new sample. */
  ghost function UpdatePicture(cfg: Config, g: Graph, values: Values): (r: Picture)
    requires cfg.Valid() && cfg.w >= 2 && Shaped(cfg, g)
    ensures IsPicture(cfg, r)
  {
    Connect(cfg, Scrolled(cfg, g.pic, g.yMinPrev, values),
            Peak(cfg.mode, values), Peak(cfg.mode, g.window[0]), cfg.w - 1, cfg.w - 2)
  }

  /** The peak cache after overwriting the oldest sample with `values`. */
  ghost function UpdatePeak(cfg: Config, window: seq<Values>, yMin: nat, age: Option<nat>, values: Values)
      : (r: (nat, Option<nat>))
    requires cfg.Valid() && |window| == cfg.w && yMin <= cfg.h && (age.Some? ==> age.value < cfg.w)
    ensures r.0 <= cfg.h
    ensures r.1.Some? ==> r.1.value < cfg.w
  {
    if age == Some(cfg.w - 1) then Rescan(cfg, Push(cfg, window, values), cfg.w)
    else if Line(cfg, values) <= yMin then (Line(cfg, values), Some(0))
    else (yMin, if age.Some? then Some(age.value + 1) else None)
  }

  /** The window after dropping the oldest sample in favour of `values`. */
  function Push(cfg: Config, window: seq<Values>, values: Values): (r: seq<Values>)
    requires cfg.w > 0 && |window| == cfg.w
    ensures |r| == cfg.w
  {
    [values] + window[..cfg.w - 1]
  }

  ghost function Update(cfg: Config, g: Graph, values: Values): (r: Graph)
    requires cfg.Valid() && cfg.w >= 2 && Shaped(cfg, g)
    ensures Shaped(cfg, r)
  {
    var (yMin, age) := UpdatePeak(cfg, g.window, g.yMin, g.peakAge, values);
    Graph(Push(cfg, g.window, values), UpdatePicture(cfg, g, values), yMin, yMin, age)
  }

  /** One turn of the rebuild loop: renders column `c`, then draws the connector to column
      `c - 1`, which is yet to be rendered. */
  ghost function RebuildColumn(cfg: Config, pic: Picture, window: seq<Values>, c: nat): (r: Picture)
    requires cfg.Valid() && IsPicture(cfg, pic) && |window| == cfg.w && c < cfg.w
    ensures IsPicture(cfg, r)
  {
    var values := window[cfg.w - 1 - c];
    var rendered := pic[c := RenderOver(cfg, pic[c], values)];
    if c == 0 then rendered
    else Connect(cfg, rendered, Peak(cfg.mode, values), Peak(cfg.mode, window[cfg.w - c]), c, c - 1)
  }

  /** Rebuilds columns `c`, `c - 1`, ... 0. */
  ghost function RebuildFrom(cfg: Config, pic: Picture, window: seq<Values>, c: nat): (r: Picture)
    requires cfg.Valid() && IsPicture(cfg, pic) && |window| == cfg.w && c < cfg.w
    ensures IsPicture(cfg, r)
    decreases c
  {
    var next := RebuildColumn(cfg, pic, window, c);
    if c == 0 then next else RebuildFrom(cfg, next, window, c - 1)
  }

  function Blank(cfg: Config): (r: Picture)
    ensures IsPicture(cfg, r)
  {
    seq(cfg.w, _ => seq(cfg.h, _ => BLACK))
  }

  ghost function Rebuild(cfg: Config, g: Graph): (r: Graph)
    requires cfg.Valid() && Shaped(cfg, g)
    ensures Shaped(cfg, r)
  {
    if g.window[0] == [] then Graph(g.window, Blank(cfg), cfg.h, cfg.h, None)
    else
      var (yMin, age) := Rescan(cfg, g.window, cfg.w);
      Graph(g.window, RebuildFrom(cfg, g.pic, g.window, cfg.w - 1), yMin, yMin, age)
  }

  /** One event: a timer tick or a redraw. */
  ghost function Step(cfg: Config, g: Graph, r: Reading): (g': Graph)
    requires cfg.Valid() && Shaped(cfg, g) && Fits(cfg, r)
    ensures Shaped(cfg, g')
  {
    match r
    case ReadError => g
    case ReadOk(values) => if cfg.w < 2 then g else Update(cfg, g, values)
    case ReadRegenerate(values, history) => if cfg.w < 2 then g else Rebuild(cfg, g.(window := [values] + history))
    case Redraw => Rebuild(cfg, g)
  }

  function Start(cfg: Config): (g: Graph)
    ensures Shaped(cfg, g)
  {
    Graph(seq(cfg.w, _ => []), Blank(cfg), cfg.h, cfg.h, None)
  }

  /** State after a whole run of readings. */
  ghost function Run(cfg: Config, readings: seq<Reading>): (g: Graph)
    requires cfg.Valid() && AllFit(cfg, readings)
    ensures Shaped(cfg, g)
  {
    if readings == [] then Start(cfg)
    else Step(cfg, Run(cfg, readings[..|readings| - 1]), readings[|readings| - 1])
  }
}
