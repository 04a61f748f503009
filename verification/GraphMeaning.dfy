/** What each pixel of the picture says about the values delivered, by counting rows and
    comparing products, without reference to how lines and bars are computed.  */
module GraphMeaning {
  import opened GraphPicture
  import opened GraphSteps
  import opened GraphTypes
  import opened GraphLeftmost
  import opened Options

  // ---------- One sample ----------

  /** Usage up to the top of value `i`'s part of the bar: its own, or, when values are stacked,
      that of all values up to it. */
  function Usage(mode: Mode, values: Values, i: nat): nat
    requires i < |values|
  {
    match mode
    case Independent => values[i]
    case Stacked => Sum(values[..i + 1])
  }

  /** That usage is enough for row `y` of `h` rows, of which 255 fills all. */
  ghost predicate Reaches(cfg: Config, values: Values, i: nat, y: nat)
    requires i < |values|
  {
    values[i] > 0 && 255 * (cfg.h - 1 - y) <= Usage(cfg.mode, values, i) * (cfg.h - 1)
  }

  /** Some value reaches the row. */
  ghost predicate Lit(cfg: Config, values: Values, y: nat) {
    exists i :: 0 <= i < |values| && Reaches(cfg, values, i, y)
  }

  ghost function Reached(cfg: Config, values: Values, y: nat): set<nat> {
    set i: nat | i < |values| && Reaches(cfg, values, i, y)
  }

  /** Entry of the colour table for `count` of `num` values. */
  ghost predicate IsShade(index: nat, count: nat, num: nat) {
    && index < 256
    && if num <= 1 then index == 255 else index * (num - 1) <= (count - 1) * 255 < (index + 1) * (num - 1)
  }

  /** On a row of the bar: the line on its topmost one, below it the shade for the number of
      values that reach the row. */
  ghost predicate BarShows(cfg: Config, own: Values, y: nat, pixel: Pixel)
    requires cfg.Valid()
  {
    if y == 0 || !Lit(cfg, own, y - 1) then pixel == cfg.line
    else exists index: nat :: IsShade(index, |Reached(cfg, own, y)|, |own|) && pixel == cfg.lut[index]
  }

  /** A whole column: above the bar, connectors below the top row of a joined neighbour. */
  ghost predicate Shows(cfg: Config, own: Values, joined: set<Values>, y: nat, pixel: Pixel)
    requires cfg.Valid()
  {
    if Lit(cfg, own, y) then BarShows(cfg, own, y, pixel)
    else pixel == if y > 0 && exists n :: n in joined && Lit(cfg, n, y - 1) then cfg.line else BLACK
  }

  // ---------- Agreement with the drawing ----------

  lemma {:induction false} CoversIff(cfg: Config, values: Values, i: nat, y: nat)
    requires y < cfg.h && i < |values|
    ensures Covers(cfg, values, i, y) <==> Reaches(cfg, values, i, y)
  {
    ReachesRowIff(Level(cfg.mode, values, i), cfg.h, y);
    if cfg.mode.Stacked? && Sum(values[..i + 1]) > 255 {
      MulMonotone(255, Sum(values[..i + 1]), cfg.h - 1);
      MulMonotone(cfg.h - 1 - y, cfg.h - 1, 255);
    }
  }

  lemma {:induction false} ReachedIs(cfg: Config, values: Values, y: nat)
    requires y < cfg.h
    ensures Reached(cfg, values, y) == Reaching(cfg, values, |values|, y)
  {
    forall i: nat | i < |values|
      ensures Covers(cfg, values, i, y) <==> Reaches(cfg, values, i, y)
    {
      CoversIff(cfg, values, i, y);
    }
  }

  /** The line is the topmost lit row. */
  lemma {:induction false} LitIff(cfg: Config, values: Values, y: nat)
    requires cfg.Valid() && y < cfg.h
    ensures Lit(cfg, values, y) <==> Line(cfg, values) <= y
  {
    TopmostRow(cfg, values, y);
    ReachedIs(cfg, values, y);
    if Lit(cfg, values, y) {
      var i :| 0 <= i < |values| && Reaches(cfg, values, i, y);
      assert i in Reached(cfg, values, y);
    } else {
      assert Reached(cfg, values, y) == {};
    }
  }

  lemma {:induction false} BarIs(cfg: Config, values: Values, y: nat)
    requires cfg.Valid() && Line(cfg, values) <= y < cfg.h
    ensures BarShows(cfg, values, y, LineAndBar(cfg, values, y))
  {
    if y > 0 {
      LitIff(cfg, values, y - 1);
    }
    if y > Line(cfg, values) {
      ShadeIs(cfg, values, y);
    }
  }

  lemma {:induction false} ShadeIs(cfg: Config, values: Values, y: nat)
    requires cfg.Valid() && Line(cfg, values) <= y < cfg.h
    ensures exists index: nat ::
              IsShade(index, |Reached(cfg, values, y)|, |values|) && BarPixel(cfg, values, y) == cfg.lut[index]
  {
    var count := RowCount(cfg, values, y);
    ReachedIs(cfg, values, y);
    TopmostRow(cfg, values, y);
    ReachingBounded(cfg, values, |values|, y);
    LutIndexInRange(count, |values|);
    LutIndexSpreads(count, |values|);
    assert IsShade(LutIndex(count, |values|), count, |values|);
  }

  lemma {:induction false} BelowLineIff(cfg: Config, values: Values, y: nat)
    requires cfg.Valid() && y < cfg.h
    ensures (y > 0 && Lit(cfg, values, y - 1)) <==> Line(cfg, values) < y
  {
    if y > 0 {
      LitIff(cfg, values, y - 1);
    }
  }

  /** Samples whose connectors column `c` shows. */
  ghost function Joined(cfg: Config, window: seq<Values>, c: nat, right: bool): set<Values>
    requires |window| == cfg.w && 1 <= c < cfg.w && (right ==> c + 1 < cfg.w)
  {
    {window[cfg.w - c]} + if right then {window[cfg.w - 2 - c]} else {}
  }

  lemma {:induction false} ScratchShows(cfg: Config, window: seq<Values>, c: nat, right: bool, y: nat)
    requires cfg.Valid() && |window| == cfg.w && 1 <= c < cfg.w && (right ==> c + 1 < cfg.w) && y < cfg.h
    ensures Shows(cfg, window[cfg.w - 1 - c], Joined(cfg, window, c, right), y, ScratchColumn(cfg, window, c, right)[y])
  {
    var own := window[cfg.w - 1 - c];
    LitIff(cfg, own, y);
    if y >= Line(cfg, own) {
      BarIs(cfg, own, y);
    } else {
      BelowLineIff(cfg, window[cfg.w - c], y);
      if right {
        BelowLineIff(cfg, window[cfg.w - 2 - c], y);
      }
    }
  }

  // ---------- Every run ----------

  /** Every usable run, updates and rebuilds mixed: each pixel from column 1 up shows the sample
      delivered so many readings ago, joined to the one before, and to the one after if an
      update has joined them since the last rebuild. */
  lemma {:induction false} PictureShows(cfg: Config, readings: seq<Reading>, c: nat, y: nat)
    requires cfg.Valid() && AllUsable(cfg, readings) && 1 <= c < cfg.w && y < cfg.h
    ensures var d, right := Delivered(readings), HasRight(cfg, c, Updates(cfg, readings));
            Shows(cfg, At(d, cfg.w - 1 - c), {At(d, cfg.w - c)} + if right then {At(d, cfg.w - 2 - c)} else {}, y,
                  Run(cfg, readings).pic[c][y])
  {
    var g, right := Run(cfg, readings), HasRight(cfg, c, Updates(cfg, readings));
    RunFaithful(cfg, readings);
    WindowIsLastReadings(cfg, readings);
    assert ExactColumn(cfg, g, c, Updates(cfg, readings));
    ScratchShows(cfg, g.window, c, right, y);
    JoinedDelivered(cfg, g.window, Delivered(readings), c, right);
  }

  lemma JoinedDelivered(cfg: Config, window: seq<Values>, d: seq<Values>, c: nat, right: bool)
    requires ShowsLast(cfg, window, d) && 1 <= c < cfg.w && (right ==> c + 1 < cfg.w)
    ensures window[cfg.w - 1 - c] == At(d, cfg.w - 1 - c)
    ensures Joined(cfg, window, c, right) == {At(d, cfg.w - c)} + if right then {At(d, cfg.w - 2 - c)} else {}
  {
  }

  /** In column 0 the rows of the bar show it likewise, and the others are black or a connector. */
  lemma {:induction false} LeftmostShows(cfg: Config, readings: seq<Reading>, y: nat)
    requires cfg.Valid() && AllUsable(cfg, readings) && cfg.w >= 2 && y < cfg.h
    ensures var own, pixel := At(Delivered(readings), cfg.w - 1), Run(cfg, readings).pic[0][y];
            if Lit(cfg, own, y) then BarShows(cfg, own, y, pixel) else pixel == BLACK || pixel == cfg.line
  {
    RunFaithful(cfg, readings);
    WindowIsLastReadings(cfg, readings);
    OldestIs(cfg, Run(cfg, readings).window, Delivered(readings));
    ExactShows(cfg, Run(cfg, readings).pic[0], At(Delivered(readings), cfg.w - 1), y);
  }

  lemma OldestIs(cfg: Config, window: seq<Values>, d: seq<Values>)
    requires cfg.w > 0 && ShowsLast(cfg, window, d)
    ensures window[cfg.w - 1] == At(d, cfg.w - 1)
  {
  }

  lemma ExactShows(cfg: Config, col: Column, own: Values, y: nat)
    requires cfg.Valid() && |col| == cfg.h && ExactBelowLine(cfg, col, own) && y < cfg.h
    ensures if Lit(cfg, own, y) then BarShows(cfg, own, y, col[y]) else col[y] == BLACK || col[y] == cfg.line
  {
    LitIff(cfg, own, y);
    if y >= Line(cfg, own) {
      BarIs(cfg, own, y);
    }
  }

  /** Without failed reads and rebuilds, what was delivered is just the readings' values. */
  lemma {:induction false} DeliveredAt(readings: seq<Reading>, i: nat)
    requires i < |readings| && forall k :: 0 <= k < |readings| ==> readings[k].ReadOk?
    ensures |Delivered(readings)| == |readings|
    ensures Delivered(readings)[i] == readings[|readings| - 1 - i].values
  {
    var before := readings[..|readings| - 1];
    if before == [] {
      assert Delivered(before) == [];
    } else {
      DeliveredAt(before, if i > 0 then i - 1 else 0);
    }
  }
}
