/** Vocabulary of the scrolling graph and the picture each sample should give.

    Everything here is written from what the graph is meant to show, not from how the
    drawing loops produce it: a bar for the sample, a line pixel on top of the bar, and
    line-coloured connectors to higher neighbours.  */
module GraphTypes {

  type Byte = b: int | 0 <= b < 256
  type Values = seq<Byte>
  type Pixel = p: int | 0 <= p < 0x1_0000_0000
  type Column = seq<Pixel>   // top row first
  type Picture = seq<Column> // leftmost (oldest) column first

  const BLACK: Pixel := 0xff000000

  datatype Mode = Independent | Stacked

  /** Fixed parameters of one graph: size, accumulation mode and colours. */
  datatype Config = Config(w: nat, h: nat, mode: Mode, lut: seq<Pixel>, line: Pixel) {
    predicate Valid() {
      && w > 0
      && h > 0
      && |lut| == 256
      && (forall i :: 0 <= i < 256 ==> lut[i] != BLACK)
      && line != BLACK
    }
  }

  function Min(a: int, b: int): int { if a < b then a else b }

  // ---------- Usage to row ----------

  lemma MulMonotone(a: nat, b: nat, k: nat)
    requires a <= b
    ensures 0 <= a * k <= b * k
  {
    assert b * k == a * k + (b - a) * k;
  }

  lemma ScaleBound(u: Byte, k: nat)
    ensures 0 <= u * k / 255 <= k
  {
    MulMonotone(u, 255, k);
  }

  /** Row of the top of a bar: usage 255 reaches row 0, small usage the bottom row. */
  function UsageToY(u: Byte, h: nat): (y: nat)
    requires h > 0
    ensures y < h
  {
    ScaleBound(u, h - 1);
    (h - 1) - (u * (h - 1)) / 255
  }

  /** Row of the peak line; `h` (just below the picture) when there is no bar. */
  function YLine(u: Byte, h: nat): (y: nat)
    requires h > 0
    ensures y <= h
    ensures y == h <==> u == 0
  {
    if u == 0 then h else UsageToY(u, h)
  }

  lemma {:induction false} YMonotone(u: Byte, v: Byte, h: nat)
    requires h > 0 && u <= v
    ensures UsageToY(v, h) <= UsageToY(u, h)
    ensures YLine(v, h) <= YLine(u, h)
  {
    MulMonotone(u, v, h - 1);
    assert u * (h - 1) / 255 <= v * (h - 1) / 255;
  }

  /** The bar of usage `u` is as many rows high, above the bottom one, as `u` is 255ths of the
      other rows, rounded down. */
  lemma {:induction false} UsageScales(u: Byte, h: nat)
    requires h > 0
    ensures var up := h - 1 - UsageToY(u, h);
            255 * up <= u * (h - 1) < 255 * (up + 1)
    ensures UsageToY(255, h) == 0
  {
    ScaleBound(u, h - 1);
  }

  /** It reaches exactly the rows its usage is enough for. */
  lemma {:induction false} ReachesRowIff(u: Byte, h: nat, y: nat)
    requires y < h
    ensures UsageToY(u, h) <= y <==> 255 * (h - 1 - y) <= u * (h - 1)
  {
    UsageScales(u, h);
  }

  // ---------- What a sample's bar looks like ----------

  function Sum(values: Values): nat {
    if values == [] then 0 else Sum(values[..|values| - 1]) + values[|values| - 1]
  }

  function Max(values: Values): Byte {
    if values == [] then 0
    else
      var m := Max(values[..|values| - 1]);
      if values[|values| - 1] > m then values[|values| - 1] else m
  }

  /** Highest level any part of the sample's bar reaches. */
  function Peak(mode: Mode, values: Values): Byte {
    match mode
    case Independent => Max(values)
    case Stacked => Min(Sum(values), 255)
  }

  /** Level of the bar belonging to value `i`: its own in independent mode, the sum so far
      in stacked mode. */
  function Level(mode: Mode, values: Values, i: nat): Byte
    requires i < |values|
  {
    match mode
    case Independent => values[i]
    case Stacked => Min(Sum(values[..i + 1]), 255)
  }

  /** Value `i` is non-zero and its bar reaches row `y`. */
  predicate Covers(cfg: Config, values: Values, i: nat, y: nat)
    requires cfg.h > 0 && i < |values|
  {
    values[i] > 0 && UsageToY(Level(cfg.mode, values, i), cfg.h) <= y
  }

  /** The non-zero values among the first `n` whose bar covers row `y`. */
  ghost function Reaching(cfg: Config, values: Values, n: nat, y: nat): set<nat>
    requires cfg.h > 0 && n <= |values|
  {
    set i: nat | i < n && Covers(cfg, values, i, y)
  }

  ghost function RowCount(cfg: Config, values: Values, y: nat): nat
    requires cfg.h > 0
  {
    |Reaching(cfg, values, |values|, y)|
  }

  /** Index into the colour table for a row covered by `count` of `num` values. */
  function LutIndex(count: nat, num: nat): nat
    requires 0 < count <= num
  {
    if num <= 1 then 255 else (count - 1) * 255 / (num - 1)
  }

  /** The covering counts 1 to `num` are spread evenly over the table, rounded down; all
      values together give the last entry. */
  lemma {:induction false} LutIndexSpreads(count: nat, num: nat)
    requires 0 < count <= num
    ensures num > 1 ==> LutIndex(count, num) * (num - 1) <= (count - 1) * 255 < (LutIndex(count, num) + 1) * (num - 1)
    ensures count == num ==> LutIndex(count, num) == 255
  {
    if num > 1 {
      QuotientBounds((count - 1) * 255, num - 1);
      if count == num {
        QuotientIs(LutIndex(count, num), 255, num - 1);
      }
    }
  }

  lemma QuotientBounds(a: nat, b: nat)
    requires b > 0
    ensures a / b * b <= a < (a / b + 1) * b
  {
  }

  /** A quotient lies where its product bounds say. */
  lemma {:induction false} QuotientIs(q: nat, k: nat, b: nat)
    requires b > 0 && q * b <= k * b < (q + 1) * b
    ensures q == k
  {
    if q < k {
      MulMonotone(q + 1, k, b);
    } else if k < q {
      MulMonotone(k + 1, q, b);
    }
  }

  lemma QuotientBelow(a: nat, k: nat, b: nat)
    requires b > 0 && a < k * b
    ensures a / b < k
  {
    assert a / b * b <= a;
    if a / b >= k {
      MulMonotone(k, a / b, b);
    }
  }

  /** A covered row never indexes outside the 256-entry colour table. */
  lemma {:induction false} LutIndexInRange(count: nat, num: nat)
    requires 0 < count <= num
    ensures LutIndex(count, num) < 256
  {
    if num > 1 {
      var a, b := (count - 1) * 255, num - 1;
      assert a < 256 * b;
      QuotientBelow(a, 256, b);
    }
  }

  lemma ReachingBounded(cfg: Config, values: Values, n: nat, y: nat)
    requires cfg.h > 0 && n <= |values|
    ensures |Reaching(cfg, values, n, y)| <= n
  {
    if n == 0 {
      assert Reaching(cfg, values, n, y) == {};
    } else {
      ReachingBounded(cfg, values, n - 1, y);
      ReachingStep(cfg, values, n - 1, y);
    }
  }

  lemma ReachingStep(cfg: Config, values: Values, n: nat, y: nat)
    requires cfg.h > 0 && n < |values|
    ensures |Reaching(cfg, values, n + 1, y)| == |Reaching(cfg, values, n, y)| +
                                                 (if Covers(cfg, values, n, y) then 1 else 0)
  {
    var before, after := Reaching(cfg, values, n, y), Reaching(cfg, values, n + 1, y);
    if Covers(cfg, values, n, y) {
      assert after == before + {n};
    } else {
      assert after == before;
    }
  }

  /** Colour of row `y` of a sample's bar, before the peak line is drawn over it. */
  ghost function BarPixel(cfg: Config, values: Values, y: nat): Pixel
    requires cfg.Valid()
  {
    var count := RowCount(cfg, values, y);
    if count == 0 then BLACK
    else
      ReachingBounded(cfg, values, |values|, y);
      LutIndexInRange(count, |values|);
      cfg.lut[LutIndex(count, |values|)]
  }

  /** Row of a sample's peak line. */
  ghost function Line(cfg: Config, values: Values): (y: nat)
    requires cfg.h > 0
    ensures y <= cfg.h
  {
    YLine(Peak(cfg.mode, values), cfg.h)
  }

  /** A column showing one sample, with connector pixels from row `top` down to its peak line. */
  ghost function Painted(cfg: Config, values: Values, top: nat): (col: Column)
    requires cfg.Valid()
    ensures |col| == cfg.h
  {
    seq(cfg.h, y requires 0 <= y < cfg.h =>
      if y >= Line(cfg, values) then LineAndBar(cfg, values, y)
      else if y >= top then cfg.line
      else BLACK)
  }

  /** Colour at or below the peak line. */
  ghost function LineAndBar(cfg: Config, values: Values, y: nat): Pixel
    requires cfg.Valid()
  {
    if y == Line(cfg, values) then cfg.line else BarPixel(cfg, values, y)
  }

  // ---------- The bar really is the sample ----------

  lemma {:induction false} SumConcat(a: seq<Byte>, b: seq<Byte>)
    ensures Sum(a + b) == Sum(a) + Sum(b)
    ensures |b| == 1 ==> Sum(b) == b[0]
  {
    if b == [] {
      assert a + b == a;
    } else {
      SumConcat(a, b[..|b| - 1]);
      assert (a + b)[..|a + b| - 1] == a + b[..|b| - 1];
    }
  }

  lemma {:induction false} SumPrefix(values: Values, i: nat)
    requires i <= |values|
    ensures Sum(values[..i]) <= Sum(values)
    decreases |values|
  {
    if i == |values| {
      assert values[..i] == values;
    } else {
      var init := values[..|values| - 1];
      SumPrefix(init, i);
      assert init[..i] == values[..i];
    }
  }

  lemma {:induction false} MaxBounds(values: Values, i: nat)
    requires i < |values|
    ensures values[i] <= Max(values)
  {
    if i < |values| - 1 {
      MaxBounds(values[..|values| - 1], i);
    }
  }

  lemma LevelAtMostPeak(mode: Mode, values: Values, i: nat)
    requires i < |values|
    ensures Level(mode, values, i) <= Peak(mode, values)
  {
    match mode
    case Independent => MaxBounds(values, i);
    case Stacked => SumPrefix(values, i + 1);
  }

  /** Some non-zero value's bar reaches the peak itself. */
  lemma {:induction false} PeakAttained(mode: Mode, values: Values) returns (i: nat)
    requires Peak(mode, values) > 0
    ensures i < |values| && values[i] > 0 && Level(mode, values, i) == Peak(mode, values)
  {
    var last := |values| - 1;
    var init := values[..last];
    if mode.Independent? && values[last] > Max(init) {
      i := last;
    } else if mode.Stacked? && values[last] > 0 {
      i := last;
      assert values[..last + 1] == values;
    } else {
      i := PeakAttained(mode, init);
      assert init[..i + 1] == values[..i + 1];
    }
  }

  /** The row computed from the peak is exactly the topmost row any value covers. */
  lemma TopmostRow(cfg: Config, values: Values, y: nat)
    requires cfg.Valid() && y < cfg.h
    ensures RowCount(cfg, values, y) > 0 <==> Line(cfg, values) <= y
  {
    var peak := Peak(cfg.mode, values);
    var reach := Reaching(cfg, values, |values|, y);
    if reach != {} {
      var i :| i in reach;
      LevelAtMostPeak(cfg.mode, values, i);
      YMonotone(Level(cfg.mode, values, i), peak, cfg.h);
      assert Level(cfg.mode, values, i) > 0 by {
        if cfg.mode.Stacked? {
          assert values[..i + 1][..i] == values[..i];
        }
      }
    }
    if Line(cfg, values) <= y {
      var i := PeakAttained(cfg.mode, values);
      assert i in reach;
    }
  }

  /** At and below the peak line a column is never black; so a painted column is black above
      a single row and non-black from there to the bottom. */
  lemma PaintedIsSuffix(cfg: Config, values: Values, top: nat, y: nat)
    requires cfg.Valid() && y < cfg.h
    ensures Painted(cfg, values, top)[y] == BLACK <==> y < Min(top, Line(cfg, values))
  {
    TopmostRow(cfg, values, y);
    if y >= Line(cfg, values) {
      ReachingBounded(cfg, values, |values|, y);
      LutIndexInRange(RowCount(cfg, values, y), |values|);
    }
  }

  // ---------- The from-scratch picture ----------

  /** Peak line of the sample shown in column `c`; `window` lists samples newest first. */
  ghost function LineOf(cfg: Config, window: seq<Values>, c: nat): (y: nat)
    requires cfg.h > 0 && c < |window|
    ensures y <= cfg.h
  {
    Line(cfg, window[|window| - 1 - c])
  }

  /** First connector row of column `c`: just below the higher of its neighbours' peak
      lines, when that is above the column's own line. */
  ghost function ConnectorTop(cfg: Config, window: seq<Values>, c: nat, right: bool): (top: nat)
    requires cfg.h > 0 && 1 <= c < |window| && (right ==> c + 1 < |window|)
  {
    var fromLeft := Min(LineOf(cfg, window, c), LineOf(cfg, window, c - 1) + 1);
    if right then Min(fromLeft, LineOf(cfg, window, c + 1) + 1) else fromLeft
  }

  /** The picture of column `c` drawn from scratch: the sample's bar with connectors to the
      left neighbour and, when `right`, also to the right neighbour. */
  ghost function ScratchColumn(cfg: Config, window: seq<Values>, c: nat, right: bool): (col: Column)
    requires cfg.Valid() && 1 <= c < |window| && (right ==> c + 1 < |window|)
    ensures |col| == cfg.h
  {
    Painted(cfg, window[|window| - 1 - c], ConnectorTop(cfg, window, c, right))
  }
}
