/** The market snapshot record and its two derived measures
    (internal/models/stock.go). */
module Stock {

  /** One immutable read of an index. Prices are `float64` in Go and `real` here;
      `timestamp` is the capture time in whole Unix seconds. */
  datatype StockData = StockData(
    code: string,
    name: string,
    current: real,
    open: real,
    high: real,
    low: real,
    previous: real,
    change: real,     // change versus the previous close, in percent
    changeAmt: real,  // change versus the previous close, in points
    timestamp: int
  )

  function Abs(x: real): real { if x < 0.0 then -x else x }
  function Max(a: real, b: real): real { if a >= b then a else b }
  function Min(a: real, b: real): real { if a <= b then a else b }

  /** The percentage by which `value` differs from `base`, and 0 when
      `base` is 0: the guarded formula shared by every percentage in the system.
      The result is the rate that, applied to `base`, gives back `value`. */
  function Percent(base: real, value: real): (p: real)
    ensures base == 0.0 ==> p == 0.0
    ensures base != 0.0 ==> base + base * p / 100.0 == value
    ensures base > 0.0 ==> (p > 0.0 <==> value > base) && (p < 0.0 <==> value < base)
  {
    if base == 0.0 then 0.0 else (value - base) / base * 100.0
  }

  /** `StockData.ChangePercent`: the move versus the previous close. */
  function ChangePercent(s: StockData): (p: real)
    ensures s.previous == 0.0 ==> p == 0.0
    ensures s.previous != 0.0 ==> s.previous + s.previous * p / 100.0 == s.current
  {
    Percent(s.previous, s.current)
  }

  /** `StockData.IsSignificantChange`: the move reaches `threshold` in either
      direction. For a non-negative threshold that is a test on the magnitude;
      a non-positive threshold makes every snapshot significant. */
  function IsSignificantChange(s: StockData, threshold: real): (b: bool)
    ensures threshold >= 0.0 ==> (b <==> Abs(ChangePercent(s)) >= threshold)
    ensures threshold <= 0.0 ==> b
  {
    ChangePercent(s) >= threshold || ChangePercent(s) <= -threshold
  }

  /** The two formulas agree: a percentage is uniquely determined by the
      base and the value it relates. */
  lemma PercentUnique(base: real, value: real, p: real)
    requires base != 0.0
    requires base + base * p / 100.0 == value
    ensures p == Percent(base, value)
  {
    var q := Percent(base, value);
    assert base * p == base * q by {
      assert base * p / 100.0 == value - base;
      assert base * q / 100.0 == value - base;
    }
  }
}
