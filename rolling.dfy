/** The rolling statistics both options bots compute with pandas, `rolling(window=WINDOW,
    min_periods=1)`: entry i of every series is taken over the last min(i + 1, WINDOW) prices up to
    and including price i. The mean is computed exactly; the standard deviation is a given function
    of the window (pandas' sample std involves a square root), and the Bollinger bands are the
    moving average plus and minus k standard deviations. */
module Rolling {
  import opened Common

  const WINDOW: nat := 10

  /** The prices the rolling window ending at position i covers. */
  function WindowAt(s: seq<real>, i: nat): (w: seq<real>)
    requires i < |s|
    ensures |w| == if i < WINDOW then i + 1 else WINDOW
    ensures w != [] && Last(w) == s[i]
  {
    var start: nat := if i < WINDOW then 0 else i + 1 - WINDOW;
    assert |s[start..i + 1]| == i + 1 - start;
    s[start..i + 1]
  }

  /** s.rolling(window=WINDOW, min_periods=1).mean() */
  function MovingAverage(s: seq<real>): (ma: seq<real>)
    ensures |ma| == |s|
  {
    seq(|s|, i requires 0 <= i < |s| => Mean(WindowAt(s, i)))
  }

  /** s.rolling(window=WINDOW, min_periods=1).std(), with the std of one window given. */
  function RollingStd(s: seq<real>, stdOf: seq<real> -> real): (sd: seq<real>)
    ensures |sd| == |s|
  {
    seq(|s|, i requires 0 <= i < |s| => stdOf(WindowAt(s, i)))
  }

  /** The four series bb_strategy and trader_update_method store in MARKET[security]. */
  datatype Bands = Bands(ma: seq<real>, std: seq<real>, upper: seq<real>, lower: seq<real>)

  /** Upper = MA + STD * k and Lower = MA - STD * k, entry by entry. */
  function BollingerBands(s: seq<real>, stdOf: seq<real> -> real, k: real): (b: Bands)
    ensures |b.ma| == |b.std| == |b.upper| == |b.lower| == |s|
  {
    var ma := MovingAverage(s);
    var sd := RollingStd(s, stdOf);
    Bands(ma, sd, seq(|s|, i requires 0 <= i < |s| => ma[i] + sd[i] * k),
          seq(|s|, i requires 0 <= i < |s| => ma[i] - sd[i] * k))
  }

  /** Each moving-average entry lies between the smallest and the largest price of its window. */
  lemma MovingAverageWithinWindow(s: seq<real>, i: nat)
    requires i < |s|
    ensures Min(WindowAt(s, i)) <= MovingAverage(s)[i] <= Max(WindowAt(s, i))
  {
    MeanBounds(WindowAt(s, i));
  }

  /** With a non-negative standard deviation and k >= 0 the bands enclose the moving average. */
  lemma BandsEncloseAverage(s: seq<real>, stdOf: seq<real> -> real, k: real, i: nat)
    requires i < |s| && k >= 0.0 && stdOf(WindowAt(s, i)) >= 0.0
    ensures BollingerBands(s, stdOf, k).lower[i] <= MovingAverage(s)[i] <= BollingerBands(s, stdOf, k).upper[i]
  {
    var sd := stdOf(WindowAt(s, i));
    MulMonotone(sd, 0.0, k);
  }

  /** Widening the multiplier (1.25 to 2.0, say) never narrows the bands, for the same prices. */
  lemma WiderMultiplierWidensBands(s: seq<real>, stdOf: seq<real> -> real, k1: real, k2: real, i: nat)
    requires i < |s| && k1 <= k2 && stdOf(WindowAt(s, i)) >= 0.0
    ensures BollingerBands(s, stdOf, k2).upper[i] >= BollingerBands(s, stdOf, k1).upper[i]
    ensures BollingerBands(s, stdOf, k2).lower[i] <= BollingerBands(s, stdOf, k1).lower[i]
  {
    MulMonotone(stdOf(WindowAt(s, i)), k1, k2);
  }

  /** A later price never changes the earlier entries of the series: each entry depends only on the
      prices up to its own position. */
  lemma {:induction false} BandsArePrefixStable(s: seq<real>, x: real, stdOf: seq<real> -> real, k: real)
    ensures BollingerBands(s + [x], stdOf, k).ma[..|s|] == BollingerBands(s, stdOf, k).ma
    ensures BollingerBands(s + [x], stdOf, k).std[..|s|] == BollingerBands(s, stdOf, k).std
    ensures BollingerBands(s + [x], stdOf, k).upper[..|s|] == BollingerBands(s, stdOf, k).upper
    ensures BollingerBands(s + [x], stdOf, k).lower[..|s|] == BollingerBands(s, stdOf, k).lower
  {
    var t := s + [x];
    var bt, bs := BollingerBands(t, stdOf, k), BollingerBands(s, stdOf, k);
    forall i | 0 <= i < |s|
      ensures bt.ma[i] == bs.ma[i] && bt.std[i] == bs.std[i]
      ensures bt.upper[i] == bs.upper[i] && bt.lower[i] == bs.lower[i]
    {
      assert WindowAt(t, i) == WindowAt(s, i);
    }
  }

  /** Once there are more than WINDOW prices, the windows of the last two entries are full. */
  lemma LastWindowsFull(s: seq<real>)
    requires |s| > WINDOW
    ensures |WindowAt(s, |s| - 1)| == WINDOW && |WindowAt(s, |s| - 2)| == WINDOW
    ensures WindowAt(s, |s| - 1) == s[|s| - WINDOW..]
  {
  }

  /** Eleven prices 100, 101, ..., 110: the last moving average is the mean of the last ten, 105.5. */
  lemma ElevenPrices()
    ensures Last(MovingAverage([100.0, 101.0, 102.0, 103.0, 104.0, 105.0, 106.0, 107.0, 108.0, 109.0, 110.0])) == 105.5
  {
    var s := [100.0, 101.0, 102.0, 103.0, 104.0, 105.0, 106.0, 107.0, 108.0, 109.0, 110.0];
    var w := WindowAt(s, 10);
    assert w == s[1..];
    assert w[..9] == [101.0, 102.0, 103.0, 104.0, 105.0, 106.0, 107.0, 108.0, 109.0];
    assert w[..9][..8] == [101.0, 102.0, 103.0, 104.0, 105.0, 106.0, 107.0, 108.0];
    assert w[..9][..8][..7] == [101.0, 102.0, 103.0, 104.0, 105.0, 106.0, 107.0];
    assert w[..9][..8][..7][..6] == [101.0, 102.0, 103.0, 104.0, 105.0, 106.0];
    assert w[..9][..8][..7][..6][..5] == [101.0, 102.0, 103.0, 104.0, 105.0];
    assert w[..9][..8][..7][..6][..5][..4] == [101.0, 102.0, 103.0, 104.0];
    assert w[..9][..8][..7][..6][..5][..4][..3] == [101.0, 102.0, 103.0];
    assert w[..9][..8][..7][..6][..5][..4][..3][..2] == [101.0, 102.0];
    assert w[..9][..8][..7][..6][..5][..4][..3][..2][..1] == [101.0];
    assert Sum([101.0]) == 101.0;
    assert Sum([101.0, 102.0]) == 203.0;
    assert Sum([101.0, 102.0, 103.0]) == 306.0;
    assert Sum([101.0, 102.0, 103.0, 104.0]) == 410.0;
    assert Sum([101.0, 102.0, 103.0, 104.0, 105.0]) == 515.0;
    assert Sum([101.0, 102.0, 103.0, 104.0, 105.0, 106.0]) == 621.0;
    assert Sum([101.0, 102.0, 103.0, 104.0, 105.0, 106.0, 107.0]) == 728.0;
    assert Sum([101.0, 102.0, 103.0, 104.0, 105.0, 106.0, 107.0, 108.0]) == 836.0;
    assert Sum([101.0, 102.0, 103.0, 104.0, 105.0, 106.0, 107.0, 108.0, 109.0]) == 945.0;
    assert Sum(w) == 1055.0;
  }
}
