/** The statistical features of src/flow/features.rs over the reals, and the
    composite score of src/utils/dashboard.rs.

    A duration is a number of nanoseconds.  The standard deviation is passed in
    as any root of the variance, and the query entropy as any real. */
module Features {
  import opened Wire
  import opened FlowTracker

  function Sum(v: seq<real>): real {
    if v == [] then 0.0 else v[0] + Sum(v[1..])
  }

  function Square(x: real): real {
    x * x
  }

  /** Squared distances from `c`, added up. */
  function SumSquares(v: seq<real>, c: real): real {
    if v == [] then 0.0 else Square(v[0] - c) + SumSquares(v[1..], c)
  }

  function Mean(v: seq<real>): real
    requires v != []
  {
    Sum(v) / |v| as real
  }

  function Variance(v: seq<real>): real
    requires v != []
  {
    SumSquares(v, Mean(v)) / |v| as real
  }

  function Millis(durations: seq<nat>): seq<real> {
    seq(|durations|, i requires 0 <= i < |durations| => durations[i] as real / 1000000.0)
  }

  function Reals(sizes: seq<u16>): seq<real> {
    seq(|sizes|, i requires 0 <= i < |sizes| => sizes[i] as real)
  }

  function PacketSizeVariance(sizes: seq<u16>): real {
    if |sizes| < 2 then 0.0 else Variance(Reals(sizes))
  }

  function IatMean(iats: seq<nat>): real {
    if iats == [] then 0.0 else Mean(Millis(iats))
  }

  function MinReal(a: real, b: real): real {
    if a <= b then a else b
  }

  function MaxReal(a: real, b: real): real {
    if a >= b then a else b
  }

  /** Regularity of the gaps; `stddev` is only used past both guards. */
  function BeaconingScore(iats: seq<nat>, stddev: real): real {
    if |iats| < 2 then 0.0
    else if Mean(Millis(iats)) < 0.001 then 0.0
    else MaxReal(1.0 - MinReal(stddev / Mean(Millis(iats)), 1.0), 0.0)
  }

  predicate IsStddev(iats: seq<nat>, stddev: real) {
    stddev >= 0.0 && (iats != [] ==> Square(stddev) == Variance(Millis(iats)))
  }

  const FIN: Bit := 0
  const SYN: Bit := 1
  const PSH: Bit := 3
  const URG: Bit := 5

  function FlagAnomaly(flags: Flags): real {
    MinReal((if {SYN, FIN} <= flags then 0.5 else 0.0) +
            (if {FIN, PSH, URG} <= flags then 0.5 else 0.0) +
            (if flags == {} then 0.3 else 0.0), 1.0)
  }

  function Abs(x: real): real {
    if x >= 0.0 then x else -x
  }

  function Asymmetry(fwdBytes: nat, revBytes: nat): real {
    if fwdBytes + revBytes == 0 then 0.0
    else Abs(fwdBytes as real - revBytes as real) / (fwdBytes + revBytes) as real
  }

  function DurationSecs(r: FlowRecord): real {
    MaxReal(DurationSince(r.lastSeen, r.firstSeen) as real / 1000000000.0, 0.001)
  }

  function ConnRate(r: FlowRecord): real {
    (r.fwdPackets + r.revPackets) as real / DurationSecs(r)
  }

  function BytesRatio(r: FlowRecord): real {
    if r.fwdPackets + r.revPackets == 0 then 0.0
    else (r.fwdBytes + r.revBytes) as real / (r.fwdPackets + r.revPackets) as real
  }

  const CONN_RATE := 0
  const DNS_ENTROPY := 2
  const BEACONING_SCORE := 3
  const TRAFFIC_ASYMMETRY := 4
  const OFF_HOURS_PCT := 5
  const TCP_FLAG_ANOMALY := 11

  /** The fourteen features of a record. */
  function FeatureVector(r: FlowRecord, dnsEntropy: real, stddev: real): (f: seq<real>)
    ensures |f| == 14
  {
    [ ConnRate(r), 1.0, dnsEntropy, BeaconingScore(r.interArrivalTimes, stddev),
      Asymmetry(r.fwdBytes, r.revBytes), 0.0, IatMean(r.interArrivalTimes),
      BytesRatio(r),
      0.0, 0.0, PacketSizeVariance(r.packetSizes), FlagAnomaly(r.tcpFlagsUnion), 0.0, 0.0 ]
  }

  method TcpFlagAnomaly(flags: Flags) returns (score: real)
    ensures score == FlagAnomaly(flags)
  {
    score := 0.0;
    if SYN in flags && FIN in flags {
      score := score + 0.5;
    }
    if FIN in flags && PSH in flags && URG in flags {
      score := score + 0.5;
    }
    if flags == {} {
      score := score + 0.3;
    }
    score := MinReal(score, 1.0);
  }

  method ExtractFeatures(r: FlowRecord, dnsEntropy: real, stddev: real) returns (features: array<real>)
    ensures fresh(features) && features[..] == FeatureVector(r, dnsEntropy, stddev)
  {
    var totalPackets := r.fwdPackets + r.revPackets;
    var totalBytes := r.fwdBytes + r.revBytes;
    var asymmetry := 0.0;
    if totalBytes > 0 {
      asymmetry := Asymmetry(r.fwdBytes, r.revBytes);
    }
    var bytesRatio := 0.0;
    if totalPackets > 0 {
      bytesRatio := BytesRatio(r);
    }
    var anomaly := TcpFlagAnomaly(r.tcpFlagsUnion);
    features := Pack([
      ConnRate(r), 1.0, dnsEntropy, BeaconingScore(r.interArrivalTimes, stddev),
      asymmetry, 0.0, IatMean(r.interArrivalTimes), bytesRatio,
      0.0, 0.0, PacketSizeVariance(r.packetSizes), anomaly, 0.0, 0.0]);
  }

  /** Write the features into a fresh array. */
  method Pack(values: seq<real>) returns (features: array<real>)
    ensures fresh(features) && features[..] == values
  {
    features := new real[|values|](_ => 0.0);
    for i := 0 to |values|
      invariant features[..i] == values[..i]
    {
      features[i] := values[i];
    }
  }

  /** The dashboard's weighted sum, before its final cap at one. */
  function WeightedScore(f: seq<real>): real
    requires |f| == 14
  {
    f[BEACONING_SCORE] * 0.25 +
    MinReal(f[DNS_ENTROPY], 5.0) / 5.0 * 0.15 +
    f[TRAFFIC_ASYMMETRY] * 0.15 +
    f[TCP_FLAG_ANOMALY] * 0.25 +
    f[OFF_HOURS_PCT] * 0.10 +
    MinReal(f[CONN_RATE], 1000.0) / 1000.0 * 0.10
  }

  function CompositeScore(f: seq<real>): real
    requires |f| == 14
  {
    MinReal(WeightedScore(f), 1.0)
  }

  // ----- proofs

  lemma SquareNonNegative(x: real)
    ensures Square(x) >= 0.0
  {
  }

  /** What moving the centre from `d` to `c` adds to the squared distances of `n`
      values that sum to `s`. */
  function Shift(n: real, s: real, c: real, d: real): real {
    (d - c) * (2.0 * s - n * (c + d))
  }

  /** One value more under both centres. */
  lemma ShiftStep(x: real, s: real, n: real, c: real, d: real)
    ensures Square(x - c) + Shift(n, s, c, d) == Square(x - d) + Shift(n + 1.0, x + s, c, d)
  {
    var e, t := d - c, c + d;
    assert Square(x - c) == Square(x - d) + e * (2.0 * x - t);
    assert (n + 1.0) * t == n * t + t;
    assert e * ((2.0 * x - t) + (2.0 * s - n * t)) == e * (2.0 * x - t) + e * (2.0 * s - n * t);
  }

  /** Squared distances from two centres differ by a multiple of the distance
      between the centres. */
  lemma {:induction false} ShiftCentre(v: seq<real>, c: real, d: real)
    ensures SumSquares(v, c) == SumSquares(v, d) + Shift(|v| as real, Sum(v), c, d)
  {
    if v != [] {
      ShiftCentre(v[1..], c, d);
      ShiftStep(v[0], Sum(v[1..]), |v[1..]| as real, c, d);
      assert |v| as real == |v[1..]| as real + 1.0;
    }
  }

  predicate IsMean(m: real, n: real, s: real) {
    n * m == s
  }

  lemma MeanIsMean(v: seq<real>)
    requires v != []
    ensures IsMean(Mean(v), |v| as real, Sum(v))
  {
  }

  /** Moving away from the mean adds. */
  lemma ShiftFromMean(m: real, c: real, n: real, s: real)
    requires n > 0.0 && IsMean(m, n, s)
    ensures Shift(n, s, c, m) >= 0.0
  {
    assert 2.0 * s - n * (c + m) == n * (m - c);
    SquareNonNegative(m - c);
    assert (m - c) * (n * (m - c)) == n * Square(m - c);
  }

  /** The mean is the centre with the least sum of squares. */
  lemma MeanIsBest(v: seq<real>, c: real)
    requires v != []
    ensures SumSquares(v, Mean(v)) <= SumSquares(v, c)
  {
    ShiftCentre(v, c, Mean(v));
    MeanIsMean(v);
    ShiftFromMean(Mean(v), c, |v| as real, Sum(v));
  }

  lemma SquareWithin(x: real, h: real)
    requires -h <= x <= h
    ensures Square(x) <= Square(h)
  {
    assert h * h - x * x == (h - x) * (h + x);
  }

  function Times(n: real, x: real): real {
    n * x
  }

  lemma {:induction false} SumSquaresWithin(v: seq<real>, c: real, h: real)
    requires forall i :: 0 <= i < |v| ==> c - h <= v[i] <= c + h
    ensures SumSquares(v, c) <= Times(|v| as real, Square(h))
  {
    if v != [] {
      SquareWithin(v[0] - c, h);
      SumSquaresWithin(v[1..], c, h);
      assert |v| as real == |v[1..]| as real + 1.0;
      OneMore(|v[1..]| as real, Square(h));
    }
  }

  lemma OneMore(n: real, x: real)
    ensures Times(n + 1.0, x) == Times(n, x) + x
  {
  }

  lemma DivideBound(a: real, n: real, b: real)
    requires n > 0.0 && a <= Times(n, b)
    ensures a / n <= b
  {
    assert a / n * n == a;
  }

  lemma HalfSquare(r: real)
    ensures Square(r / 2.0) == Square(r) / 4.0
  {
  }

  /** Squared distances from the mean, against the half range. */
  lemma SpreadBound(v: seq<real>, lo: real, hi: real)
    requires v != [] && forall i :: 0 <= i < |v| ==> lo <= v[i] <= hi
    ensures SumSquares(v, Mean(v)) <= Times(|v| as real, Square((hi - lo) / 2.0))
  {
    MeanIsBest(v, (lo + hi) / 2.0);
    SumSquaresWithin(v, (lo + hi) / 2.0, (hi - lo) / 2.0);
  }

  /** The variance of values in [lo, hi] is at most a quarter of the squared
      range. */
  lemma VarianceBound(v: seq<real>, lo: real, hi: real)
    requires v != [] && forall i :: 0 <= i < |v| ==> lo <= v[i] <= hi
    ensures Variance(v) <= Square(hi - lo) / 4.0
  {
    SpreadBound(v, lo, hi);
    DivideBound(SumSquares(v, Mean(v)), |v| as real, Square((hi - lo) / 2.0));
    HalfSquare(hi - lo);
  }

  /** Packet sizes: the reported variance against the range of the samples. */
  lemma PacketSizeVarianceBound(sizes: seq<u16>, lo: u16, hi: u16)
    requires forall i :: 0 <= i < |sizes| ==> lo <= sizes[i] <= hi
    requires lo <= hi
    ensures PacketSizeVariance(sizes) <= Square((hi - lo) as real) / 4.0
  {
    if |sizes| >= 2 {
      VarianceBound(Reals(sizes), lo as real, hi as real);
      assert (hi - lo) as real == hi as real - lo as real;
    } else {
      SquareNonNegative((hi - lo) as real);
    }
  }

  lemma {:induction false} SumSquaresSign(v: seq<real>, c: real)
    ensures SumSquares(v, c) >= 0.0
    ensures SumSquares(v, c) == 0.0 <==> forall i :: 0 <= i < |v| ==> v[i] == c
  {
    if v != [] {
      SumSquaresSign(v[1..], c);
      SquareNonNegative(v[0] - c);
      ZeroSquare(v[0] - c);
      assert forall i :: 1 <= i < |v| ==> v[i] == v[1..][i - 1];
    }
  }

  lemma PositiveProduct(a: real, b: real, p: real)
    requires a > 0.0 && b > 0.0 && p == a * b
    ensures p > 0.0
  {
  }

  lemma ZeroSquare(x: real)
    ensures Square(x) == 0.0 <==> x == 0.0
  {
    if x > 0.0 {
      PositiveProduct(x, x, Square(x));
    } else if x < 0.0 {
      PositiveProduct(-x, -x, Square(x));
    } else {
      assert Square(0.0) == 0.0;
    }
  }

  lemma {:induction false} SumOfEqual(v: seq<real>, c: real)
    requires forall i :: 0 <= i < |v| ==> v[i] == c
    ensures Sum(v) == |v| as real * c
  {
    if v != [] {
      SumOfEqual(v[1..], c);
    }
  }

  /** Zero variance means equal values. */
  lemma VarianceZeroIff(v: seq<real>)
    requires v != []
    ensures Variance(v) >= 0.0
    ensures Variance(v) == 0.0 <==> forall i :: 0 <= i < |v| ==> v[i] == v[0]
  {
    var m, n := Mean(v), |v| as real;
    SumSquaresSign(v, m);
    assert Variance(v) * n == SumSquares(v, m);
    if forall i :: 0 <= i < |v| ==> v[i] == v[0] {
      SumOfEqual(v, v[0]);
      assert m == v[0];
    }
  }

  /** The beaconing score lies in [0, 1]; past both guards it is 1 exactly when
      all gaps are equal. */
  lemma BeaconingBounds(iats: seq<nat>, stddev: real)
    requires IsStddev(iats, stddev)
    ensures 0.0 <= BeaconingScore(iats, stddev) <= 1.0
    ensures |iats| >= 2 && Mean(Millis(iats)) >= 0.001 ==>
              (BeaconingScore(iats, stddev) == 1.0 <==> forall i :: 0 <= i < |iats| ==> iats[i] == iats[0])
  {
    if |iats| >= 2 {
      var v := Millis(iats);
      var m := Mean(v);
      if m >= 0.001 {
        var cv := stddev / m;
        QuotientSign(stddev, m);
        VarianceZeroIff(v);
        ZeroSquare(stddev);
        assert forall i :: 0 <= i < |iats| ==> (iats[i] == iats[0] <==> v[i] == v[0]);
      }
    }
  }

  lemma QuotientSign(a: real, b: real)
    requires a >= 0.0 && b > 0.0
    ensures a / b >= 0.0 && (a / b == 0.0 <==> a == 0.0)
  {
    assert a / b * b == a;
  }

  lemma UnitQuotient(d: real, t: real)
    requires t > 0.0 && 0.0 <= d <= t
    ensures 0.0 <= d / t <= 1.0 && (d / t == 1.0 <==> d == t)
  {
    QuotientSign(d, t);
    QuotientSign(t - d, t);
    assert d / t + (t - d) / t == (d + (t - d)) / t == 1.0;
  }

  lemma AsymmetryBounds(fwdBytes: nat, revBytes: nat)
    ensures 0.0 <= Asymmetry(fwdBytes, revBytes) <= 1.0
    ensures Asymmetry(fwdBytes, revBytes) == 1.0 <==> (fwdBytes == 0) != (revBytes == 0)
  {
    if fwdBytes + revBytes > 0 {
      var f, r := fwdBytes as real, revBytes as real;
      assert (fwdBytes + revBytes) as real == f + r;
      UnitQuotient(Abs(f - r), f + r);
    }
  }

  lemma FlagAnomalyBounds(flags: Flags)
    ensures 0.0 <= FlagAnomaly(flags) <= 1.0
    ensures FlagAnomaly(flags) == 1.0 <==> {FIN, SYN, PSH, URG} <= flags
  {
  }

  lemma ConnRateSign(r: FlowRecord)
    ensures FeatureVector(r, 0.0, 0.0)[CONN_RATE] >= 0.0
  {
    QuotientSign((r.fwdPackets + r.revPackets) as real, DurationSecs(r));
  }

  /** The composite score lies in [0, 0.9], so its cap at one never clips. */
  lemma CompositeNeverClips(r: FlowRecord, dnsEntropy: real, stddev: real)
    requires IsStddev(r.interArrivalTimes, stddev) && dnsEntropy >= 0.0
    ensures var f := FeatureVector(r, dnsEntropy, stddev);
            0.0 <= WeightedScore(f) <= 0.9 && CompositeScore(f) == WeightedScore(f)
  {
    BeaconingBounds(r.interArrivalTimes, stddev);
    AsymmetryBounds(r.fwdBytes, r.revBytes);
    FlagAnomalyBounds(r.tcpFlagsUnion);
    ConnRateSign(r);
  }

  function SumNat(v: seq<nat>): nat {
    if v == [] then 0 else v[0] + SumNat(v[1..])
  }

  /** Nanoseconds added up as milliseconds. */
  lemma {:induction false} SumMillis(durations: seq<nat>)
    ensures Sum(Millis(durations)) * 1000000.0 == SumNat(durations) as real
  {
    if durations != [] {
      assert Millis(durations)[1..] == Millis(durations[1..]);
      SumMillis(durations[1..]);
      assert Millis(durations)[0] * 1000000.0 == durations[0] as real;
    }
  }

  lemma TimesQuotient(a: real, b: real)
    requires b != 0.0
    ensures a / b * b == a
  {
  }

  /** The mean gap in milliseconds, times their number, against the sum of the gaps
      in nanoseconds. */
  lemma IatMeanExact(iats: seq<nat>)
    ensures Times(|iats| as real, IatMean(iats)) * 1000000.0 == SumNat(iats) as real
  {
    if iats != [] {
      SumMillis(iats);
      MeanTimes(Millis(iats));
    }
  }

  lemma MeanTimes(v: seq<real>)
    requires v != []
    ensures Times(|v| as real, Mean(v)) == Sum(v)
  {
    MeanIsMean(v);
  }

  /** Bytes per packet: the ratio gives the bytes back. */
  lemma BytesRatioExact(r: FlowRecord)
    ensures BytesRatio(r) * (r.fwdPackets + r.revPackets) as real ==
            if r.fwdPackets + r.revPackets == 0 then 0.0 else (r.fwdBytes + r.revBytes) as real
  {
    if r.fwdPackets + r.revPackets > 0 {
      TimesQuotient((r.fwdBytes + r.revBytes) as real, (r.fwdPackets + r.revPackets) as real);
    }
  }

  lemma QuotientByMax(n: real, d: real)
    requires n >= 0.0
    ensures var c := if d >= 0.001 then d else 0.001;
            && n / c * c == n
            && n / c <= 1000.0 * n
            && (n / c == 1000.0 * n <==> n == 0.0 || d <= 0.001)
  {
    var c := if d >= 0.001 then d else 0.001;
    var q := n / c;
    TimesQuotient(n, c);
    QuotientSign(n, c);
    assert q * 0.001 <= q * c;
    if d > 0.001 && n > 0.0 {
      PositiveProduct(q, c - 0.001, q * (c - 0.001));
      assert q * (c - 0.001) == q * c - q * 0.001;
    }
  }

  /** Packets per second over the life of the flow in nanoseconds, taken as one
      millisecond when it is shorter; so at most a thousand per packet. */
  lemma ConnRateExact(r: FlowRecord)
    requires r.lastSeen >= r.firstSeen
    ensures var n, d := (r.fwdPackets + r.revPackets) as real, (r.lastSeen - r.firstSeen) as real / 1000000000.0;
            && ConnRate(r) * (if d >= 0.001 then d else 0.001) == n
            && ConnRate(r) <= 1000.0 * n
            && (ConnRate(r) == 1000.0 * n <==> n == 0.0 || d <= 0.001)
  {
    QuotientByMax((r.fwdPackets + r.revPackets) as real, (r.lastSeen - r.firstSeen) as real / 1000000000.0);
  }

  /** Asymmetry is the share of the larger direction beyond the smaller one, and
      does not depend on which is which. */
  lemma AsymmetryExact(fwdBytes: nat, revBytes: nat)
    ensures Asymmetry(fwdBytes, revBytes) * (fwdBytes + revBytes) as real
         == (Max(fwdBytes, revBytes) - Min(fwdBytes, revBytes)) as real
    ensures Asymmetry(fwdBytes, revBytes) == Asymmetry(revBytes, fwdBytes)
  {
    var f, r := fwdBytes as real, revBytes as real;
    assert (Max(fwdBytes, revBytes) - Min(fwdBytes, revBytes)) as real == Abs(f - r) == Abs(r - f);
    if fwdBytes + revBytes > 0 {
      assert (fwdBytes + revBytes) as real == f + r;
      TimesQuotient(Abs(f - r), f + r);
    }
  }

  /** Every value of the flag score, and when it is taken. */
  lemma FlagAnomalyTable(flags: Flags)
    ensures var scan, xmas := 0 in flags && 1 in flags, 0 in flags && 3 in flags && 5 in flags;
            var score := FlagAnomaly(flags);
            && (score == 1.0 <==> scan && xmas)
            && (score == 0.5 <==> scan != xmas)
            && (score == 0.3 <==> flags == {})
            && (score == 0.0 <==> !scan && !xmas && flags != {})
  {
  }

  /** Past both guards one minus the score is the relative deviation of the gaps,
      capped at one; before them the score is zero. */
  lemma BeaconingExact(iats: seq<nat>, stddev: real)
    requires IsStddev(iats, stddev)
    ensures |iats| < 2 || Mean(Millis(iats)) < 0.001 ==> BeaconingScore(iats, stddev) == 0.0
    ensures |iats| >= 2 && Mean(Millis(iats)) >= 0.001 ==>
              var mean, score := Mean(Millis(iats)), BeaconingScore(iats, stddev);
              && (stddev <= mean ==> (1.0 - score) * mean == stddev)
              && (score == 0.0 <==> stddev >= mean)
  {
    if |iats| >= 2 && Mean(Millis(iats)) >= 0.001 {
      var m := Mean(Millis(iats));
      QuotientSign(stddev, m);
      TimesQuotient(stddev, m);
      if stddev <= m {
        UnitQuotient(stddev, m);
      } else {
        QuotientSign(stddev - m, m);
        assert (stddev - m) / m == stddev / m - m / m == stddev / m - 1.0;
      }
    }
  }

  /** Variance is the mean of the squares less the square of the mean. */
  lemma VarianceExact(v: seq<real>)
    requires v != []
    ensures Variance(v) == SumSquares(v, 0.0) / |v| as real - Square(Mean(v))
  {
    ShiftCentre(v, 0.0, Mean(v));
    MeanIsMean(v);
    CentreToZero(|v| as real, Sum(v), Mean(v), SumSquares(v, Mean(v)), SumSquares(v, 0.0));
  }

  /** The reported packet-size feature, exactly. */
  lemma PacketSizeVarianceExact(sizes: seq<u16>)
    ensures |sizes| < 2 ==> PacketSizeVariance(sizes) == 0.0
    ensures |sizes| >= 2 ==>
              var v := Reals(sizes);
              && |v| == |sizes| && (forall i :: 0 <= i < |v| ==> v[i] == sizes[i] as real)
              && PacketSizeVariance(sizes) == SumSquares(v, 0.0) / |v| as real - Square(Sum(v) / |v| as real)
  {
    if |sizes| >= 2 {
      VarianceExact(Reals(sizes));
    }
  }

  lemma CentreToZero(n: real, s: real, m: real, a: real, z: real)
    requires n > 0.0 && IsMean(m, n, s) && z == a + Shift(n, s, 0.0, m)
    ensures a / n == z / n - Square(m)
  {
    ShiftToZero(n, s, m);
    QuotientOfSum(a, Square(m), n);
  }

  lemma ShiftToZero(n: real, s: real, m: real)
    requires IsMean(m, n, s)
    ensures Shift(n, s, 0.0, m) == n * Square(m)
  {
    assert 2.0 * s - n * m == n * m;
    assert m * (n * m) == n * (m * m);
  }

  lemma QuotientOfSum(a: real, b: real, n: real)
    requires n > 0.0
    ensures (a + n * b) / n == a / n + b
  {
    TimesQuotient(a, n);
    var q := a / n + b;
    assert q * n == a + n * b;
  }

  /** Where each feature stands, and the constants of the stubs. */
  lemma FeaturePositions(r: FlowRecord, dnsEntropy: real, stddev: real)
    ensures var f := FeatureVector(r, dnsEntropy, stddev);
            && f[0] == ConnRate(r) && f[1] == 1.0 && f[2] == dnsEntropy
            && f[3] == BeaconingScore(r.interArrivalTimes, stddev)
            && f[4] == Asymmetry(r.fwdBytes, r.revBytes) && f[6] == IatMean(r.interArrivalTimes)
            && f[7] == BytesRatio(r) && f[10] == PacketSizeVariance(r.packetSizes)
            && f[11] == FlagAnomaly(r.tcpFlagsUnion)
            && f[5] == f[8] == f[9] == f[12] == f[13] == 0.0
  {
  }

  /** The score in hundredths: 25 for beaconing, 15 for entropy up to 5, 15 for
      asymmetry, 25 for flags, 10 for off-hours and 10 for up to a thousand
      packets per second; so 0.9 is reached exactly when all five live features
      are at their limit. */
  lemma ScoreExact(r: FlowRecord, dnsEntropy: real, stddev: real)
    requires IsStddev(r.interArrivalTimes, stddev) && dnsEntropy >= 0.0
    ensures var f := FeatureVector(r, dnsEntropy, stddev);
            var entropy := if f[2] <= 5.0 then f[2] else 5.0;
            var rate := if f[0] <= 1000.0 then f[0] else 1000.0;
            && 100.0 * WeightedScore(f) ==
               25.0 * f[3] + 3.0 * entropy + 15.0 * f[4] + 25.0 * f[11] + 10.0 * f[5] + rate / 100.0
            && (WeightedScore(f) == 0.9 <==>
                  f[3] == 1.0 && f[2] >= 5.0 && f[4] == 1.0 && f[11] == 1.0 && f[0] >= 1000.0)
  {
    BeaconingBounds(r.interArrivalTimes, stddev);
    AsymmetryBounds(r.fwdBytes, r.revBytes);
    FlagAnomalyBounds(r.tcpFlagsUnion);
    ConnRateSign(r);
  }
}

/** The features of a flow that a tracker holds. */
module FlowFeatures {
  import opened FlowKeys
  import opened FlowTracker
  import opened FlowRuns
  import opened FlowRecords
  import Features
  import Lru

  lemma {:induction false} SameSum(v: seq<nat>)
    ensures Features.SumNat(v) == Sum(v)
  {
    if |v| == 1 {
      assert v[1..] == [] && Front(v) == [];
    } else if v != [] {
      SumHead(v);
      SameSum(v[1..]);
    }
  }

  lemma {:induction false} SumHead(v: seq<nat>)
    requires v != []
    ensures Sum(v) == v[0] + Sum(v[1..])
  {
    if |v| == 1 {
      assert v[1..] == [] && Front(v) == [];
    } else {
      SumHead(Front(v));
      assert Front(v)[1..] == Front(v[1..]);
    }
  }

  /** While no gap has been discarded, the mean gap of an active flow in
      milliseconds, times the number of gaps, is the time from its first to its
      last packet. */
  lemma MeanGapOfFlow(cfg: Config, r: Run, k: FlowKey)
    requires IsRun(cfg, r) && Lru.Ordered(TraceOf(r)) && k in Table(r)
    requires Table(r)[k].fwdPackets + Table(r)[k].revPackets <= cfg.maxSamples + 1
    ensures Session(r, k) != []
    ensures var rec := Table(r)[k];
            var gaps := rec.fwdPackets + rec.revPackets - 1;
            Features.Times(gaps as real, Features.IatMean(rec.interArrivalTimes)) * 1000000.0
            == (rec.lastSeen - Session(r, k)[0].now) as real
  {
    var rec := Table(r)[k];
    GapsSpanSession(cfg, r, k);
    RecordedGaps(cfg, r, k);
    Features.IatMeanExact(rec.interArrivalTimes);
    SameSum(rec.interArrivalTimes);
  }

  lemma RecordedGaps(cfg: Config, r: Run, k: FlowKey)
    requires IsRun(cfg, r) && k in Table(r)
    requires Table(r)[k].fwdPackets + Table(r)[k].revPackets <= cfg.maxSamples + 1
    ensures var rec := Table(r)[k];
            |rec.interArrivalTimes| == rec.fwdPackets + rec.revPackets - 1
  {
    RecordIsSummary(cfg, r, k);
    PacketsTotal(Session(r, k));
  }
}
