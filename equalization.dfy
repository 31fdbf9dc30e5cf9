/**
 * The histogram-equalisation arithmetic shared by the 8-bit and the 24-bit equalisers:
 * a 256-bin histogram built by increments, the cumulative distribution built by the
 * unsigned 32-bit recurrence cdf[i] = cdf[i - 1] + hist[i], cdf_min (the first positive
 * cumulative value) and the rounded scaling of a cumulative value onto [0, 255].
 */
module Equalization {
  import opened Bytes

  const LEVELS: nat := 256

  /** The number of samples of s at level v. */
  function Count(s: seq<byte>, v: int): (n: nat)
    ensures n <= |s|
  {
    if s == [] then 0 else Count(s[..|s| - 1], v) + (if s[|s| - 1] == v then 1 else 0)
  }

  /** Counting over a concatenation adds the counts of the parts. */
  lemma {:induction false} CountAppend(a: seq<byte>, b: seq<byte>, v: int)
    ensures Count(a + b, v) == Count(a, v) + Count(b, v)
  {
    if b != [] {
      assert (a + b)[..|a + b| - 1] == a + b[..|b| - 1];
      CountAppend(a, b[..|b| - 1], v);
    } else {
      assert a + b == a;
    }
  }

  /** Every sample's own level is counted. */
  lemma {:induction false} CountMember(s: seq<byte>, i: nat)
    requires i < |s|
    ensures Count(s, s[i]) > 0
  {
    if i < |s| - 1 {
      CountMember(s[..|s| - 1], i);
    }
  }

  /** hist[s[i]]++ for every sample in order, starting from 256 zero bins. */
  function HistogramOf(s: seq<byte>): (h: seq<nat>)
    ensures |h| == LEVELS
    ensures forall v :: 0 <= v < LEVELS ==> h[v] <= |s|
  {
    if s == [] then seq(LEVELS, _ => 0)
    else
      var h := HistogramOf(s[..|s| - 1]);
      var v := s[|s| - 1];
      h[v := h[v] + 1]
  }

  function Sum(h: seq<nat>): (total: nat)
  {
    if h == [] then 0 else Sum(h[..|h| - 1]) + h[|h| - 1]
  }

  /** Bin v of the histogram counts exactly the samples at level v. */
  lemma {:induction false} HistogramCounts(s: seq<byte>, v: nat)
    requires v < LEVELS
    ensures HistogramOf(s)[v] == Count(s, v)
  {
    if s != [] {
      HistogramCounts(s[..|s| - 1], v);
    }
  }

  lemma {:induction false} SumBump(h: seq<nat>, v: nat)
    requires v < |h|
    ensures Sum(h[v := h[v] + 1]) == Sum(h) + 1
  {
    if v < |h| - 1 {
      assert h[v := h[v] + 1][..|h| - 1] == h[..|h| - 1][v := h[v] + 1];
      SumBump(h[..|h| - 1], v);
    } else {
      assert h[v := h[v] + 1][..|h| - 1] == h[..|h| - 1];
    }
  }

  lemma {:induction false} SumZeros(n: nat)
    ensures Sum(seq(n, _ => 0)) == 0
  {
    if n > 0 {
      assert seq(n, _ => 0)[..n - 1] == seq(n - 1, _ => 0);
      SumZeros(n - 1);
    }
  }

  /** The bins add up to the number of samples. */
  lemma {:induction false} HistogramTotal(s: seq<byte>)
    ensures Sum(HistogramOf(s)) == |s|
  {
    if s == [] {
      SumZeros(LEVELS);
    } else {
      HistogramTotal(s[..|s| - 1]);
      SumBump(HistogramOf(s[..|s| - 1]), s[|s| - 1]);
    }
  }

  /** The cumulative distribution as the source computes it, in unsigned 32-bit arithmetic. */
  function Cdf(h: seq<nat>): (c: seq<u32>)
    ensures |c| == |h|
  {
    if h == [] then []
    else
      var c := Cdf(h[..|h| - 1]);
      var previous := if c == [] then 0 else c[|c| - 1];
      c + [(previous + h[|h| - 1]) % U32_MODULUS]
  }

  /** When the bins add up to less than 2^32 nothing wraps: cdf[i] is the sum of bins 0..i. */
  lemma {:induction false} CdfIsPrefixSum(h: seq<nat>, i: nat)
    requires Sum(h) < U32_MODULUS && i < |h|
    ensures Cdf(h)[i] == Sum(h[..i + 1])
  {
    var init := h[..|h| - 1];
    assert h[..|h|] == h;
    if i < |h| - 1 {
      assert init[..i + 1] == h[..i + 1];
      SumPrefix(h, |h| - 1);
      CdfIsPrefixSum(init, i);
    } else if i > 0 {
      SumPrefix(h, |h| - 1);
      CdfIsPrefixSum(init, i - 1);
      assert init[..i] == init;
    }
  }

  /** A prefix never adds up to more than the whole. */
  lemma {:induction false} SumPrefix(h: seq<nat>, k: nat)
    requires k <= |h|
    ensures Sum(h[..k]) <= Sum(h)
  {
    if k < |h| {
      assert h[..|h| - 1][..k] == h[..k];
      SumPrefix(h[..|h| - 1], k);
    } else {
      assert h[..k] == h;
    }
  }

  /** Without wrap-around the distribution is non-decreasing and ends at the number of samples. */
  lemma {:induction false} CdfMonotone(h: seq<nat>, i: nat, j: nat)
    requires Sum(h) < U32_MODULUS && i <= j < |h|
    ensures Cdf(h)[i] <= Cdf(h)[j]
    ensures Cdf(h)[|h| - 1] == Sum(h)
  {
    CdfIsPrefixSum(h, i);
    CdfIsPrefixSum(h, j);
    CdfIsPrefixSum(h, |h| - 1);
    assert h[..j + 1][..i + 1] == h[..i + 1];
    SumPrefix(h[..j + 1], i + 1);
    assert h[..|h|] == h;
  }

  /** The first index whose value is positive, or |c| when there is none. */
  function FirstPositive(c: seq<nat>): (k: nat)
    ensures k <= |c|
    ensures forall j :: 0 <= j < k ==> c[j] == 0
    ensures k < |c| ==> c[k] > 0
  {
    if c == [] then 0 else if c[0] > 0 then 0 else 1 + FirstPositive(c[1..])
  }

  /** cdf_min: the first positive cumulative value, or 0 when every value is 0. */
  function CdfMin(c: seq<nat>): (m: nat)
    ensures m == 0 <==> forall j :: 0 <= j < |c| ==> c[j] == 0
    ensures m != 0 ==> m in c
  {
    var k := FirstPositive(c);
    if k < |c| then c[k] else 0
  }

  /** The cumulative value of the first occupied level is that level's own count. */
  lemma {:induction false} CdfMinIsFirstCount(s: seq<byte>)
    requires |s| < U32_MODULUS && s != []
    ensures
      var h := HistogramOf(s);
      var c := Cdf(h);
      var k := FirstPositive(c);
      k < LEVELS && h[k] > 0 && CdfMin(c) == h[k] && forall v :: 0 <= v < k ==> h[v] == 0
  {
    var h := HistogramOf(s);
    HistogramTotal(s);
    var c := Cdf(h);
    CdfMonotone(h, 0, LEVELS - 1);
    var k := FirstPositive(c);
    assert k < LEVELS;
    forall v | 0 <= v < k ensures h[v] == 0 {
      CdfIsPrefixSum(h, v);
      SumPrefix(h[..v + 1], v);
      assert h[..v + 1][..v] == h[..v];
    }
    CdfIsPrefixSum(h, k);
    if k > 0 {
      CdfIsPrefixSum(h, k - 1);
      assert h[..k + 1][..k] == h[..k];
    } else {
      assert Sum(h[..1]) == h[0] by { assert h[..1][..0] == []; }
    }
  }

  /**
   * roundf/round of d / m * 255 for 0 <= d <= m, in exact arithmetic: the nearest integer,
   * halves rounded up.
   */
  function RoundedScale(d: nat, m: nat): (r: byte)
    requires 0 < m && d <= m
    ensures d == 0 ==> r == 0
    ensures d == m ==> r == 255
  {
    var r := (510 * d + m) / (2 * m);
    assert r <= 255 by {
      assert 510 * d + m < 2 * m * 256;
      DivBelow(510 * d + m, 2 * m, 256);
    }
    assert d == 0 ==> r == 0 by {
      if d == 0 {
        DivBelow(m, 2 * m, 1);
      }
    }
    assert d == m ==> r == 255 by {
      if d == m {
        DivExact(511 * m, 2 * m, 255);
      }
    }
    r
  }

  lemma DivExact(a: nat, b: nat, q: nat)
    requires 0 < b && b * q <= a < b * q + b
    ensures a / b == q
  {
    var k := a / b;
    assert a == b * k + a % b && 0 <= a % b < b;
    if k > q {
      MulLe(b, q + 1, k);
    } else if k < q {
      MulLe(b, k + 1, q);
    }
  }

  /** The rounded scale r is the integer with 255 * d / m - 1/2 <= r < 255 * d / m + 1/2. */
  lemma RoundedScaleNearest(d: nat, m: nat)
    requires 0 < m && d <= m
    ensures 2 * m * RoundedScale(d, m) <= 510 * d + m < 2 * m * RoundedScale(d, m) + 2 * m
  {
  }

  lemma DivBelow(a: nat, b: nat, q: nat)
    requires 0 < b && a < b * q
    ensures a / b < q
  {
  }

  /** The rounded scale is non-decreasing in d, sends 0 to 0 and m to 255. */
  lemma RoundedScaleMonotone(d1: nat, d2: nat, m: nat)
    requires 0 < m && d1 <= d2 <= m
    ensures RoundedScale(d1, m) <= RoundedScale(d2, m)
    ensures RoundedScale(0, m) == 0 && RoundedScale(m, m) == 255
  {
    var r1, r2 := RoundedScale(d1, m), RoundedScale(d2, m);
    RoundedScaleNearest(d1, m);
    RoundedScaleNearest(d2, m);
    if r1 > r2 {
      MulLe(2 * m, r2 + 1, r1);
    }
  }

  lemma MulLe(a: nat, x: nat, y: nat)
    requires x <= y
    ensures a * x <= a * y
  {
  }

  /** FillCdf's loop: cdf[0] = hist[0] and cdf[i] = cdf[i - 1] + hist[i], unsigned. */
  method FillCdf(hist: array<u32>, cdf: array<u32>)
    requires hist.Length == LEVELS && cdf.Length == LEVELS && hist != cdf
    modifies cdf
    ensures cdf[..] == Cdf(hist[..])
  {
    ghost var h := hist[..];
    cdf[0] := hist[0];
    assert h[..1][..0] == [];
    for i := 1 to LEVELS
      invariant cdf[..i] == Cdf(h[..i])
    {
      cdf[i] := (cdf[i - 1] + hist[i]) % U32_MODULUS;
      assert h[..i + 1][..i] == h[..i];
      assert cdf[..i + 1] == cdf[..i] + [cdf[i]];
    }
    assert h[..LEVELS] == h;
  }

  /** The search for cdf_min: the first positive entry, or 0. */
  method FindCdfMin(cdf: array<u32>) returns (cdfMin: u32)
    requires cdf.Length == LEVELS
    ensures cdfMin == CdfMin(cdf[..])
  {
    cdfMin := 0;
    for i := 0 to LEVELS
      invariant forall j :: 0 <= j < i ==> cdf[j] == 0
    {
      if cdf[i] > 0 {
        cdfMin := cdf[i];
        assert FirstPositive(cdf[..]) == i;
        return;
      }
    }
  }
}
