/**
 * The subsample factor used when a scaled image is requested: CalculateInSampleSize,
 * a loop that doubles a power of two while both halved source dimensions, divided by
 * the current factor, still exceed the requested dimensions.
 */
module Subsampling {

  /** A C# `int`. */
  type Int32 = x: int | -0x8000_0000 <= x < 0x8000_0000

  /** C# integer division on a positive divisor: it truncates toward zero, where Dafny's `/` floors. */
  function TDiv(a: int, b: int): int
    requires b > 0
  {
    if a >= 0 then a / b else -((-a) / b)
  }

  ghost predicate IsPowerOfTwo(n: int)
  {
    n == 1 || (n > 1 && n % 2 == 0 && IsPowerOfTwo(n / 2))
  }

  function Min(a: int, b: int): int { if a <= b then a else b }

  function Max(a: int, b: int): int { if a >= b then a else b }

  /** The largest power of two that is at most `n`. */
  function FloorPow2(n: int): (r: int)
    requires n >= 1
    ensures IsPowerOfTwo(r) && r <= n < 2 * r
  {
    if n < 2 then 1 else 2 * FloorPow2(n / 2)
  }

  /**
   * Whether subsampling by `d` keeps both dimensions strictly larger than the
   * requested ones (the goal stated by the source's comment on the loop).
   */
  predicate Keeps(height: int, width: int, reqWidth: int, reqHeight: int, d: int)
    requires d > 0
  {
    TDiv(height, d) > reqHeight && TDiv(width, d) > reqWidth
  }

  /**
   * The largest divisor that keeps both dimensions above the request, when there is one:
   * `d <= MaxFactor(...)` exactly when `Keeps(..., d)` (lemma KeepsIffAtMostMaxFactor).
   */
  function MaxFactor(height: int, width: int, reqWidth: int, reqHeight: int): int
    requires reqWidth > 0 && reqHeight > 0
  {
    Min(height / (reqHeight + 1), width / (reqWidth + 1))
  }

  /**
   * Reference definition of the subsample factor: the largest power of two that keeps
   * both dimensions above the request, or 1 when no factor above 1 does.
   */
  function SampleSize(height: int, width: int, reqWidth: int, reqHeight: int): int
    requires reqWidth > 0 && reqHeight > 0
  {
    FloorPow2(Max(1, MaxFactor(height, width, reqWidth, reqHeight)))
  }

  /** Multiplying by a positive number preserves order. */
  lemma MulMonotone(a: int, b: int, d: int)
    requires a <= b && d > 0
    ensures a * d <= b * d
  {
    var diff := b - a;
    assert diff * d >= 0;
    assert b * d == a * d + diff * d;
  }

  /** Euclidean division bounded from below, stated as multiplication. */
  lemma DivAtLeast(n: int, d: int, k: int)
    requires d > 0
    ensures n / d >= k <==> n >= k * d
  {
    var q := n / d;
    assert q * d <= n < q * d + d;
    if q >= k {
      MulMonotone(k, q, d);
    } else {
      MulMonotone(q + 1, k, d);
      assert (q + 1) * d == q * d + d;
    }
  }

  /** One dimension of Keeps, as a bound on the divisor. */
  lemma DimensionKeeps(n: int, req: int, d: int)
    requires req > 0 && d > 0
    ensures TDiv(n, d) > req <==> d <= n / (req + 1)
  {
    DivAtLeast(n, req + 1, 0);
    if n >= 0 {
      DivAtLeast(n, d, req + 1);
      DivAtLeast(n, req + 1, d);
      assert (req + 1) * d == d * (req + 1);
    } else {
      assert (-n) / d >= 0;
    }
  }

  /** The loop's condition on one dimension: the halved size, divided by `s`, exceeds the request. */
  lemma HalvedDimensionKeeps(n: int, req: int, s: int)
    requires req > 0 && s > 0
    ensures TDiv(TDiv(n, 2), s) > req <==> 2 * s <= n / (req + 1)
  {
    if n >= 0 {
      HalvedNonNegative(n, req, s);
    } else {
      DivAtLeast(n, req + 1, 0);
      var half := TDiv(n, 2);
      assert (-n) / 2 >= 0;
      assert half <= 0;
      assert TDiv(half, s) <= 0 by {
        if half < 0 {
          assert (-half) / s >= 0;
        }
      }
    }
  }

  lemma HalvedNonNegative(n: int, req: int, s: int)
    requires n >= 0 && req > 0 && s > 0
    ensures (n / 2) / s > req <==> 2 * s <= n / (req + 1)
  {
    var k := (req + 1) * s;
    DivAtLeast(n / 2, s, req + 1);
    DivAtLeast(n, 2, k);
    DivAtLeast(n, req + 1, 2 * s);
    assert k * 2 == (2 * s) * (req + 1);
  }

  lemma KeepsIffAtMostMaxFactor(height: int, width: int, reqWidth: int, reqHeight: int, d: int)
    requires reqWidth > 0 && reqHeight > 0 && d > 0
    ensures Keeps(height, width, reqWidth, reqHeight, d) <==> d <= MaxFactor(height, width, reqWidth, reqHeight)
  {
    DimensionKeeps(height, reqHeight, d);
    DimensionKeeps(width, reqWidth, d);
  }

  /** Of two distinct powers of two, the larger is at least twice the smaller. */
  lemma {:induction false} PowerOfTwoGap(p: int, q: int)
    requires IsPowerOfTwo(p) && IsPowerOfTwo(q) && p < q
    ensures 2 * p <= q
    decreases q
  {
    assert q > 1 && q == 2 * (q / 2) && IsPowerOfTwo(q / 2);
    if p < q / 2 {
      PowerOfTwoGap(p, q / 2);
    } else if p > q / 2 {
      PowerOfTwoGap(q / 2, p);
    }
  }

  /** A power of two in (n/2, n] is FloorPow2(n). */
  lemma {:induction false} FloorPow2Unique(p: int, n: int)
    requires n >= 1 && IsPowerOfTwo(p) && p <= n < 2 * p
    ensures p == FloorPow2(n)
  {
    var r := FloorPow2(n);
    if p < r {
      PowerOfTwoGap(p, r);
    } else if r < p {
      PowerOfTwoGap(r, p);
    }
  }

  /**
   * What the factor means: a power of two; exactly 1 when the image is no larger than
   * the request; above 1 only if both subsampled dimensions still exceed the request;
   * and doubling it once more would not keep both above the request.
   */
  lemma SampleSizeCharacterized(height: int, width: int, reqWidth: int, reqHeight: int)
    requires reqWidth > 0 && reqHeight > 0
    ensures var r := SampleSize(height, width, reqWidth, reqHeight);
      && IsPowerOfTwo(r) && r >= 1
      && (height <= reqHeight && width <= reqWidth ==> r == 1)
      && (r > 1 ==> Keeps(height, width, reqWidth, reqHeight, r))
      && !Keeps(height, width, reqWidth, reqHeight, 2 * r)
  {
    var m := MaxFactor(height, width, reqWidth, reqHeight);
    var r := SampleSize(height, width, reqWidth, reqHeight);
    KeepsIffAtMostMaxFactor(height, width, reqWidth, reqHeight, r);
    KeepsIffAtMostMaxFactor(height, width, reqWidth, reqHeight, 2 * r);
    if height <= reqHeight {
      DivAtLeast(height, reqHeight + 1, 1);
      assert m <= 0;
    }
  }

  /** Those properties pin the factor down: SampleSize is the only value that has them. */
  lemma SampleSizeUnique(height: int, width: int, reqWidth: int, reqHeight: int, p: int)
    requires reqWidth > 0 && reqHeight > 0
    requires IsPowerOfTwo(p)
    requires p == 1 || Keeps(height, width, reqWidth, reqHeight, p)
    requires !Keeps(height, width, reqWidth, reqHeight, 2 * p)
    ensures p == SampleSize(height, width, reqWidth, reqHeight)
  {
    var m := MaxFactor(height, width, reqWidth, reqHeight);
    assert p >= 1;
    KeepsIffAtMostMaxFactor(height, width, reqWidth, reqHeight, p);
    KeepsIffAtMostMaxFactor(height, width, reqWidth, reqHeight, 2 * p);
    FloorPow2Unique(p, Max(1, m));
  }

  /** A 1000x1000 source asked for at 12x12 (the demo app's size) is subsampled by 64, giving 15x15. */
  lemma SampleSizeOfDemoRequest()
    ensures SampleSize(1000, 1000, 12, 12) == 64
    ensures TDiv(1000, 64) == 15
  {
    assert MaxFactor(1000, 1000, 12, 12) == 76;
    assert FloorPow2(1) == 1;
    assert FloorPow2(2) == 2;
    assert FloorPow2(4) == 4;
    assert FloorPow2(9) == 8;
    assert FloorPow2(19) == 16;
    assert FloorPow2(38) == 32;
    assert FloorPow2(76) == 64;
  }

  /**
   * Options that were never filled by a bounds-only decode report 0x0, and then no
   * factor above 1 is ever chosen.
   */
  lemma UnmeasuredSourceIsNotSubsampled(reqWidth: int, reqHeight: int)
    requires reqWidth > 0 && reqHeight > 0
    ensures SampleSize(0, 0, reqWidth, reqHeight) == 1
  {
    SampleSizeCharacterized(0, 0, reqWidth, reqHeight);
  }

  /**
   * CalculateInSampleSize over the dimensions the source reads from the options object.
   * The doubling cannot overflow a C# int: the factor stays below 2^30.
   */
  method CalculateInSampleSize(height: Int32, width: Int32, reqWidth: Int32, reqHeight: Int32)
    returns (inSampleSize: Int32)
    requires reqWidth > 0 && reqHeight > 0
    ensures inSampleSize == SampleSize(height, width, reqWidth, reqHeight)
    ensures IsPowerOfTwo(inSampleSize) && 1 <= inSampleSize < 0x4000_0000
  {
    ghost var m := MaxFactor(height, width, reqWidth, reqHeight);
    inSampleSize := 1;
    if height > reqHeight || width > reqWidth {
      var halfHeight := TDiv(height, 2);
      var halfWidth := TDiv(width, 2);
      DivAtLeast(height, reqHeight + 1, 0x4000_0000);
      while TDiv(halfHeight, inSampleSize) > reqHeight && TDiv(halfWidth, inSampleSize) > reqWidth
        invariant IsPowerOfTwo(inSampleSize) && inSampleSize >= 1
        invariant inSampleSize == 1 || inSampleSize <= m
        decreases m - inSampleSize
      {
        HalvedDimensionKeeps(height, reqHeight, inSampleSize);
        HalvedDimensionKeeps(width, reqWidth, inSampleSize);
        assert (2 * inSampleSize) / 2 == inSampleSize;
        inSampleSize := inSampleSize * 2;
      }
      HalvedDimensionKeeps(height, reqHeight, inSampleSize);
      HalvedDimensionKeeps(width, reqWidth, inSampleSize);
      FloorPow2Unique(inSampleSize, Max(1, m));
    } else {
      SampleSizeCharacterized(height, width, reqWidth, reqHeight);
    }
  }
}
