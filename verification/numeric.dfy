/** Arithmetic shared by every stage: the C conversion from float to int, the value of pi,
    and the integer division facts the flat index layout rests on. */
module Numeric {

  /** The value M_PI of <math.h>, as an exact real stand-in. */
  const Pi: real := 3.141592653589793

  /** C's `(int) r` conversion: truncation toward zero. */
  function Trunc(r: real): (t: int)
    ensures r >= 0.0 ==> t == r.Floor
    ensures r >= 0.0 ==> t as real <= r < t as real + 1.0
    ensures r < 0.0 ==> r <= t as real < r + 1.0
  {
    if r >= 0.0 then r.Floor else -((-r).Floor)
  }

  /** Euclidean division is determined by quotient and remainder. */
  lemma DivModUnique(i: int, d: int, q: int, r: int)
    requires d > 0 && 0 <= r < d && i == q * d + r
    ensures i / d == q && i % d == r
  {
    var q', r' := i / d, i % d;
    assert i == q' * d + r';
    if q' < q {
      assert (q - q') * d == r' - r;
      assert (q - q') * d >= d by { MulMono(q - q', 1, d); }
    } else if q' > q {
      assert (q' - q) * d == r - r';
      assert (q' - q) * d >= d by { MulMono(q' - q, 1, d); }
    }
  }

  /** Multiplying by a non-negative factor keeps an order. */
  lemma MulMono(a: int, b: int, d: int)
    requires a >= b && d >= 0
    ensures a * d >= b * d
  {
    assert a * d - b * d == (a - b) * d;
  }

  /** A row-major pair (q, r) with r < d stays below n * d when q < n. */
  lemma PairBelow(q: int, r: int, n: int, d: int)
    requires 0 <= q < n && 0 <= r < d
    ensures 0 <= q * d + r < n * d
  {
    MulMono(n - 1, q, d);
    MulMono(q, 0, d);
    assert (n - 1) * d + d == n * d;
  }

  /** A product of two non-negative reals is non-negative. */
  lemma MulNonNeg(a: real, b: real)
    requires 0.0 <= a && 0.0 <= b
    ensures 0.0 <= a * b
  {
  }

  /** Block cy of size bs starts below hb blocks: it is one of them and ends inside them. */
  lemma BlockBelow(cy: int, hb: int, bs: int)
    requires 0 <= cy && bs >= 1 && cy * bs < hb * bs
    ensures cy + 1 <= hb && (cy + 1) * bs == cy * bs + bs && cy * bs + bs <= hb * bs
  {
    if cy >= hb {
      MulMono(cy, hb, bs);
    }
    MulMono(hb, cy + 1, bs);
  }

  /** An index below n * d splits into a quotient below n and a remainder below d. */
  lemma SplitBelow(i: int, n: int, d: int)
    requires 0 <= i < n * d && n >= 0 && d >= 0
    ensures d > 0 && 0 <= i / d < n && 0 <= i % d < d && i == (i / d) * d + i % d
  {
    if i / d >= n {
      MulMono(i / d, n, d);
    }
  }

  /** The next multiple of d. */
  lemma MulSucc(a: int, d: int)
    ensures (a + 1) * d == a * d + d
  {
  }
}
