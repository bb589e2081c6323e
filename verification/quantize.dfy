/** gradQuantize: the orientation bin and the interpolation weights of every pixel of a column.

    An orientation O in [0, pi) is scaled to o = O * n_orients / pi. Its bin o0 = (int) o and the
    next bin o1 (cyclically: after the last bin comes bin 0) receive the magnitude M * norm split
    linearly: M1 = (o - o0) * M * norm goes to o1 and the rest M0 to o0. Bins are returned as
    offsets into the histogram, already multiplied by the plane size nb. */
module Quantization {
  import opened Numeric

  /** The two target offsets and the two shares of one pixel. */
  datatype QBin = QBin(o0: int, o1: int, m0: real, m1: real)

  /** The scalar path (the trailing pixels of a column). */
  function Quantize(o: real, m: real, nOrients: nat, nb: nat, norm: real): (q: QBin)
    ensures q.m0 + q.m1 == m * norm
    ensures q.o1 == q.o0 + nb || q.o1 == 0
  {
    var ov := o * (nOrients as real / Pi);
    var mv := m * norm;
    var b := Trunc(ov);
    var od := ov - b as real;
    var o0 := b * nb;
    var o1 := if o0 + nb == nOrients * nb then 0 else o0 + nb;
    QBin(o0, o1, mv - od * mv, od * mv)
  }

  /** The four-lane path (all pixels of a column but the last n % 4): the same, except that the
      next bin wraps to 0 whenever it is not below n_orients * nb. */
  function QuantizeSse(o: real, m: real, nOrients: nat, nb: nat, norm: real): (q: QBin)
    ensures q.m0 + q.m1 == m * norm
    ensures q.o1 == q.o0 + nb || q.o1 == 0
  {
    var ov := o * (nOrients as real / Pi);
    var mv := m * norm;
    var b := Trunc(ov);
    var od := ov - b as real;
    var o0 := b * nb;
    var o1 := if nOrients * nb > o0 + nb then o0 + nb else 0;
    QBin(o0, o1, mv - od * mv, od * mv)
  }

  /** The bin of an orientation in [0, pi) is the k with k * pi <= O * n < (k + 1) * pi; both
      offsets are whole planes inside the histogram, and the second is the cyclically next bin. */
  lemma QuantizeBins(o: real, m: real, nOrients: nat, nb: nat, norm: real)
    requires 0.0 <= o < Pi && nOrients >= 1 && nb >= 1
    ensures var q := Quantize(o, m, nOrients, nb, norm);
      0 <= q.o0 < nOrients * nb && q.o0 % nb == 0 &&
      0 <= q.o1 < nOrients * nb && q.o1 % nb == 0 &&
      q.o1 / nb == (q.o0 / nb + 1) % nOrients &&
      (q.o0 / nb) as real * Pi <= o * nOrients as real < (q.o0 / nb + 1) as real * Pi
  {
    var b := BinOf(o, nOrients);
    OffsetOf(b, nOrients, nb);
  }

  /** The scaled orientation of an angle in [0, pi) truncates to the bin that holds it. */
  lemma BinOf(o: real, nOrients: nat) returns (b: int)
    requires 0.0 <= o < Pi && nOrients >= 1
    ensures b == Trunc(o * (nOrients as real / Pi)) && 0 <= b < nOrients
    ensures b as real * Pi <= o * nOrients as real < (b + 1) as real * Pi
  {
    var k := nOrients as real / Pi;
    var ov := o * k;
    assert ov * Pi == o * nOrients as real;
    assert 0.0 <= ov < nOrients as real by {
      assert o * k < Pi * k;
    }
    b := Trunc(ov);
    assert b as real <= ov < b as real + 1.0;
    assert b as real * Pi <= ov * Pi;
    assert ov * Pi < (b as real + 1.0) * Pi;
  }

  /** Bin b and its cyclic successor as plane offsets. */
  lemma OffsetOf(b: int, nOrients: nat, nb: nat)
    requires 0 <= b < nOrients && nb >= 1
    ensures 0 <= b * nb < nOrients * nb && (b * nb) % nb == 0 && (b * nb) / nb == b
    ensures var o1 := if b * nb + nb == nOrients * nb then 0 else b * nb + nb;
      0 <= o1 < nOrients * nb && o1 % nb == 0 && o1 / nb == (b + 1) % nOrients
  {
    DivModUnique(b * nb, nb, b, 0);
    MulMono(nOrients - 1, b, nb);
    assert b * nb + nb == (b + 1) * nb;
    if b + 1 < nOrients {
      MulMono(nOrients - 1, b + 1, nb);
      DivModUnique((b + 1) * nb, nb, b + 1, 0);
      DivModUnique(b + 1, nOrients, 0, b + 1);
    } else {
      DivModUnique(b + 1, nOrients, 1, 0);
    }
  }

  /** With a non-negative magnitude and norm both shares are non-negative, and neither exceeds
      the scaled magnitude. */
  lemma QuantizeShares(o: real, m: real, nOrients: nat, nb: nat, norm: real)
    requires 0.0 <= o && 0.0 <= m && 0.0 <= norm
    ensures var q := Quantize(o, m, nOrients, nb, norm);
      0.0 <= q.m0 && 0.0 <= q.m1 <= m * norm
  {
    var ov := o * (nOrients as real / Pi);
    var mv := m * norm;
    assert 0.0 <= mv;
    assert 0.0 <= ov;
    var od := ov - Trunc(ov) as real;
    assert 0.0 <= od < 1.0;
    assert 0.0 <= od * mv;
    assert mv - od * mv == (1.0 - od) * mv;
    MulNonNeg(1.0 - od, mv);
  }

  /** For every orientation in [0, pi) both paths give the same result: the offset o0 + nb never
      exceeds n_orients * nb, so "not below" and "equal" wrap the same pixels. */
  lemma SseAgrees(o: real, m: real, nOrients: nat, nb: nat, norm: real)
    requires 0.0 <= o < Pi && nOrients >= 1 && nb >= 1
    ensures QuantizeSse(o, m, nOrients, nb, norm) == Quantize(o, m, nOrients, nb, norm)
  {
    var b := BinOf(o, nOrients);
    MulMono(nOrients - 1, b, nb);
    assert b * nb + nb <= nOrients * nb;
  }

  /** Number of pixels of a column of n that the four-lane loop handles. */
  function SseSpan(n: nat): (k: nat)
    ensures k <= n && k % 4 == 0 && n - k < 4
  {
    n - n % 4
  }

  /** What gradQuantize writes for pixel i of a column of n pixels. */
  function QuantizeAt(o: real, m: real, i: nat, n: nat, nOrients: nat, nb: nat, norm: real): QBin
  {
    if i < SseSpan(n) then QuantizeSse(o, m, nOrients, nb, norm) else Quantize(o, m, nOrients, nb, norm)
  }

  /** gradQuantize on the column of n pixels that starts at offset col of O and M: four pixels at
      a time as long as four remain, then one at a time. */
  method GradQuantize(O: array<real>, M: array<real>, col: nat, O0: array<int>, O1: array<int>,
                      M0: array<real>, M1: array<real>, nOrients: nat, nb: nat, n: nat, norm: real)
    requires col + n <= O.Length && col + n <= M.Length
    requires n <= O0.Length && n <= O1.Length && n <= M0.Length && n <= M1.Length
    requires O0 != O1 && M0 != M1 && M0 != O && M0 != M && M1 != O && M1 != M
    modifies O0, O1, M0, M1
    ensures forall i :: 0 <= i < n ==>
      var q := QuantizeAt(O[col + i], M[col + i], i, n, nOrients, nb, norm);
      O0[i] == q.o0 && O1[i] == q.o1 && M0[i] == q.m0 && M1[i] == q.m1
  {
    ghost var os, ms := O[..], M[..];
    var i := QuantizeLanes(O, M, os, ms, col, O0, O1, M0, M1, nOrients, nb, n, norm);
    QuantizeTail(O, M, os, ms, col, i, O0, O1, M0, M1, nOrients, nb, n, norm);
  }

  /** The four-lane loop: pixels 0 .. SseSpan(n) - 1. */
  method QuantizeLanes(O: array<real>, M: array<real>, ghost os: seq<real>, ghost ms: seq<real>, col: nat,
                       O0: array<int>, O1: array<int>, M0: array<real>, M1: array<real>,
                       nOrients: nat, nb: nat, n: nat, norm: real) returns (i: nat)
    requires O[..] == os && M[..] == ms
    requires col + n <= O.Length && col + n <= M.Length
    requires n <= O0.Length && n <= O1.Length && n <= M0.Length && n <= M1.Length
    requires O0 != O1 && M0 != M1 && M0 != O && M0 != M && M1 != O && M1 != M
    modifies O0, O1, M0, M1
    ensures i == SseSpan(n)
    ensures forall k :: 0 <= k < i ==>
      var q := QuantizeAt(os[col + k], ms[col + k], k, n, nOrients, nb, norm);
      O0[k] == q.o0 && O1[k] == q.o1 && M0[k] == q.m0 && M1[k] == q.m1
  {
    i := 0;
    while i + 4 <= n
      invariant i <= n && i % 4 == 0 && i <= SseSpan(n)
      invariant O[..] == os && M[..] == ms
      invariant forall k :: 0 <= k < i ==>
        var q := QuantizeAt(os[col + k], ms[col + k], k, n, nOrients, nb, norm);
        O0[k] == q.o0 && O1[k] == q.o1 && M0[k] == q.m0 && M1[k] == q.m1
    {
      QuantizeFour(O, M, os, ms, col, i, O0, O1, M0, M1, nOrients, nb, n, norm);
      i := i + 4;
    }
  }

  /** One step of the four-lane loop: pixels i .. i + 3. */
  method QuantizeFour(O: array<real>, M: array<real>, ghost os: seq<real>, ghost ms: seq<real>, col: nat, i: nat,
                      O0: array<int>, O1: array<int>, M0: array<real>, M1: array<real>,
                      nOrients: nat, nb: nat, n: nat, norm: real)
    requires O[..] == os && M[..] == ms && i + 4 <= SseSpan(n)
    requires col + n <= O.Length && col + n <= M.Length
    requires n <= O0.Length && n <= O1.Length && n <= M0.Length && n <= M1.Length
    requires O0 != O1 && M0 != M1 && M0 != O && M0 != M && M1 != O && M1 != M
    requires forall k :: 0 <= k < i ==>
      var q := QuantizeAt(os[col + k], ms[col + k], k, n, nOrients, nb, norm);
      O0[k] == q.o0 && O1[k] == q.o1 && M0[k] == q.m0 && M1[k] == q.m1
    modifies O0, O1, M0, M1
    ensures O[..] == os && M[..] == ms
    ensures forall k :: 0 <= k < i + 4 ==>
      var q := QuantizeAt(os[col + k], ms[col + k], k, n, nOrients, nb, norm);
      O0[k] == q.o0 && O1[k] == q.o1 && M0[k] == q.m0 && M1[k] == q.m1
  {
    for lane := 0 to 4
      invariant O[..] == os && M[..] == ms
      invariant forall k :: 0 <= k < i + lane ==>
        var q := QuantizeAt(os[col + k], ms[col + k], k, n, nOrients, nb, norm);
        O0[k] == q.o0 && O1[k] == q.o1 && M0[k] == q.m0 && M1[k] == q.m1
    {
      var q := QuantizeSse(O[col + i + lane], M[col + i + lane], nOrients, nb, norm);
      O0[i + lane], O1[i + lane] := q.o0, q.o1;
      M1[i + lane] := q.m1;
      M0[i + lane] := q.m0;
    }
  }

  /** The trailing loop: pixels i .. n - 1, one at a time. */
  method QuantizeTail(O: array<real>, M: array<real>, ghost os: seq<real>, ghost ms: seq<real>, col: nat, i0: nat,
                      O0: array<int>, O1: array<int>, M0: array<real>, M1: array<real>,
                      nOrients: nat, nb: nat, n: nat, norm: real)
    requires O[..] == os && M[..] == ms && i0 == SseSpan(n)
    requires col + n <= O.Length && col + n <= M.Length
    requires n <= O0.Length && n <= O1.Length && n <= M0.Length && n <= M1.Length
    requires O0 != O1 && M0 != M1 && M0 != O && M0 != M && M1 != O && M1 != M
    requires forall k :: 0 <= k < i0 ==>
      var q := QuantizeAt(os[col + k], ms[col + k], k, n, nOrients, nb, norm);
      O0[k] == q.o0 && O1[k] == q.o1 && M0[k] == q.m0 && M1[k] == q.m1
    modifies O0, O1, M0, M1
    ensures forall k :: 0 <= k < n ==>
      var q := QuantizeAt(O[col + k], M[col + k], k, n, nOrients, nb, norm);
      O0[k] == q.o0 && O1[k] == q.o1 && M0[k] == q.m0 && M1[k] == q.m1
  {
    var i := i0;
    while i < n
      invariant i0 <= i <= n
      invariant O[..] == os && M[..] == ms
      invariant forall k :: 0 <= k < i ==>
        var q := QuantizeAt(os[col + k], ms[col + k], k, n, nOrients, nb, norm);
        O0[k] == q.o0 && O1[k] == q.o1 && M0[k] == q.m0 && M1[k] == q.m1
    {
      var ov := O[col + i] * (nOrients as real / Pi);
      var mv := M[col + i] * norm;
      var b := Trunc(ov);
      var od := ov - b as real;
      var o0 := b * nb;
      var o1 := o0 + nb;
      if o1 == nOrients * nb {
        o1 := 0;
      }
      assert QBin(o0, o1, mv - od * mv, od * mv) == QuantizeAt(os[col + i], ms[col + i], i, n, nOrients, nb, norm);
      O0[i], O1[i] := o0, o1;
      M1[i] := od * mv;
      M0[i] := mv - M1[i];
      i := i + 1;
    }
  }
}
