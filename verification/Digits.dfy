/** Positional numbers: the value of a digit sequence and the digits of a value. */
module Digits {

  lemma MulAtLeast(d: int, t: int)
    requires d > 0 && t >= 1
    ensures d * t >= d
  {}

  lemma MulSub(d: int, a: int, b: int)
    ensures d * (a - b) == d * a - d * b
  {}

  lemma Fundamental(x: int, d: int)
    requires d > 0
    ensures x == d * (x / d) + x % d
    ensures 0 <= x % d < d
    ensures x >= 0 ==> x / d >= 0
  {}

  /** x / d and x % d are the only quotient and remainder. */
  lemma DivModUnique(x: int, d: int, q: int, r: int)
    requires 0 <= r < d && x == d * q + r
    ensures x / d == q && x % d == r
  {
    var e := x / d;
    Fundamental(x, d);
    if e > q {
      MulSub(d, e, q);
      MulAtLeast(d, e - q);
    } else if e < q {
      MulSub(d, q, e);
      MulAtLeast(d, q - e);
    }
  }

  function Pow2(n: nat): (p: nat)
    ensures p >= 1
  {
    if n == 0 then 1 else 2 * Pow2(n - 1)
  }

  lemma {:induction false} Pow2Add(m: nat, n: nat)
    ensures Pow2(m + n) == Pow2(m) * Pow2(n)
  {
    if m > 0 {
      Pow2Add(m - 1, n);
      assert Pow2(m + n) == 2 * Pow2(m - 1 + n);
    }
  }

  predicate AllBelow(ds: seq<int>, b: int) {
    forall i :: 0 <= i < |ds| ==> 0 <= ds[i] < b
  }

  /** The number the digits spell in base b, most significant digit first. */
  function FromDigits(b: nat, ds: seq<int>): int {
    if ds == [] then 0 else FromDigits(b, ds[..|ds| - 1]) * b + ds[|ds| - 1]
  }

  lemma BytePower(n: nat)
    ensures Pow2(n + 8) == Pow2(n) * 256
  {
    Pow2Add(n, 8);
    assert Pow2(8) == 256;
  }

  lemma {:induction false} BytesBound(bytes: seq<int>)
    requires AllBelow(bytes, 256)
    ensures 0 <= FromDigits(256, bytes) < Pow2(8 * |bytes|)
  {
    if bytes != [] {
      BytesBound(bytes[..|bytes| - 1]);
      BytePower(8 * (|bytes| - 1));
    }
  }

  /** The n lowest digits of v in base b, most significant first. */
  function ToDigits(b: nat, v: nat, n: nat): (ds: seq<int>)
    requires b > 0
    ensures |ds| == n && AllBelow(ds, b)
    decreases n
  {
    if n == 0 then []
    else
      Fundamental(v, b);
      ToDigits(b, v / b, n - 1) + [v % b]
  }

  lemma {:induction false} ToDigitsOfFromDigits(b: nat, ds: seq<int>)
    requires b > 0 && AllBelow(ds, b)
    ensures FromDigits(b, ds) >= 0
    ensures ToDigits(b, FromDigits(b, ds), |ds|) == ds
  {
    if ds != [] {
      var init, last := ds[..|ds| - 1], ds[|ds| - 1];
      ToDigitsOfFromDigits(b, init);
      DivModUnique(FromDigits(b, ds), b, FromDigits(b, init), last);
      assert ds == init + [last];
    }
  }
}
