/** JavaScript's 32-bit operators on numbers: every operand is first reduced to 32 bits. */
module JsInt32 {
  import opened Digits

  const TWO32: int := 0x1_0000_0000

  function Unsigned(x: int): nat { x % TWO32 }

  function ToInt32(x: int): int {
    if x % TWO32 < 0x8000_0000 then x % TWO32 else x % TWO32 - TWO32
  }

  function Shl(x: int, n: nat): int
    requires n < 32
  {
    ToInt32(x * Pow2(n))
  }

  /** Sign-propagating shift: floor division of the signed value. */
  function Sar(x: int, n: nat): int
    requires n < 32
  {
    ToInt32(x) / Pow2(n)
  }

  /** `x & (2^n - 1)`: the n lowest bits of the two's complement pattern. */
  function MaskLow(x: int, n: nat): nat
    requires n < 32
  {
    ToInt32(x) % Pow2(n)
  }

  /** Bitwise or of the n lowest bits of two naturals. */
  function OrBits(x: nat, y: nat, n: nat): nat {
    if n == 0 then 0
    else (if x % 2 == 1 || y % 2 == 1 then 1 else 0) + 2 * OrBits(x / 2, y / 2, n - 1)
  }

  function Or(x: int, y: int): int {
    ToInt32(OrBits(Unsigned(x), Unsigned(y), 32))
  }

  lemma {:induction false} OrDisjoint(x: nat, y: nat, k: nat, n: nat)
    requires k <= n && x < Pow2(n) && y < Pow2(k) && x % Pow2(k) == 0
    ensures OrBits(x, y, n) == x + y
  {
    if n == 0 {
    } else if k == 0 {
      OrDisjoint(x / 2, 0, 0, n - 1);
    } else {
      var p, q := Pow2(k - 1), x / Pow2(k);
      assert x == 2 * (p * q);
      DivModUnique(x / 2, p, q, 0);
      OrDisjoint(x / 2, y / 2, k - 1, n - 1);
    }
  }

  lemma Powers()
    ensures Pow2(5) == 32 && Pow2(8) == 256 && Pow2(32) == TWO32
  {
    assert Pow2(8) == 256;
    Pow2Add(8, 8);
    Pow2Add(16, 16);
  }

  /** Shifting left by a byte and or-ing one in is multiply-and-add, up to wrap-around. */
  lemma ShiftInByte(acc: int, v: int)
    requires 0 <= v < 256
    ensures Or(Shl(acc, 8), v) == ToInt32(acc * 256 + v)
  {
    var u := (acc * 256) % TWO32;
    assert Pow2(8) == 256 && Pow2(32) == TWO32 by { Powers(); }
    LowByteClear(acc, v);
    OrDisjoint(u, v, 8, 32);
    Reduced(acc * 256);
    Reduced(v);
    assert Shl(acc, 8) == ToInt32(acc * 256);
  }

  lemma Reduced(x: int)
    ensures Unsigned(ToInt32(x)) == x % TWO32
    ensures 0 <= x < 256 ==> Unsigned(x) == x
  {}

  lemma LowByteClear(acc: int, v: int)
    requires 0 <= v < 256
    ensures (acc * 256) % TWO32 % 256 == 0
    ensures ToInt32((acc * 256) % TWO32 + v) == ToInt32(acc * 256 + v)
  {
    var q := (acc * 256) / TWO32;
    assert acc * 256 == q * TWO32 + (acc * 256) % TWO32;
  }
}
