/** The bech32 checksum of the dashboard: `polymod` over JavaScript's 32-bit patterns. */
module Polymod {
  const GEN: seq<bv32> := [0x3b6a57b2, 0x26508e6d, 0x1ea119fa, 0x3d4233dd, 0x2a1462b3]

  // ---- exclusive or as a group; proofs below use these laws and hide the bits ----

  function Xor(a: bv32, b: bv32): bv32 { a ^ b }

  lemma XorAssoc(a: bv32, b: bv32, c: bv32)
    ensures Xor(Xor(a, b), c) == Xor(a, Xor(b, c))
  {}

  lemma XorComm(a: bv32, b: bv32)
    ensures Xor(a, b) == Xor(b, a)
  {}

  lemma XorZero(a: bv32)
    ensures Xor(a, a) == 0 && Xor(a, 0) == a && Xor(0, a) == a
  {}

  lemma XorSwap(a: bv32, b: bv32, x: bv32, y: bv32)
    ensures Xor(Xor(a, x), Xor(b, y)) == Xor(Xor(a, b), Xor(x, y))
  {
    hide Xor;
    calc {
      Xor(Xor(a, x), Xor(b, y));
      { XorAssoc(a, x, Xor(b, y)); XorAssoc(x, b, y); XorComm(x, b); }
      Xor(a, Xor(Xor(b, x), y));
      { XorAssoc(b, x, y); XorAssoc(a, b, Xor(x, y)); }
      Xor(Xor(a, b), Xor(x, y));
    }
  }

  // ---- one step ----

  /** JavaScript's `x >> n`: the sign bit is copied in from the left. */
  function SignedShift(x: bv32, n: nat): bv32
    requires n < 32
  {
    if x & 0x8000_0000 == 0 then x >> n else (x >> n) | !(0xffff_ffff >> n)
  }

  /** `(top >> i) & 1` where `top = chk >> 25`. */
  predicate TopBit(chk: bv32, i: nat)
    requires i < 5
  {
    SignedShift(SignedShift(chk, 25), i) & 1 == 1
  }

  function Spread(chk: bv32): bv32 { (chk & 0x1ffffff) << 5 }

  function Shifted(chk: bv32, v: bv32): bv32 { Xor(Spread(chk), v) }

  function Sel(on: bool, g: bv32): bv32 { if on then g else 0 }

  /** The first n rounds of feedback applied to c. */
  function Mix(c: bv32, chk: bv32, n: nat): bv32
    requires n <= 5
  {
    if n == 0 then c else Xor(Mix(c, chk, n - 1), Sel(TopBit(chk, n - 1), GEN[n - 1]))
  }

  function Step(chk: bv32, v: bv32): bv32 { Mix(Shifted(chk, v), chk, 5) }

  // ---- a step is linear ----

  predicate BitAt(x: bv32, i: nat)
    requires i < 5
  {
    match i
    case 0 => (x >> 25) & 1 == 1
    case 1 => (x >> 26) & 1 == 1
    case 2 => (x >> 27) & 1 == 1
    case 3 => (x >> 28) & 1 == 1
    case _ => (x >> 29) & 1 == 1
  }

  /** The sign bits copied in by both shifts never reach the five bits that are inspected. */
  lemma TopBitIsBit(x: bv32, i: nat)
    requires i < 5
    ensures TopBit(x, i) == BitAt(x, i)
  {
    match i case 0 => case 1 => case 2 => case 3 => case _ => assert i == 4;
  }

  lemma BitAtXor(a: bv32, b: bv32, i: nat)
    requires i < 5
    ensures BitAt(a ^ b, i) == (BitAt(a, i) != BitAt(b, i))
  {}

  lemma TopBitXor(a: bv32, b: bv32, i: nat)
    requires i < 5
    ensures TopBit(Xor(a, b), i) == (TopBit(a, i) != TopBit(b, i))
  {
    TopBitIsBit(a, i);
    TopBitIsBit(b, i);
    TopBitIsBit(a ^ b, i);
    BitAtXor(a, b, i);
  }

  lemma SelXor(s: bool, t: bool, g: bv32)
    ensures Sel(s != t, g) == Xor(Sel(s, g), Sel(t, g))
  {
    XorZero(g);
  }

  lemma SpreadXor(a: bv32, b: bv32)
    ensures Spread(Xor(a, b)) == Xor(Spread(a), Spread(b))
  {}

  lemma ShiftedXor(a: bv32, b: bv32, v: bv32, w: bv32)
    ensures Shifted(Xor(a, b), Xor(v, w)) == Xor(Shifted(a, v), Shifted(b, w))
  {
    hide Xor, Spread;
    SpreadXor(a, b);
    XorSwap(Spread(a), Spread(b), v, w);
  }

  lemma {:induction false} MixXor(c: bv32, d: bv32, a: bv32, b: bv32, n: nat)
    requires n <= 5
    ensures Mix(Xor(c, d), Xor(a, b), n) == Xor(Mix(c, a, n), Mix(d, b, n))
  {
    hide Xor, Sel, TopBit;
    if n > 0 {
      var s, t, g := TopBit(a, n - 1), TopBit(b, n - 1), GEN[n - 1];
      MixXor(c, d, a, b, n - 1);
      TopBitXor(a, b, n - 1);
      SelXor(s, t, g);
      XorSwap(Mix(c, a, n - 1), Mix(d, b, n - 1), Sel(s, g), Sel(t, g));
    }
  }

  lemma StepXor(a: bv32, b: bv32, v: bv32, w: bv32)
    ensures Step(Xor(a, b), Xor(v, w)) == Xor(Step(a, v), Step(b, w))
  {
    hide Xor, Mix, Shifted;
    ShiftedXor(a, b, v, w);
    MixXor(Shifted(a, v), Shifted(b, w), a, b, 5);
  }

  // ---- a step written out, for the facts that are about its bits ----

  function Unrolled(x: bv32, c: bv32): bv32 {
    Xor(Xor(Xor(Xor(Xor(c, Sel(BitAt(x, 0), 0x3b6a57b2)), Sel(BitAt(x, 1), 0x26508e6d)),
      Sel(BitAt(x, 2), 0x1ea119fa)), Sel(BitAt(x, 3), 0x3d4233dd)), Sel(BitAt(x, 4), 0x2a1462b3))
  }

  lemma StepUnrolled(chk: bv32, v: bv32)
    ensures Step(chk, v) == Unrolled(chk, Shifted(chk, v))
  {
    hide Xor, Sel, TopBit, BitAt, Shifted;
    var c := Shifted(chk, v);
    TopBitIsBit(chk, 0);
    TopBitIsBit(chk, 1);
    TopBitIsBit(chk, 2);
    TopBitIsBit(chk, 3);
    TopBitIsBit(chk, 4);
    assert Mix(c, chk, 1) == Xor(c, Sel(BitAt(chk, 0), 0x3b6a57b2));
    assert Mix(c, chk, 3) ==
      Xor(Xor(Mix(c, chk, 1), Sel(BitAt(chk, 1), 0x26508e6d)), Sel(BitAt(chk, 2), 0x1ea119fa));
    assert Mix(c, chk, 4) == Xor(Mix(c, chk, 3), Sel(BitAt(chk, 3), 0x3d4233dd));
  }

  function Low(y: bv32): bv32 { y & 31 }

  lemma LowXor(a: bv32, b: bv32)
    ensures Low(Xor(a, b)) == Xor(Low(a), Low(b))
  {}

  lemma LowSel(on: bool, g: bv32)
    ensures Low(Sel(on, g)) == Sel(on, Low(g))
  {}

  /** The low symbols of the five generators are independent. */
  lemma GeneratorsIndependent(b0: bool, b1: bool, b2: bool, b3: bool, b4: bool)
    requires b0 || b1 || b2 || b3 || b4
    ensures Xor(Xor(Xor(Xor(Xor(0, Sel(b0, Low(0x3b6a57b2))), Sel(b1, Low(0x26508e6d))), Sel(b2, Low(0x1ea119fa))),
      Sel(b3, Low(0x3d4233dd))), Sel(b4, Low(0x2a1462b3))) != 0
  {}

  lemma LowUnrolled(x: bv32, c: bv32)
    ensures Low(Unrolled(x, c)) ==
      Xor(Xor(Xor(Xor(Xor(Low(c), Sel(BitAt(x, 0), Low(0x3b6a57b2))), Sel(BitAt(x, 1), Low(0x26508e6d))),
        Sel(BitAt(x, 2), Low(0x1ea119fa))), Sel(BitAt(x, 3), Low(0x3d4233dd))), Sel(BitAt(x, 4), Low(0x2a1462b3)))
  {
    hide Xor, Sel, BitAt, Low;
    var s0, s1, s2 := Sel(BitAt(x, 0), 0x3b6a57b2), Sel(BitAt(x, 1), 0x26508e6d), Sel(BitAt(x, 2), 0x1ea119fa);
    var s3, s4 := Sel(BitAt(x, 3), 0x3d4233dd), Sel(BitAt(x, 4), 0x2a1462b3);
    LowSel(BitAt(x, 0), 0x3b6a57b2);
    LowSel(BitAt(x, 1), 0x26508e6d);
    LowSel(BitAt(x, 2), 0x1ea119fa);
    LowSel(BitAt(x, 3), 0x3d4233dd);
    LowSel(BitAt(x, 4), 0x2a1462b3);
    LowXor(c, s0);
    LowXor(Xor(c, s0), s1);
    LowXor(Xor(Xor(c, s0), s1), s2);
    LowXor(Xor(Xor(Xor(c, s0), s1), s2), s3);
    LowXor(Xor(Xor(Xor(Xor(c, s0), s1), s2), s3), s4);
  }

  lemma LowOfSpread(d: bv32)
    ensures Low(Xor(Spread(d), 0)) == 0
    ensures Low(0) == 0
  {}

  lemma NoTopBits(d: bv32)
    requires d < 0x4000_0000 && !BitAt(d, 0) && !BitAt(d, 1) && !BitAt(d, 2) && !BitAt(d, 3) && !BitAt(d, 4)
    ensures d < 0x200_0000
  {}

  lemma UpNonzero(d: bv32)
    requires d < 0x200_0000 && d != 0
    ensures Up(d) != 0
  {}

  /** Feeding a zero never makes a nonzero difference vanish. */
  lemma StepInjective(d: bv32)
    requires d < 0x4000_0000 && d != 0
    ensures Step(d, 0) != 0
  {
    hide Step, Xor, Sel, BitAt, Low, Spread, Up;
    if BitAt(d, 0) || BitAt(d, 1) || BitAt(d, 2) || BitAt(d, 3) || BitAt(d, 4) {
      StepUnrolled(d, 0);
      LowUnrolled(d, Shifted(d, 0));
      LowOfSpread(d);
      GeneratorsIndependent(BitAt(d, 0), BitAt(d, 1), BitAt(d, 2), BitAt(d, 3), BitAt(d, 4));
    } else {
      NoTopBits(d);
      StepSmall(d, 0);
      UpNonzero(d);
      XorZero(Up(d));
    }
  }

  lemma UnrolledBound(d: bv32, c: bv32)
    requires c < 0x4000_0000
    ensures Unrolled(d, c) < 0x4000_0000
  {}

  lemma ShiftedBound(d: bv32, v: bv32)
    requires v < 0x4000_0000
    ensures Shifted(d, v) < 0x4000_0000
  {}

  /** The register stays a 30-bit word, so it never turns negative in 32-bit arithmetic. */
  lemma StepBound(chk: bv32, v: bv32)
    requires v < 0x4000_0000
    ensures Step(chk, v) < 0x4000_0000
  {
    hide Unrolled, Shifted, Step;
    StepUnrolled(chk, v);
    ShiftedBound(chk, v);
    UnrolledBound(chk, Shifted(chk, v));
  }

  lemma SmallBits(x: bv32, i: nat)
    requires x < 0x200_0000 && i < 5
    ensures !TopBit(x, i)
  {
    TopBitIsBit(x, i);
  }

  lemma {:induction false} SmallMix(c: bv32, x: bv32, n: nat)
    requires x < 0x200_0000 && n <= 5
    ensures Mix(c, x, n) == c
  {
    hide Xor, TopBit;
    if n > 0 {
      SmallMix(c, x, n - 1);
      SmallBits(x, n - 1);
      XorZero(c);
    }
  }

  function Up(x: bv32): bv32 { x << 5 }

  lemma SmallSpread(x: bv32)
    requires x < 0x200_0000
    ensures Spread(x) == Up(x)
  {}

  /** While the top five bits are clear a step only appends its symbol. */
  lemma StepSmall(x: bv32, v: bv32)
    requires x < 0x200_0000
    ensures Step(x, v) == Xor(Up(x), v)
  {
    hide Xor, Spread, Up;
    SmallMix(Shifted(x, v), x, 5);
    SmallSpread(x);
  }

  // ---- whole sequences ----

  function Fold(chk: bv32, vs: seq<bv32>): bv32 {
    if vs == [] then chk else Step(Fold(chk, vs[..|vs| - 1]), vs[|vs| - 1])
  }

  function Zeros(n: nat): (z: seq<bv32>)
    ensures |z| == n
  {
    seq(n, i => 0)
  }

  ghost predicate IsXor(us: seq<bv32>, vs: seq<bv32>, ws: seq<bv32>) {
    |us| == |vs| == |ws| && forall i :: 0 <= i < |us| ==> ws[i] == Xor(us[i], vs[i])
  }

  /** Linearity: the checksum of a difference is the difference of the checksums. */
  lemma {:induction false} FoldXor(a: bv32, b: bv32, us: seq<bv32>, vs: seq<bv32>, ws: seq<bv32>)
    requires IsXor(us, vs, ws)
    ensures Fold(Xor(a, b), ws) == Xor(Fold(a, us), Fold(b, vs))
  {
    hide Xor, Step;
    if ws != [] {
      var n := |ws| - 1;
      FoldXor(a, b, us[..n], vs[..n], ws[..n]);
      StepXor(Fold(a, us[..n]), Fold(b, vs[..n]), us[n], vs[n]);
    }
  }

  lemma {:induction false} FoldAppend(chk: bv32, us: seq<bv32>, vs: seq<bv32>)
    ensures Fold(chk, us + vs) == Fold(Fold(chk, us), vs)
  {
    hide Step;
    if vs == [] {
      assert us + vs == us;
    } else {
      FoldAppend(chk, us, vs[..|vs| - 1]);
      assert (us + vs)[..|us + vs| - 1] == us + vs[..|vs| - 1];
    }
  }

  lemma {:induction false} FoldBound(chk: bv32, vs: seq<bv32>)
    requires chk < 0x4000_0000 && forall i :: 0 <= i < |vs| ==> vs[i] < 0x4000_0000
    ensures Fold(chk, vs) < 0x4000_0000
  {
    hide Step;
    if vs != [] {
      FoldBound(chk, vs[..|vs| - 1]);
      StepBound(Fold(chk, vs[..|vs| - 1]), vs[|vs| - 1]);
    }
  }

  lemma {:induction false} FoldKeepsNonzero(d: bv32, n: nat)
    requires d < 0x4000_0000 && d != 0
    ensures Fold(d, Zeros(n)) != 0
  {
    hide Step;
    if n > 0 {
      assert Zeros(n)[..n - 1] == Zeros(n - 1);
      FoldKeepsNonzero(d, n - 1);
      FoldBound(d, Zeros(n - 1));
      StepInjective(Fold(d, Zeros(n - 1)));
    }
  }

  lemma {:induction false} FoldOfZeros(n: nat)
    ensures Fold(0, Zeros(n)) == 0
  {
    hide Step;
    if n > 0 {
      assert Zeros(n)[..n - 1] == Zeros(n - 1);
      FoldOfZeros(n - 1);
      StepSmall(0, 0);
    }
  }

  // ---- the six checksum symbols ----

  function ChecksumSymbol(m: bv32, i: nat): (c: bv32)
    requires i < 6
    ensures c < 32
  {
    SignedShift(m, 5 * (5 - i)) & 31
  }

  function ChecksumSymbols(m: bv32): (cs: seq<bv32>)
    ensures |cs| == 6 && forall i :: 0 <= i < 6 ==> cs[i] < 32
  {
    seq(6, i requires 0 <= i < 6 => ChecksumSymbol(m, i))
  }

  function Down(y: bv32): bv32 { y >> 5 }

  /** What is left of m once its n lowest symbols are dropped. */
  function Drop(m: bv32, n: nat): bv32 {
    if n == 0 then m else Down(Drop(m, n - 1))
  }

  lemma Shift10(m: bv32)
    ensures Down(m >> 5) == m >> 10
  {}

  lemma Shift15(m: bv32)
    ensures Down(m >> 10) == m >> 15
  {}

  lemma Shift20(m: bv32)
    ensures Down(m >> 15) == m >> 20
  {}

  lemma Shift25(m: bv32)
    ensures Down(m >> 20) == m >> 25
    ensures m < 0x4000_0000 ==> Down(m >> 25) == 0
  {}

  lemma Shift5(m: bv32)
    ensures Down(m) == m >> 5
  {}

  lemma DropIsShift(m: bv32)
    ensures Drop(m, 1) == m >> 5 && Drop(m, 2) == m >> 10 && Drop(m, 3) == m >> 15
    ensures Drop(m, 4) == m >> 20 && Drop(m, 5) == m >> 25
    ensures m < 0x4000_0000 ==> Drop(m, 6) == 0
  {
    hide Down;
    Shift5(m);
    Shift10(m);
    Shift15(m);
    Shift20(m);
    Shift25(m);
    assert Drop(m, 1) == Down(Drop(m, 0));
    assert Drop(m, 2) == Down(Drop(m, 1));
    assert Drop(m, 3) == Down(Drop(m, 2));
    assert Drop(m, 4) == Down(Drop(m, 3));
    assert Drop(m, 5) == Down(Drop(m, 4));
  }

  lemma SymbolIsShift(m: bv32, i: nat)
    requires m < 0x4000_0000 && i < 6
    ensures i == 0 ==> ChecksumSymbol(m, i) == (m >> 25) & 31
    ensures i == 1 ==> ChecksumSymbol(m, i) == (m >> 20) & 31
    ensures i == 2 ==> ChecksumSymbol(m, i) == (m >> 15) & 31
    ensures i == 3 ==> ChecksumSymbol(m, i) == (m >> 10) & 31
    ensures i == 4 ==> ChecksumSymbol(m, i) == (m >> 5) & 31
    ensures i == 5 ==> ChecksumSymbol(m, i) == m & 31
  {
    match i case 0 => case 1 => case 2 => case 3 => case 4 => case _ => assert i == 5;
  }

  lemma SymbolIsLow(m: bv32, i: nat)
    requires m < 0x4000_0000 && i < 6
    ensures ChecksumSymbol(m, i) == Low(Drop(m, 5 - i))
  {
    hide ChecksumSymbol, Down;
    SymbolIsShift(m, i);
    DropIsShift(m);
  }

  lemma AppendLow(y: bv32)
    ensures Xor(Up(Down(y)), Low(y)) == y
  {}

  lemma DownSmall(y: bv32)
    requires y < 0x4000_0000
    ensures Down(y) < 0x200_0000
  {}

  lemma {:induction false} DropBound(m: bv32, n: nat)
    requires m < 0x4000_0000
    ensures Drop(m, n) < 0x4000_0000
  {
    hide Down;
    if n > 0 {
      DropBound(m, n - 1);
      DownSmall(Drop(m, n - 1));
    }
  }

  /** From a zero register the six symbols of m spell m again. */
  lemma {:induction false} FoldOfSymbols(m: bv32, cs: seq<bv32>, n: nat)
    requires m < 0x4000_0000 && n <= 6 && cs == ChecksumSymbols(m)
    ensures Fold(0, cs[..n]) == Drop(m, 6 - n)
  {
    hide Xor, Step, Low, Up, Down, ChecksumSymbol;
    if n == 0 {
      DropIsShift(m);
    } else {
      var y := Drop(m, 6 - n);
      FoldOfSymbols(m, cs, n - 1);
      assert cs[..n][..n - 1] == cs[..n - 1];
      SymbolIsLow(m, n - 1);
      DropBound(m, 6 - n);
      DownSmall(y);
      StepSmall(Down(y), cs[n - 1]);
      AppendLow(y);
    }
  }

  /** The words of a prefix and payload followed by their checksum fold to 1. */
  lemma ChecksumSound(vs: seq<bv32>)
    requires forall i :: 0 <= i < |vs| ==> vs[i] < 0x4000_0000
    ensures Fold(1, vs + ChecksumSymbols(Xor(Fold(1, vs + Zeros(6)), 1))) == 1
  {
    hide Step, Xor, ChecksumSymbol;
    var p := Fold(1, vs + Zeros(6));
    var m := Xor(p, 1);
    var cs := ChecksumSymbols(m);
    FoldBound(1, vs + Zeros(6));
    FlipBound(p);
    FoldOfSymbols(m, cs, 6);
    assert cs[..6] == cs;
    FoldAppend(1, vs, Zeros(6));
    FoldAppend(1, vs, cs);
    var c := Fold(1, vs);
    XorZeros(cs);
    FoldXor(c, 0, Zeros(6), cs, cs);
    XorZero(c);
    XorAssoc(p, p, 1);
    XorZero(p);
    XorZero(1);
  }

  lemma XorZeros(cs: seq<bv32>)
    ensures IsXor(Zeros(|cs|), cs, cs)
  {}

  lemma FlipBound(p: bv32)
    requires p < 0x4000_0000
    ensures Xor(p, 1) < 0x4000_0000
  {}

  /** Two word lists of one length that differ in a single symbol never fold to the same register,
      however long they are. */
  lemma SingleDifference(c: bv32, us: seq<bv32>, vs: seq<bv32>, k: nat)
    requires k < |us| == |vs| && us[k] != vs[k]
    requires us[k] < 0x4000_0000 && vs[k] < 0x4000_0000
    requires forall i :: 0 <= i < |us| && i != k ==> us[i] == vs[i]
    ensures Fold(c, us) != Fold(c, vs)
  {
    hide Xor, Fold, Zeros;
    DifferenceOfFolds(c, us, vs, k);
    DifferenceNonzero(us[k], vs[k]);
    LoneSymbol(Xor(us[k], vs[k]), k, |us| - k - 1);
    XorZero(Fold(c, us));
  }

  /** The registers differ by what the difference of the symbols leaves of a zero one. */
  lemma DifferenceOfFolds(c: bv32, us: seq<bv32>, vs: seq<bv32>, k: nat)
    requires k < |us| == |vs| && forall i :: 0 <= i < |us| && i != k ==> us[i] == vs[i]
    ensures Xor(Fold(c, us), Fold(c, vs)) == Fold(0, Zeros(k) + [Xor(us[k], vs[k])] + Zeros(|us| - k - 1))
  {
    hide Xor, Fold;
    var ws := Zeros(k) + [Xor(us[k], vs[k])] + Zeros(|us| - k - 1);
    forall i | 0 <= i < |us|
      ensures ws[i] == Xor(us[i], vs[i])
    {
      XorZero(us[i]);
    }
    FoldXor(c, c, us, vs, ws);
    XorZero(c);
  }

  /** One nonzero symbol among zeros leaves a nonzero register. */
  lemma LoneSymbol(d: bv32, before: nat, after: nat)
    requires 0 != d < 0x4000_0000
    ensures Fold(0, Zeros(before) + [d] + Zeros(after)) != 0
  {
    hide Step;
    FoldAppend(0, Zeros(before) + [d], Zeros(after));
    assert (Zeros(before) + [d])[..before] == Zeros(before);
    FoldOfZeros(before);
    StepFromZero(d);
    FoldKeepsNonzero(d, after);
  }

  lemma StepFromZero(d: bv32)
    ensures Step(0, d) == d
  {
    hide Step;
    StepSmall(0, d);
  }

  lemma DifferenceNonzero(a: bv32, b: bv32)
    requires a < 0x4000_0000 && b < 0x4000_0000 && a != b
    ensures 0 != Xor(a, b) < 0x4000_0000
  {}

  /** The loops of the source. */
  method Compute(values: seq<bv32>) returns (chk: bv32)
    ensures chk == Fold(1, values)
  {
    hide Sel, Xor, SignedShift, Spread;
    chk := 1;
    for k := 0 to |values|
      invariant chk == Fold(1, values[..k])
    {
      var v := values[k];
      assert values[..k + 1][..k] == values[..k];
      var before := chk;
      var top := SignedShift(chk, 25);
      ShiftedIs(chk, v);
      chk := ((chk & 0x1ffffff) << 5) ^ v;
      for i := 0 to 5
        invariant chk == Mix(Shifted(before, v), before, i)
      {
        GateIsSel(chk, TopBit(before, i), GEN[i]);
        if SignedShift(top, i) & 1 == 1 {
          chk := chk ^ GEN[i];
        }
      }
    }
    assert values[..|values|] == values;
  }

  lemma ShiftedIs(chk: bv32, v: bv32)
    ensures Shifted(chk, v) == ((chk & 0x1ffffff) << 5) ^ v
  {}

  lemma XorIs(a: bv32, b: bv32)
    ensures Xor(a, b) == a ^ b
  {}

  lemma GateIsSel(c: bv32, on: bool, g: bv32)
    ensures Xor(c, Sel(on, g)) == if on then c ^ g else c
  {
    hide Xor;
    XorIs(c, g);
    XorZero(c);
  }
}
