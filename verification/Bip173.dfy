/** BIP-173, "Checksum", as its text and its test strings say it: what the encoder writes, told without
    the encoder's own constants. */
module Bip173 {
  import opened Digits
  import opened Polymod
  import opened Bech32

  // ---- GF(32) ----

  /** The product with x, modulo x^5 + x^3 + 1. */
  function TimesX(a: bv32): bv32 { ((a << 1) & 31) ^ (if a & 16 != 0 then 9 else 0) }

  function Term(a: bv32, bit: bool): bv32 { if bit then a else 0 }

  /** The product of two field elements: a times each power of x that occurs in b. */
  function Times(a: bv32, b: bv32): bv32 {
    Term(a, b & 1 != 0) ^ Term(TimesX(a), b & 2 != 0) ^ Term(TimesX(TimesX(a)), b & 4 != 0)
    ^ Term(TimesX(TimesX(TimesX(a))), b & 8 != 0) ^ Term(TimesX(TimesX(TimesX(TimesX(a)))), b & 16 != 0)
  }

  /** The coefficient of x^i in the polynomial a register stands for. */
  function Coefficient(c: bv32, i: nat): bv32
    requires i < 6
  {
    match i
    case 0 => c & 31
    case 1 => (c >> 5) & 31
    case 2 => (c >> 10) & 31
    case 3 => (c >> 15) & 31
    case 4 => (c >> 20) & 31
    case _ => (c >> 25) & 31
  }

  /** What the five top bits of a register add to the shifted one. */
  function Feedback(top: bv32): bv32 {
    Xor(Term(0x3b6a57b2, top & 1 != 0), Xor(Term(0x26508e6d, top & 2 != 0), Xor(Term(0x1ea119fa, top & 4 != 0),
      Xor(Term(0x3d4233dd, top & 8 != 0), Term(0x2a1462b3, top & 16 != 0)))))
  }

  lemma TopBits(c: bv32)
    ensures BitAt(c, 0) == (Coefficient(c, 5) & 1 != 0) && BitAt(c, 1) == (Coefficient(c, 5) & 2 != 0)
    ensures BitAt(c, 2) == (Coefficient(c, 5) & 4 != 0) && BitAt(c, 3) == (Coefficient(c, 5) & 8 != 0)
    ensures BitAt(c, 4) == (Coefficient(c, 5) & 16 != 0) && Coefficient(c, 5) < 32
  {}

  lemma SelIsTerm()
    ensures forall on, g :: Sel(on, g) == Term(g, on)
  {}

  lemma UnrolledIsFeedback(c: bv32, shifted: bv32)
    ensures Unrolled(c, shifted) == Xor(shifted, Feedback(Coefficient(c, 5)))
  {
    hide BitAt, Coefficient, Xor, Sel;
    SelIsTerm();
    TopBits(c);
    SumAfter(shifted, Sel(BitAt(c, 0), 0x3b6a57b2), Sel(BitAt(c, 1), 0x26508e6d), Sel(BitAt(c, 2), 0x1ea119fa),
      Sel(BitAt(c, 3), 0x3d4233dd), Sel(BitAt(c, 4), 0x2a1462b3));
  }

  lemma SumAfter(s: bv32, a: bv32, b: bv32, c: bv32, d: bv32, e: bv32)
    ensures Xor(Xor(Xor(Xor(Xor(s, a), b), c), d), e) == Xor(s, Xor(a, Xor(b, Xor(c, Xor(d, e)))))
  {
    hide Xor;
    XorAssoc(s, a, b);
    XorAssoc(s, Xor(a, b), c);
    XorAssoc(s, Xor(Xor(a, b), c), d);
    XorAssoc(s, Xor(Xor(Xor(a, b), c), d), e);
    XorAssoc(a, b, c);
    XorAssoc(a, Xor(b, c), d);
    XorAssoc(a, Xor(Xor(b, c), d), e);
    XorAssoc(b, c, d);
    XorAssoc(b, Xor(c, d), e);
    XorAssoc(c, d, e);
  }

  /** The five generator constants are the multiples of one polynomial. */
  lemma FeedbackIsProduct(top: bv32)
    requires top < 32
    ensures Coefficient(Feedback(top), 5) == Times(29, top) && Coefficient(Feedback(top), 4) == Times(22, top)
    ensures Coefficient(Feedback(top), 3) == Times(20, top) && Coefficient(Feedback(top), 2) == Times(21, top)
    ensures Coefficient(Feedback(top), 1) == Times(29, top) && Coefficient(Feedback(top), 0) == Times(18, top)
  {}

  lemma ShiftMovesUp(c: bv32, v: bv32)
    requires v < 32
    ensures Coefficient(Shifted(c, v), 0) == v && Coefficient(Shifted(c, v), 1) == Coefficient(c, 0)
    ensures Coefficient(Shifted(c, v), 2) == Coefficient(c, 1) && Coefficient(Shifted(c, v), 3) == Coefficient(c, 2)
    ensures Coefficient(Shifted(c, v), 4) == Coefficient(c, 3) && Coefficient(Shifted(c, v), 5) == Coefficient(c, 4)
  {}

  lemma CoefficientOfXor(a: bv32, b: bv32, i: nat)
    requires i < 6
    ensures Coefficient(Xor(a, b), i) == Xor(Coefficient(a, i), Coefficient(b, i))
  {
    match i case 0 => case 1 => case 2 => case 3 => case 4 => case _ => assert i == 5;
  }

  lemma CoefficientOfStep(c: bv32, v: bv32, i: nat)
    requires c < 0x4000_0000 && i < 6
    ensures Coefficient(Step(c, v), i) ==
      Xor(Coefficient(Shifted(c, v), i), Coefficient(Feedback(Coefficient(c, 5)), i))
  {
    hide Step, Xor, Shifted, Feedback, Coefficient, Unrolled;
    StepUnrolled(c, v);
    UnrolledIsFeedback(c, Shifted(c, v));
    CoefficientOfXor(Shifted(c, v), Feedback(Coefficient(c, 5)), i);
  }

  /** x^6 = 29x^5 + 22x^4 + 20x^3 + 21x^2 + 29x + 18. */
  function X6(i: nat): bv32
    requires i < 6
  {
    match i case 0 => 18 case 1 => 29 case 2 => 21 case 3 => 20 case 4 => 22 case _ => 29
  }

  lemma FeedbackAt(top: bv32, i: nat)
    requires top < 32 && i < 6
    ensures Coefficient(Feedback(top), i) == Times(X6(i), top)
  {
    match i
    case 0 => FeedbackIsProduct(top);
    case 1 => FeedbackIsProduct(top);
    case 2 => FeedbackIsProduct(top);
    case 3 => FeedbackIsProduct(top);
    case 4 => FeedbackIsProduct(top);
    case _ => FeedbackIsProduct(top);
  }

  lemma ShiftedAt(c: bv32, v: bv32, i: nat)
    requires v < 32 && i < 6
    ensures Coefficient(Shifted(c, v), i) == if i == 0 then v else Coefficient(c, i - 1)
  {
    hide Shifted, Coefficient;
    ShiftMovesUp(c, v);
  }

  /** One step multiplies by x, adds the symbol, and reduces by x^6 as above. */
  lemma StepIsPolynomial(c: bv32, v: bv32, i: nat)
    requires c < 0x4000_0000 && v < 32 && i < 6
    ensures Coefficient(Step(c, v), i) ==
      Xor(if i == 0 then v else Coefficient(c, i - 1), Times(X6(i), Coefficient(c, 5)))
  {
    hide Step, Xor, Shifted, Feedback, Coefficient, Times, X6;
    TopBits(c);
    CoefficientOfStep(c, v, i);
    ShiftedAt(c, v, i);
    FeedbackAt(Coefficient(c, 5), i);
  }

  lemma StepIsBelow(c: bv32, v: bv32)
    requires v < 32
    ensures Step(c, v) < 0x4000_0000
  {
    hide Step;
    StepBound(c, v);
  }

  // ---- the prefix ----

  /** The high bits of every code unit, a zero, the low bits of every code unit. */
  lemma PrefixExpanded(hrp: string, i: nat)
    requires i < |hrp|
    ensures |HrpExpand(hrp)| == 2 * |hrp| + 1 && HrpExpand(hrp)[|hrp|] == 0
    ensures HrpExpand(hrp)[i] == (hrp[i] as int as bv32) / 32
    ensures HrpExpand(hrp)[|hrp| + 1 + i] == (hrp[i] as int as bv32) % 32
  {
    Divided(hrp[i]);
  }

  lemma Divided(c: char)
    ensures HighBits(c) == (c as int as bv32) / 32 && LowBits(c) == (c as int as bv32) % 32
  {}

  // ---- the character set ----

  /** The symbols in order. */
  lemma CharacterSet()
    ensures Chars(seq(32, i => i)) == "qpzry9x8gf2tvdw0s3jn54khce6mua7l"
  {}

  // ---- a test string ----

  /** A register followed through a list of symbols. */
  lemma {:induction false} Follow(vs: seq<bv32>, registers: seq<bv32>, n: nat)
    requires n <= |vs| && |registers| == |vs| + 1
    requires forall i :: 0 <= i < |vs| ==> registers[i + 1] == Step(registers[i], vs[i])
    ensures Fold(registers[0], vs[..n]) == registers[n]
  {
    hide Step;
    if n > 0 {
      Follow(vs, registers, n - 1);
      assert vs[..n][..n - 1] == vs[..n - 1];
    }
  }

  /** From the register after prefix, words and six zeros to the string. */
  lemma SpelledWith(hrp: string, words: seq<int>, vs: seq<bv32>, m: bv32, cs: seq<bv32>)
    requires AllBelow(words, 32) && vs == HrpExpand(hrp) + Patterns(words) + Zeros(6)
    requires Xor(Fold(1, vs), 1) == m && ChecksumSymbols(m) == cs
    ensures Spell(hrp, words) == hrp + "1" + Chars(words + Integers(cs))
  {}

  const VALUES: seq<bv32> := [3, 0, 1, 0, 0, 0, 0, 0, 0]

  const REGISTERS: seq<bv32> := [
    1, 35, 1120, 35841, 1146912, 36701184, 1030412210, 50147513, 617365650, 365756062]

  lemma TraceA()
    ensures forall i :: 0 <= i < 9 ==> REGISTERS[i + 1] == Step(REGISTERS[i], VALUES[i])
  {
    hide Step;
    StepUnrolled(1, 3);
    StepUnrolled(35, 0);
    StepUnrolled(1120, 1);
    StepUnrolled(35841, 0);
    StepUnrolled(1146912, 0);
    StepUnrolled(36701184, 0);
    StepUnrolled(1030412210, 0);
    StepUnrolled(50147513, 0);
    StepUnrolled(617365650, 0);
  }

  /** A test string of BIP-173: a prefix and its checksum. */
  lemma SpellsA()
    ensures Spell("a", []) == "a12uel5l"
  {
    hide Step, Fold, Spell, ChecksumSymbols, HrpExpand, Integers, Chars;
    var cs: seq<bv32> := [10, 28, 25, 31, 20, 31];
    RegisterOfA();
    SymbolsOfA();
    WrittenSymbols(cs);
    SpelledWith("a", [], VALUES, 365756063, cs);
  }

  lemma RegisterOfA()
    ensures VALUES == HrpExpand("a") + Patterns([]) + Zeros(6) && Xor(Fold(1, VALUES), 1) == 365756063
  {
    hide Step, Fold, HrpExpand;
    TraceA();
    Follow(VALUES, REGISTERS, 9);
    UnitsOfA();
    assert VALUES[..9] == VALUES;
  }

  lemma WrittenSymbols(cs: seq<bv32>)
    requires cs == [10, 28, 25, 31, 20, 31]
    ensures "a" + "1" + Chars([] + Integers(cs)) == "a12uel5l"
  {}

  lemma UnitsOfA()
    ensures HrpExpand("a") == [3, 0, 1]
  {}

  lemma SymbolsOfA()
    ensures ChecksumSymbols(365756063) == [10, 28, 25, 31, 20, 31]
  {}
}
