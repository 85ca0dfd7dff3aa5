/** The dashboard's `convertBits(data, 8, 5)`: bytes regrouped into 5-bit words. */
module BitRegroup {
  import opened Digits
  import opened JsInt32
  import opened Wrappers

  function WordCount(n: nat): nat { (8 * n + 4) / 5 }

  function PadBits(n: nat): (p: nat)
    ensures p < 5 && 5 * WordCount(n) == 8 * n + p
  {
    5 * WordCount(n) - 8 * n
  }

  lemma ScaleBelow(v: int, bound: int, p: int)
    requires 0 <= v < bound && p > 0
    ensures 0 <= v * p < bound * p
    ensures v * p == p * v + 0
  {}

  lemma PaddedBound(v: nat, n: nat, pad: nat)
    requires v < Pow2(n)
    ensures 0 <= v * Pow2(pad) < Pow2(n + pad)
  {
    Pow2Add(n, pad);
    ScaleBelow(v, Pow2(n), Pow2(pad));
  }

  /** The bytes as one number, padded on the right with zero bits to a multiple of five. */
  function PaddedValue(data: seq<int>): (v: nat)
    requires AllBelow(data, 256)
    ensures v < Pow2(5 * WordCount(|data|))
  {
    BytesBound(data);
    PaddedBound(FromDigits(256, data), 8 * |data|, PadBits(|data|));
    FromDigits(256, data) * Pow2(PadBits(|data|))
  }

  /** What regrouping means: the padded value, written in base 32. */
  function Regroup(data: seq<int>): (words: seq<int>)
    requires AllBelow(data, 256)
    ensures |words| == WordCount(|data|) && AllBelow(words, 32)
  {
    ToDigits(32, PaddedValue(data), WordCount(|data|))
  }

  /** The reader's side: words back to bytes, refusing five or more padding bits and padding that
      is not zero. */
  function Ungroup(words: seq<int>): Option<seq<int>>
    requires AllBelow(words, 32)
  {
    ToDigitsOfFromDigits(32, words);
    var v, pad := FromDigits(32, words), 5 * |words| % 8;
    Fundamental(v, Pow2(pad));
    if pad >= 5 || v % Pow2(pad) != 0 then None
    else Some(ToDigits(256, v / Pow2(pad), 5 * |words| / 8))
  }

  lemma {:induction false} FromDigitsOfToDigits32(v: nat, n: nat)
    requires v < Pow2(5 * n)
    ensures FromDigits(32, ToDigits(32, v, n)) == v
    decreases n
  {
    if n > 0 {
      Pow2Add(5 * (n - 1), 5);
      Powers();
      assert Pow2(5 * n) == Pow2(5 * (n - 1)) * 32;
      FromDigitsOfToDigits32(v / 32, n - 1);
      var ds := ToDigits(32, v, n);
      assert ds[..n - 1] == ToDigits(32, v / 32, n - 1);
    }
  }

  /** The words are the bits of the bytes, the first one first, and fewer than five zero bits. */
  lemma RegroupMeans(data: seq<int>)
    requires AllBelow(data, 256)
    ensures var words := Regroup(data); var pad := 5 * |words| - 8 * |data|;
      0 <= pad < 5 && FromDigits(32, words) == FromDigits(256, data) * Pow2(pad)
  {
    FromDigitsOfToDigits32(PaddedValue(data), WordCount(|data|));
  }

  /** Regrouping loses nothing: the reader gets exactly the bytes back. */
  lemma RegroupRoundTrip(data: seq<int>)
    requires AllBelow(data, 256)
    ensures Ungroup(Regroup(data)) == Some(data)
  {
    var v, pad := FromDigits(256, data), PadBits(|data|);
    FromDigitsOfToDigits32(PaddedValue(data), WordCount(|data|));
    ToDigitsOfFromDigits(256, data);
    ScaleBelow(v, v + 1, Pow2(pad));
    DivModUnique(v * Pow2(pad), Pow2(pad), v, 0);
    BitCount(|data|);
  }

  lemma BitCount(n: nat)
    ensures 5 * WordCount(n) / 8 == n && 5 * WordCount(n) % 8 == PadBits(n)
  {}

  lemma SplitBlock(x: int, p: int)
    requires p > 0
    ensures x % (p * 32) == (x / p) % 32 * p + x % p
  {
    var y := x / p;
    Fundamental(x, p);
    MulAssoc32(p, y / 32, y % 32);
    WithinBlock(p, y % 32, x % p);
    DivModUnique(x, p * 32, y / 32, p * (y % 32) + x % p);
  }

  lemma SplitLow(x: int, n: nat)
    ensures x % Pow2(n + 5) == (x / Pow2(n)) % 32 * Pow2(n) + x % Pow2(n)
  {
    WordPower(n);
    SplitBlock(x, Pow2(n));
  }

  lemma WordPower(n: nat)
    ensures Pow2(n + 5) == Pow2(n) * 32
  {
    Powers();
    Pow2Add(n, 5);
  }

  lemma MulAssoc32(p: int, f: int, w: int)
    ensures (f * 32 + w) * p == f * (p * 32) + w * p
    ensures p * (32 * f + w) == (p * 32) * f + p * w
  {}

  lemma WithinBlock(p: int, w: int, r: int)
    requires 0 <= w < 32 && 0 <= r < p
    ensures 0 <= p * w + r < p * 32
  {
    MulSub(p, 32, w);
    MulAtLeast(p, 32 - w);
    if w > 0 { MulAtLeast(p, w); }
  }

  lemma ModPlusMultiple(t: int, p: int, q: int, k: int)
    requires p > 0
    ensures (t + p * q * k) % p == t % p
  {
    Fundamental(t, p);
    MulAssoc(p, q, k, t / p);
    DivModUnique(t + p * q * k, p, t / p + q * k, t % p);
  }

  lemma MulAssoc(p: int, q: int, k: int, e: int)
    ensures p * (e + q * k) == p * e + p * q * k
  {}

  lemma WrapCount(x: int) returns (k: int)
    ensures x == ToInt32(x) + TWO32 * k
  {
    k := (x - ToInt32(x)) / TWO32;
  }

  /** 32-bit wrap-around never reaches the low bits that are still pending. */
  lemma WrapKeepsLow(x: int, n: nat)
    requires n <= 12
    ensures ToInt32(x) % Pow2(n) == x % Pow2(n)
  {
    var k := WrapCount(x);
    assert TWO32 == Pow2(n) * Pow2(32 - n) by {
      Pow2Add(n, 32 - n);
      Powers();
    }
    ModPlusMultiple(ToInt32(x), Pow2(n), Pow2(32 - n), k);
  }

  lemma ShiftInValue(acc: int, v: int, p: int)
    requires 0 <= v < 256 && p > 0
    ensures (acc * 256 + v) % (p * 256) == acc % p * 256 + v
  {
    var e, r := acc / p, acc % p;
    Fundamental(acc, p);
    MulAssoc256(p, e, r);
    DivModUnique(acc * 256 + v, p * 256, e, r * 256 + v);
  }

  lemma MulAssoc256(p: int, e: int, r: int)
    ensures (p * e + r) * 256 == p * 256 * e + r * 256
  {}

  lemma ShiftIn(acc: int, v: int, n: nat)
    requires 0 <= v < 256 && n <= 4
    ensures Or(Shl(acc, 8), v) % Pow2(n + 8) == acc % Pow2(n) * 256 + v
  {
    ShiftInByte(acc, v);
    WrapKeepsLow(acc * 256 + v, n + 8);
    Powers();
    Pow2Add(n, 8);
    ShiftInValue(acc, v, Pow2(n));
  }

  /** Bits still pending in acc together with the words already out spell the bytes read. */
  ghost predicate Spells(out: seq<int>, acc: int, bits: nat, read: seq<int>) {
    FromDigits(32, out) * Pow2(bits) + acc % Pow2(bits) == FromDigits(256, read)
  }

  lemma Append(b: nat, ds: seq<int>, d: int)
    ensures FromDigits(b, ds + [d]) == FromDigits(b, ds) * b + d
  {
    assert (ds + [d])[..|ds|] == ds;
  }

  lemma SpellsNext(out: seq<int>, acc: int, next: int, bits: nat, read: seq<int>, v: int)
    requires Spells(out, acc, bits, read)
    requires next % Pow2(bits + 8) == acc % Pow2(bits) * 256 + v
    ensures Spells(out, next, bits + 8, read + [v])
  {
    BytePower(bits);
    Append(256, read, v);
    MulAssoc256(Pow2(bits), FromDigits(32, out), acc % Pow2(bits));
  }

  lemma SpellsShiftIn(out: seq<int>, acc: int, bits: nat, read: seq<int>, v: int)
    requires bits <= 4 && 0 <= v < 256 && Spells(out, acc, bits, read)
    ensures Spells(out, Or(Shl(acc, 8), v), bits + 8, read + [v])
  {
    ShiftIn(acc, v, bits);
    SpellsNext(out, acc, Or(Shl(acc, 8), v), bits, read, v);
  }

  lemma SpellsEmit(out: seq<int>, acc: int, bits: nat, read: seq<int>)
    requires bits <= 7 && ToInt32(acc) == acc && Spells(out, acc, bits + 5, read)
    ensures Spells(out + [MaskLow(Sar(acc, bits), 5)], acc, bits, read)
  {
    var p, q := Pow2(bits), acc / Pow2(bits);
    var w := MaskLow(q, 5);
    WrapKeepsLow(q, 5);
    Powers();
    SplitLow(acc, bits);
    Pow2Add(bits, 5);
    Append(32, out, w);
    MulAssoc32(p, FromDigits(32, out), w);
  }

  lemma SpellsFlush(out: seq<int>, acc: int, bits: nat, read: seq<int>)
    requires 1 <= bits <= 4 && Spells(out, acc, bits, read)
    ensures FromDigits(32, out + [MaskLow(Shl(acc, 5 - bits), 5)]) == FromDigits(256, read) * Pow2(5 - bits)
  {
    var p, s := Pow2(bits), Pow2(5 - bits);
    WrapKeepsLow(acc * s, 5);
    WrapKeepsLow(ToInt32(acc * s), 5);
    Powers();
    Pow2Add(bits, 5 - bits);
    var w := MaskLow(Shl(acc, 5 - bits), 5);
    assert w == acc * s % (p * s);
    Fundamental(acc, p);
    ScaleMod(acc, p, s);
    Append(32, out, w);
    Distribute(FromDigits(32, out), p, acc % p, s);
  }

  lemma ScaleMod(x: int, p: int, s: int)
    requires p > 0 && s > 0
    ensures p * s > 0 && x * s % (p * s) == x % p * s
  {
    Fundamental(x, p);
    MulAtLeast(p, s);
    Distribute(x / p, p, x % p, s);
    assert x * s == (p * s) * (x / p) + x % p * s by { Rearrange(x / p, p, s); }
    ScaleBelow(x % p, p, s);
    DivModUnique(x * s, p * s, x / p, x % p * s);
  }

  lemma Rearrange(f: int, p: int, s: int)
    ensures f * (p * s) == (p * s) * f
  {}

  lemma Distribute(f: int, p: int, r: int, s: int)
    ensures (f * p + r) * s == f * (p * s) + r * s
    ensures (p * f + r) * s == f * (p * s) + r * s
  {}

  lemma MaskIsWord(x: int)
    ensures 0 <= MaskLow(x, 5) < 32
  {
    Powers();
  }

  /** The only words of that number are the regrouping. */
  lemma RegroupIs(words: seq<int>, data: seq<int>)
    requires AllBelow(data, 256) && AllBelow(words, 32) && |words| == WordCount(|data|)
    requires FromDigits(32, words) == FromDigits(256, data) * Pow2(PadBits(|data|))
    ensures Regroup(data) == words
  {
    hide FromDigits, ToDigits, Pow2;
    ToDigitsOfFromDigits(32, words);
  }

  lemma FlushCount(n: nat, out: nat, bits: nat)
    requires bits < 5 && 5 * out + bits == 8 * n
    ensures WordCount(n) == if bits > 0 then out + 1 else out
    ensures PadBits(n) == if bits > 0 then 5 - bits else 0
  {}

  lemma SpellsWhole(out: seq<int>, acc: int, read: seq<int>)
    requires Spells(out, acc, 0, read)
    ensures FromDigits(32, out) == FromDigits(256, read) * Pow2(0)
  {
    hide FromDigits;
    Fundamental(acc, 1);
  }

  lemma FlushedIsRegrouped(out: seq<int>, acc: int, bits: nat, data: seq<int>)
    requires AllBelow(data, 256) && AllBelow(out, 32) && bits < 5 && 5 * |out| + bits == 8 * |data|
    requires Spells(out, acc, bits, data)
    ensures Regroup(data) == if bits > 0 then out + [MaskLow(Shl(acc, 5 - bits), 5)] else out
  {
    hide FromDigits, Pow2, MaskLow, Shl, Regroup, WordCount, PadBits, Spells;
    FlushCount(|data|, |out|, bits);
    if bits > 0 {
      SpellsFlush(out, acc, bits, data);
      MaskIsWord(Shl(acc, 5 - bits));
      RegroupIs(out + [MaskLow(Shl(acc, 5 - bits), 5)], data);
    } else {
      SpellsWhole(out, acc, data);
      RegroupIs(out, data);
    }
  }

  /** The inner loop of the source: whole words leave acc, fewer than five bits stay. */
  method EmitWords(acc: int, pending: nat, start: seq<int>, ghost read: seq<int>)
    returns (out: seq<int>, bits: nat)
    requires pending <= 12 && ToInt32(acc) == acc && AllBelow(start, 32)
    ensures bits < 5 && 5 * |out| + bits == 5 * |start| + pending
    ensures AllBelow(out, 32)
    ensures Spells(start, acc, pending, read) ==> Spells(out, acc, bits, read)
  {
    out, bits := start, pending;
    while bits >= 5
      invariant bits <= 12 && 5 * |out| + bits == 5 * |start| + pending
      invariant AllBelow(out, 32)
      invariant Spells(start, acc, pending, read) ==> Spells(out, acc, bits, read)
    {
      bits := bits - 5;
      if Spells(start, acc, pending, read) { SpellsEmit(out, acc, bits, read); }
      MaskIsWord(Sar(acc, bits));
      out := out + [MaskLow(Sar(acc, bits), 5)];
    }
  }

  /** The loop of the source. Elements need not be bytes; when they are, the words are exactly
      their regrouping, although acc is never masked and wraps. */
  method ConvertBits(data: seq<int>) returns (out: seq<int>)
    ensures |out| == WordCount(|data|) && AllBelow(out, 32)
    ensures AllBelow(data, 256) ==> out == Regroup(data)
  {
    var acc, bits := 0, 0;
    out := [];
    ghost var bytes := AllBelow(data, 256);
    for i := 0 to |data|
      invariant bits < 5 && 5 * |out| + bits == 8 * i
      invariant ToInt32(acc) == acc && AllBelow(out, 32)
      invariant bytes ==> Spells(out, acc, bits, data[..i])
    {
      assert data[..i + 1] == data[..i] + [data[i]];
      if bytes { SpellsShiftIn(out, acc, bits, data[..i], data[i]); }
      acc := Or(Shl(acc, 8), data[i]);
      out, bits := EmitWords(acc, bits + 8, out, data[..i + 1]);
    }
    assert data[..|data|] == data;
    if bytes { FlushedIsRegrouped(out, acc, bits, data); }
    if bits > 0 {
      MaskIsWord(Shl(acc, 5 - bits));
      out := out + [MaskLow(Shl(acc, 5 - bits), 5)];
    }
  }
}
