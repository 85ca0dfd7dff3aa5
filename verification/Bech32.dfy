/** The dashboard's `bech32Encode`, read back by the rules of BIP-173, section "Checksum". */
module Bech32 {
  import opened Digits
  import opened Polymod
  import opened BitRegroup
  import opened Wrappers
  import opened Text

  const CHARSET := "qpzry9x8gf2tvdw0s3jn54khce6mua7l"

  predicate InCharsetFrom(c: char, i: nat) { exists k :: i <= k < 32 && CHARSET[k] == c }

  predicate InCharset(c: char) { InCharsetFrom(c, 0) }

  /** The symbol a character stands for. */
  function SymbolFrom(c: char, i: nat): (w: int)
    requires i <= 32 && InCharsetFrom(c, i)
    ensures i <= w < 32 && CHARSET[w] == c
    decreases 32 - i
  {
    if CHARSET[i] == c then i else SymbolFrom(c, i + 1)
  }

  lemma CharsetDistinct(i: nat, j: nat)
    requires i < j < 32
    ensures CHARSET[i] != CHARSET[j]
  {}

  function Chars(words: seq<int>): (s: string)
    requires AllBelow(words, 32)
    ensures |s| == |words|
    ensures forall i :: 0 <= i < |s| ==> s[i] == CHARSET[words[i]]
  {
    seq(|words|, i requires 0 <= i < |words| => CHARSET[words[i]])
  }

  function Symbol(c: char): (w: int)
    requires InCharset(c)
    ensures 0 <= w < 32 && CHARSET[w] == c
  {
    SymbolFrom(c, 0)
  }

  predicate AllInCharset(s: string) { forall i :: 0 <= i < |s| ==> InCharset(s[i]) }

  function Symbols(s: string): (words: seq<int>)
    requires AllInCharset(s)
    ensures |words| == |s| && AllBelow(words, 32)
    ensures forall i :: 0 <= i < |s| ==> CHARSET[words[i]] == s[i]
  {
    seq(|s|, i requires 0 <= i < |s| => Symbol(s[i]))
  }

  lemma SymbolsOfChars(words: seq<int>)
    requires AllBelow(words, 32)
    ensures AllInCharset(Chars(words)) && Symbols(Chars(words)) == words
  {
    forall i | 0 <= i < |words|
      ensures InCharset(Chars(words)[i])
    {
      assert Chars(words)[i] == CHARSET[words[i]];
    }
    forall i | 0 <= i < |words|
      ensures Symbols(Chars(words))[i] == words[i]
    {
      var w := Symbols(Chars(words))[i];
      if w < words[i] { CharsetDistinct(w, words[i]); }
      if words[i] < w { CharsetDistinct(words[i], w); }
    }
  }

  // ---- symbols as 32-bit patterns ----

  function CodeUnit(c: char): bv32 { c as int as bv32 }

  function HighBits(c: char): bv32 { CodeUnit(c) >> 5 }

  function LowBits(c: char): bv32 { CodeUnit(c) & 31 }

  function HrpExpand(hrp: string): (vs: seq<bv32>)
    ensures |vs| == 2 * |hrp| + 1
  {
    seq(|hrp|, i requires 0 <= i < |hrp| => HighBits(hrp[i]))
      + [0] + seq(|hrp|, i requires 0 <= i < |hrp| => LowBits(hrp[i]))
  }

  lemma UnitBounds(c: char)
    ensures HighBits(c) < 0x4000_0000 && LowBits(c) < 0x4000_0000
  {}

  lemma HrpBound(hrp: string)
    ensures forall i :: 0 <= i < |HrpExpand(hrp)| ==> HrpExpand(hrp)[i] < 0x4000_0000
  {
    hide HighBits, LowBits;
    var vs, n := HrpExpand(hrp), |hrp|;
    forall i | 0 <= i < |vs|
      ensures vs[i] < 0x4000_0000
    {
      if i < n {
        UnitBounds(hrp[i]);
      } else if i > n {
        UnitBounds(hrp[i - n - 1]);
      }
    }
  }

  lemma NextPattern(v: bv32)
    requires v < 31
    ensures v + 1 < 32 && (v + 1) as int == v as int + 1
  {}

  /** The pattern whose value is w, counting up from v. */
  function PatternFrom(w: int, v: bv32): (r: bv32)
    requires v < 32 && v as int <= w < 32
    ensures r < 32 && r as int == w
    decreases w - v as int
  {
    if v as int == w then v
    else
      NextPattern(v);
      PatternFrom(w, v + 1)
  }

  function Pattern(w: int): (v: bv32)
    requires 0 <= w < 32
    ensures v < 32 && v as int == w
  {
    PatternFrom(w, 0)
  }

  function Patterns(words: seq<int>): (vs: seq<bv32>)
    requires AllBelow(words, 32)
    ensures |vs| == |words| && forall i :: 0 <= i < |vs| ==> vs[i] == Pattern(words[i])
  {
    seq(|words|, i requires 0 <= i < |words| => Pattern(words[i]))
  }

  function Value(v: bv32): (w: int)
    requires v < 32
    ensures 0 <= w < 32 && w == v as int
  {
    v as int
  }

  lemma ValueInjective(v: bv32, w: bv32)
    requires v < 32 && w < 32 && v as int == w as int
    ensures v == w
  {}

  function Integers(vs: seq<bv32>): (words: seq<int>)
    requires forall i :: 0 <= i < |vs| ==> vs[i] < 32
    ensures |words| == |vs| && AllBelow(words, 32) && Patterns(words) == vs
  {
    var words := seq(|vs|, i requires 0 <= i < |vs| => Value(vs[i]));
    assert forall i :: 0 <= i < |vs| ==> Pattern(words[i]) == vs[i] by {
      forall i | 0 <= i < |vs| ensures Pattern(words[i]) == vs[i] { ValueInjective(Pattern(words[i]), vs[i]); }
    }
    assert Patterns(words) == vs;
    words
  }

  lemma PatternsApart(v: int, w: int)
    requires 0 <= v < 32 && 0 <= w < 32 && v != w
    ensures Pattern(v) != Pattern(w) && Pattern(v) < 0x4000_0000 && Pattern(w) < 0x4000_0000
  {}

  // ---- encoding ----

  function Checksum(hrp: string, words: seq<int>): (cs: seq<int>)
    requires AllBelow(words, 32)
    ensures |cs| == 6 && AllBelow(cs, 32)
  {
    Integers(ChecksumSymbols(Xor(Fold(1, HrpExpand(hrp) + Patterns(words) + Zeros(6)), 1)))
  }

  /** Prefix, separator, words and checksum. */
  function Spell(hrp: string, words: seq<int>): string
    requires AllBelow(words, 32)
  {
    hrp + "1" + Chars(words + Checksum(hrp, words))
  }

  function Encode(hrp: string, data: seq<int>): string
    requires AllBelow(data, 256)
  {
    Spell(hrp, Regroup(data))
  }

  // ---- reading back ----

  predicate Valid(hrp: string, words: seq<int>)
    requires AllBelow(words, 32)
  {
    |words| >= 6 && Fold(1, HrpExpand(hrp) + Patterns(words)) == 1
  }

  /** The payload of a bech32 string, if its checksum holds. */
  function Decode(s: string): Option<(string, seq<int>)> {
    var sep := LastIndexOf(s, '1');
    if sep < 0 then None
    else
      var hrp, tail := s[..sep], s[sep + 1..];
      if !AllInCharset(tail) then None
      else
        var words := Symbols(tail);
        if !Valid(hrp, words) then None
        else
          match Ungroup(words[..|words| - 6])
          case None => None
          case Some(data) => Some((hrp, data))
  }

  // ---- what is proved ----

  /** Checksum soundness, for every prefix and every word list. */
  lemma SpelledIsValid(hrp: string, words: seq<int>)
    requires AllBelow(words, 32)
    ensures Valid(hrp, words + Checksum(hrp, words))
  {
    hide Fold, ChecksumSymbols, Xor, HrpExpand;
    var vs := HrpExpand(hrp) + Patterns(words);
    HrpBound(hrp);
    ChecksumSound(vs);
    assert vs + Zeros(6) == HrpExpand(hrp) + Patterns(words) + Zeros(6);
    var cs := ChecksumSymbols(Xor(Fold(1, vs + Zeros(6)), 1));
    assert Patterns(words + Checksum(hrp, words)) == Patterns(words) + cs;
    assert vs + cs == HrpExpand(hrp) + (Patterns(words) + cs);
  }

  lemma CharsetAvoidsOne(c: char)
    requires InCharset(c)
    ensures c != '1'
  {}

  lemma WithoutOne(s: string)
    requires AllInCharset(s)
    ensures Without(s, '1')
  {
    hide InCharset;
    forall i | 0 <= i < |s|
      ensures s[i] != '1'
    {
      CharsetAvoidsOne(s[i]);
    }
  }

  /** The reader splits a well-formed string where the writer joined it. */
  lemma DecodeOf(hrp: string, words: seq<int>)
    requires AllBelow(words, 32)
    ensures Decode(hrp + "1" + Chars(words)) ==
      if !Valid(hrp, words) then None
      else match Ungroup(words[..|words| - 6]) case None => None case Some(data) => Some((hrp, data))
  {
    hide Fold, HrpExpand, Ungroup;
    var s := hrp + "1" + Chars(words);
    SymbolsOfChars(words);
    WithoutOne(Chars(words));
    LastIndexOfJoined(hrp, '1', Chars(words));
    assert s[..|hrp|] == hrp && s[|hrp| + 1..] == Chars(words);
  }

  /** Every prefix and every byte sequence is read back exactly. */
  lemma RoundTrip(hrp: string, data: seq<int>)
    requires AllBelow(data, 256)
    ensures Decode(Encode(hrp, data)) == Some((hrp, data))
  {
    hide Fold, Ungroup;
    var words := Regroup(data);
    var all := words + Checksum(hrp, words);
    SpelledIsValid(hrp, words);
    DecodeOf(hrp, all);
    assert all[..|all| - 6] == words;
    RegroupRoundTrip(data);
  }

  /** A valid word list with exactly one symbol changed is no longer valid, at any length. */
  lemma OneSymbolDetected(hrp: string, us: seq<int>, vs: seq<int>, k: nat)
    requires AllBelow(us, 32) && AllBelow(vs, 32)
    requires k < |us| == |vs| && us[k] != vs[k] && forall i :: 0 <= i < |us| && i != k ==> us[i] == vs[i]
    ensures !(Valid(hrp, us) && Valid(hrp, vs))
  {
    hide Fold;
    var h := HrpExpand(hrp);
    PatternsApart(us[k], vs[k]);
    SingleDifference(1, h + Patterns(us), h + Patterns(vs), |h| + k);
  }

  lemma OutsideRefused(hrp: string, tail: string, j: nat, c: char)
    requires AllInCharset(tail) && j < |tail| && !InCharset(c) && c != '1'
    ensures Decode(hrp + "1" + tail[j := c]) == None
  {
    hide InCharset;
    WithoutOne(tail);
    LastIndexOfJoined(hrp, '1', tail[j := c]);
    var s := hrp + "1" + tail[j := c];
    assert s[|hrp| + 1..][j] == c;
  }

  /** A single wrong character after the separator is always refused by the reader, whether it is one
      of the character set or not; only another '1' would move the separator. */
  lemma OneTypoRefused(hrp: string, data: seq<int>, k: nat, c: char)
    requires AllBelow(data, 256)
    requires |hrp| < k < |Encode(hrp, data)| && c != Encode(hrp, data)[k] && c != '1'
    ensures Decode(Encode(hrp, data)[k := c]) == None
  {
    hide Fold, Ungroup, InCharset, Valid;
    var words := Regroup(data) + Checksum(hrp, Regroup(data));
    var j := k - |hrp| - 1;
    if !InCharset(c) {
      SymbolsOfChars(words);
      OutsideRefused(hrp, Chars(words), j, c);
      assert Encode(hrp, data)[k := c] == hrp + "1" + Chars(words)[j := c];
      return;
    }
    var w := Symbol(c);
    var bad := words[j := w];
    SpelledIsValid(hrp, Regroup(data));
    OneSymbolDetected(hrp, words, bad, j);
    assert Encode(hrp, data)[k := c] == hrp + "1" + Chars(bad);
    DecodeOf(hrp, bad);
  }

  /** Two encoder outputs of one prefix and length never differ in exactly one character. */
  lemma NeverOneApart(hrp: string, d1: seq<int>, d2: seq<int>, k: nat)
    requires AllBelow(d1, 256) && AllBelow(d2, 256)
    requires |hrp| < k < |Encode(hrp, d1)| == |Encode(hrp, d2)|
    requires Encode(hrp, d1)[k] != Encode(hrp, d2)[k]
    ensures exists i :: 0 <= i < |Encode(hrp, d1)| && i != k && Encode(hrp, d1)[i] != Encode(hrp, d2)[i]
  {
    hide Fold, Ungroup;
    var s1, s2 := Encode(hrp, d1), Encode(hrp, d2);
    var words := Regroup(d2) + Checksum(hrp, Regroup(d2));
    if forall i :: 0 <= i < |s1| && i != k ==> s1[i] == s2[i] {
      assert s2 == s1[k := s2[k]];
      assert s2[k] == CHARSET[words[k - |hrp| - 1]];
      CharsetAvoidsOne(s2[k]);
      OneTypoRefused(hrp, d1, k, s2[k]);
      RoundTrip(hrp, d2);
      assert false;
    }
  }

  // ---- the loops of the source ----

  method ExpandPrefix(hrp: string) returns (out: seq<bv32>)
    ensures out == HrpExpand(hrp)
  {
    hide HighBits, LowBits;
    out := [];
    for i := 0 to |hrp|
      invariant |out| == i && forall k :: 0 <= k < i ==> out[k] == HighBits(hrp[k])
    {
      out := out + [HighBits(hrp[i])];
    }
    out := out + [0];
    for i := 0 to |hrp|
      invariant |out| == |hrp| + 1 + i
      invariant forall k :: 0 <= k < |hrp| ==> out[k] == HighBits(hrp[k])
      invariant out[|hrp|] == 0
      invariant forall k :: 0 <= k < i ==> out[|hrp| + 1 + k] == LowBits(hrp[k])
    {
      out := out + [LowBits(hrp[i])];
    }
  }

  /** The elements of data need not be bytes; whatever they regroup to is spelled with a checksum. */
  method Bech32Encode(hrp: string, data: seq<int>) returns (out: string)
    ensures exists words :: |words| == WordCount(|data|) && AllBelow(words, 32) && out == Spell(hrp, words)
    ensures AllBelow(data, 256) ==> out == Encode(hrp, data)
  {
    hide Fold, HrpExpand, Xor, ChecksumSymbol, Regroup, Patterns;
    var regrouped := ConvertBits(data);
    var values := ExpandPrefix(hrp);
    var folded := Compute(values + Patterns(regrouped) + Zeros(6));
    var mod := Xor(folded, 1);
    var checksum: seq<int> := [];
    for i := 0 to 6
      invariant |checksum| == i
      invariant forall k :: 0 <= k < i ==> checksum[k] == ChecksumSymbol(mod, k) as int
    {
      checksum := checksum + [ChecksumSymbol(mod, i) as int];
    }
    assert checksum == Checksum(hrp, regrouped);
    out := Render(hrp, regrouped + checksum);
    assert out == Spell(hrp, regrouped);
  }

  method Render(hrp: string, symbols: seq<int>) returns (out: string)
    requires AllBelow(symbols, 32)
    ensures out == hrp + "1" + Chars(symbols)
  {
    out := hrp + "1";
    for i := 0 to |symbols|
      invariant out == hrp + "1" + Chars(symbols[..i])
    {
      assert symbols[..i + 1] == symbols[..i] + [symbols[i]];
      out := out + [CHARSET[symbols[i]]];
    }
    assert symbols[..|symbols|] == symbols;
  }
}
