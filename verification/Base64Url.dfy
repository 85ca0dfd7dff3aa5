/** base64.RawURLEncoding: section 5 of RFC 4648 without padding. */
module Base64Url {
  import opened Digits
  import opened Text
  import opened Wrappers

  function SymbolOf(v: int): (c: char)
    requires 0 <= v < 64
  {
    if v < 26 then ('A' as int + v) as char
    else if v < 52 then ('a' as int + v - 26) as char
    else if v < 62 then ('0' as int + v - 52) as char
    else if v == 62 then '-' else '_'
  }

  predicate InAlphabet(c: char) {
    'A' <= c <= 'Z' || 'a' <= c <= 'z' || '0' <= c <= '9' || c == '-' || c == '_'
  }

  function ValueOf(c: char): (v: int)
    requires InAlphabet(c)
    ensures 0 <= v < 64
  {
    if 'A' <= c <= 'Z' then c as int - 'A' as int
    else if 'a' <= c <= 'z' then c as int - 'a' as int + 26
    else if '0' <= c <= '9' then c as int - '0' as int + 52
    else if c == '-' then 62 else 63
  }

  lemma ValueOfSymbol(v: int)
    requires 0 <= v < 64
    ensures InAlphabet(SymbolOf(v)) && ValueOf(SymbolOf(v)) == v
  {}

  // Three bytes x, y, z as four sextets, and back.
  function S0(x: int): int { x / 4 }
  function S1(x: int, y: int): int { x % 4 * 16 + y / 16 }
  function S2(y: int, z: int): int { y % 16 * 4 + z / 64 }
  function S3(z: int): int { z % 64 }
  function B0(s: int, t: int): int { s * 4 + t / 16 }
  function B1(s: int, t: int): int { s % 16 * 16 + t / 4 }
  function B2(s: int, t: int): int { s % 4 * 64 + t }

  lemma Quantum(x: int, y: int, z: int)
    requires 0 <= x < 256 && 0 <= y < 256 && 0 <= z < 256
    ensures 0 <= S0(x) < 64 && 0 <= S1(x, y) < 64 && 0 <= S2(y, z) < 64 && 0 <= S3(z) < 64
    ensures B0(S0(x), S1(x, y)) == x && B1(S1(x, y), S2(y, z)) == y && B2(S2(y, z), S3(z)) == z
  {}

  /** The bits of the bytes in groups of six, zero bits filling the last group. */
  function Sextets(b: seq<int>): seq<int> {
    if b == [] then []
    else if |b| == 1 then [S0(b[0]), S1(b[0], 0)]
    else if |b| == 2 then [S0(b[0]), S1(b[0], b[1]), S2(b[1], 0)]
    else [S0(b[0]), S1(b[0], b[1]), S2(b[1], b[2]), S3(b[2])] + Sextets(b[3..])
  }

  lemma {:induction false} SextetsBelow(b: seq<int>)
    requires AllBelow(b, 256)
    ensures AllBelow(Sextets(b), 64)
  {
    hide S0, S1, S2, S3, B0, B1, B2;
    if b != [] {
      Quantum(b[0], if |b| > 1 then b[1] else 0, if |b| > 2 then b[2] else 0);
      if |b| > 2 { SextetsBelow(b[3..]); }
    }
  }

  function Encode(b: seq<int>): (s: string)
    requires AllBelow(b, 256)
  {
    SextetsBelow(b);
    var v := Sextets(b);
    seq(|v|, i requires 0 <= i < |v| => SymbolOf(v[i]))
  }

  /** The decoder skips line breaks anywhere. */
  function SkipBreaks(s: string): (t: string)
    ensures (forall i :: 0 <= i < |s| ==> s[i] != '\r' && s[i] != '\n') ==> t == s
  {
    if s == "" then ""
    else if s[0] == '\r' || s[0] == '\n' then SkipBreaks(s[1..])
    else [s[0]] + SkipBreaks(s[1..])
  }

  /** Full quantums, then two or three symbols; left-over bits need not be zero. */
  function DecodeSymbols(v: seq<int>): Option<seq<int>>
    requires AllBelow(v, 64)
  {
    if v == [] then Some([])
    else if |v| == 1 then None
    else if |v| == 2 then Some([B0(v[0], v[1])])
    else if |v| == 3 then Some([B0(v[0], v[1]), B1(v[1], v[2])])
    else
      match DecodeSymbols(v[4..])
      case None => None
      case Some(rest) => Some([B0(v[0], v[1]), B1(v[1], v[2]), B2(v[2], v[3])] + rest)
  }

  predicate AllInAlphabet(s: string) { forall i :: 0 <= i < |s| ==> InAlphabet(s[i]) }

  function Values(s: string): (v: seq<int>)
    requires AllInAlphabet(s)
    ensures |v| == |s| && AllBelow(v, 64)
  {
    seq(|s|, i requires 0 <= i < |s| => ValueOf(s[i]))
  }

  function Decode(s: string): Option<seq<int>> {
    var t := SkipBreaks(s);
    if AllInAlphabet(t) then DecodeSymbols(Values(t)) else None
  }

  lemma {:induction false} DecodedBytes(v: seq<int>)
    requires AllBelow(v, 64)
    ensures DecodeSymbols(v).Some? ==> AllBelow(DecodeSymbols(v).value, 256)
  {
    if |v| > 3 { DecodedBytes(v[4..]); }
  }

  lemma DecodeGivesBytes(s: string)
    ensures Decode(s).Some? ==> AllBelow(Decode(s).value, 256)
  {
    var t := SkipBreaks(s);
    if AllInAlphabet(t) { DecodedBytes(Values(t)); }
  }

  lemma EncodedAlphabet(b: seq<int>)
    requires AllBelow(b, 256)
    ensures AllInAlphabet(Encode(b)) && Values(Encode(b)) == Sextets(b)
  {
    hide SymbolOf, InAlphabet, ValueOf, Sextets;
    SextetsBelow(b);
    var v := Sextets(b);
    forall i | 0 <= i < |v|
      ensures InAlphabet(Encode(b)[i]) && ValueOf(Encode(b)[i]) == v[i]
    {
      ValueOfSymbol(v[i]);
    }
  }

  lemma {:induction false} DecodeOfSextets(b: seq<int>)
    requires AllBelow(b, 256)
    ensures AllBelow(Sextets(b), 64) && DecodeSymbols(Sextets(b)) == Some(b)
  {
    hide S0, S1, S2, S3, B0, B1, B2;
    SextetsBelow(b);
    if |b| == 1 {
      Quantum(b[0], 0, 0);
      assert b == [b[0]];
    } else if |b| == 2 {
      Quantum(b[0], b[1], 0);
      assert b == [b[0], b[1]];
    } else if |b| > 2 {
      Quantum(b[0], b[1], b[2]);
      DecodeOfSextets(b[3..]);
      assert Sextets(b)[4..] == Sextets(b[3..]);
      assert b == [b[0], b[1], b[2]] + b[3..];
    }
  }

  /** Decoding undoes encoding for every byte sequence. */
  lemma RoundTrip(b: seq<int>)
    requires AllBelow(b, 256)
    ensures Decode(Encode(b)) == Some(b)
  {
    EncodedAlphabet(b);
    DecodeOfSextets(b);
    assert forall i :: 0 <= i < |Encode(b)| ==> InAlphabet(Encode(b)[i]);
  }

  /** One character outside the alphabet, and no line break, makes the decoder refuse. */
  lemma OutsideRefused(s: string, i: nat)
    requires i < |s| && !InAlphabet(s[i]) && s[i] != '\r' && s[i] != '\n'
    ensures Decode(s) == None
  {
    SkipKeeps(s, i);
  }

  lemma {:induction false} SkipKeeps(s: string, i: nat)
    requires i < |s| && s[i] != '\r' && s[i] != '\n'
    ensures s[i] in SkipBreaks(s)
  {
    if i > 0 { SkipKeeps(s[1..], i - 1); }
  }

  lemma EncodedWithout(b: seq<int>, c: char)
    requires AllBelow(b, 256) && !InAlphabet(c)
    ensures Without(Encode(b), c)
  {
    EncodedAlphabet(b);
  }

  // ---- the encoding, as section 4 and table 2 of RFC 4648 have it ----

  /** A to Z, a to z, 0 to 9, minus, underscore: the ends of each range, and one after the other between. */
  lemma SymbolTable(v: int)
    requires 0 <= v < 64
    ensures SymbolOf(0) == 'A' && SymbolOf(25) == 'Z' && SymbolOf(26) == 'a' && SymbolOf(51) == 'z'
    ensures SymbolOf(52) == '0' && SymbolOf(61) == '9' && SymbolOf(62) == '-' && SymbolOf(63) == '_'
    ensures v !in {25, 51, 61, 62, 63} ==> SymbolOf(v + 1) as int == SymbolOf(v) as int + 1
  {}

  lemma ThreeBytes(x: int, y: int, z: int)
    requires 0 <= x < 256 && 0 <= y < 256 && 0 <= z < 256
    ensures 0 <= S0(x) < 64 && 0 <= S1(x, y) < 64 && 0 <= S2(y, z) < 64 && 0 <= S3(z) < 64
    ensures x * 65536 + y * 256 + z == S0(x) * 262144 + S1(x, y) * 4096 + S2(y, z) * 64 + S3(z)
  {}

  function Symbols(v: seq<int>): (s: string)
    requires AllBelow(v, 64)
    ensures |s| == |v| && forall i :: 0 <= i < |s| ==> s[i] == SymbolOf(v[i])
  {
    seq(|v|, i requires 0 <= i < |v| => SymbolOf(v[i]))
  }

  lemma EncodeIs(b: seq<int>)
    requires AllBelow(b, 256)
    ensures AllBelow(Sextets(b), 64) && Encode(b) == Symbols(Sextets(b))
  {
    hide SymbolOf, Sextets;
    SextetsBelow(b);
  }

  lemma Four(s0: int, s1: int, s2: int, s3: int)
    requires 0 <= s0 < 64 && 0 <= s1 < 64 && 0 <= s2 < 64 && 0 <= s3 < 64
    ensures ToDigits(64, s0 * 262144 + s1 * 4096 + s2 * 64 + s3, 4) == [s0, s1, s2, s3]
    ensures ToDigits(64, s0 * 4096 + s1 * 64 + s2, 3) == [s0, s1, s2]
    ensures ToDigits(64, s0 * 64 + s1, 2) == [s0, s1]
  {
    hide ToDigits;
    var v := [s0, s1, s2, s3];
    assert v[..3][..2] == v[..2] && v[..2][..1] == v[..1] && v[..1][..0] == [];
    assert FromDigits(64, v[..1]) == s0;
    assert FromDigits(64, v[..2]) == s0 * 64 + s1;
    assert FromDigits(64, v[..3]) == (s0 * 64 + s1) * 64 + s2;
    assert FromDigits(64, v) == ((s0 * 64 + s1) * 64 + s2) * 64 + s3;
    ToDigitsOfFromDigits(64, v[..2]);
    ToDigitsOfFromDigits(64, v[..3]);
    ToDigitsOfFromDigits(64, v);
    assert v[..2] == [s0, s1] && v[..3] == [s0, s1, s2];
  }

  /** Three bytes are one 24-bit number and four symbols its base-64 digits. */
  lemma EncodeMeans(x: int, y: int, z: int, rest: seq<int>)
    requires 0 <= x < 256 && 0 <= y < 256 && 0 <= z < 256 && AllBelow(rest, 256)
    ensures Encode([x, y, z] + rest) == Symbols(ToDigits(64, x * 65536 + y * 256 + z, 4)) + Encode(rest)
  {
    hide SymbolOf, Encode, ToDigits, S0, S1, S2, S3;
    var b := [x, y, z] + rest;
    ThreeBytes(x, y, z);
    Four(S0(x), S1(x, y), S2(y, z), S3(z));
    EncodeIs(b);
    EncodeIs(rest);
    assert b[3..] == rest;
    assert Sextets(b) == [S0(x), S1(x, y), S2(y, z), S3(z)] + Sextets(rest);
  }

  /** Two or one at the end are filled up with zero bits, and no padding follows. */
  lemma EncodeEndMeans(x: int, y: int)
    requires 0 <= x < 256 && 0 <= y < 256
    ensures Encode([x, y]) == Symbols(ToDigits(64, (x * 256 + y) * 4, 3))
    ensures Encode([x]) == Symbols(ToDigits(64, x * 16, 2)) && Encode([]) == ""
  {
    hide SymbolOf, Encode, ToDigits, S0, S1, S2, S3;
    ThreeBytes(x, y, 0);
    ThreeBytes(x, 0, 0);
    LastBits(x, y);
    Four(S0(x), S1(x, y), S2(y, 0), 0);
    Four(S0(x), S1(x, 0), 0, 0);
    EncodeIs([x, y]);
    EncodeIs([x]);
    EncodeIs([]);
  }

  lemma LastBits(x: int, y: int)
    requires 0 <= x < 256 && 0 <= y < 256
    ensures (x * 256 + y) * 4 == S0(x) * 4096 + S1(x, y) * 64 + S2(y, 0)
    ensures x * 16 == S0(x) * 64 + S1(x, 0)
  {}

  /** From the test vectors of section 10. */
  lemma Vectors()
    ensures Encode([0x66]) == "Zg" && Encode([0x66, 0x6f]) == "Zm8" && Encode([0x66, 0x6f, 0x6f]) == "Zm9v"
  {
    assert [0x66, 0x6f, 0x6f][3..] == [];
  }
}
