/** NIP-19 entities of the dashboard: `npubEncode`, `naddrEncode` and the TLV they carry. */
module Nip19 {
  import opened Digits
  import opened JsInt32
  import opened Text
  import opened Wrappers
  import opened BitRegroup
  import Bech32
  import Coordinates

  // ---- hexadecimal pairs, as parseInt(slice, 16) reads them ----

  predicate Hex(c: char) { Digit(c) || 'a' <= c <= 'f' || 'A' <= c <= 'F' }

  function HexValue(c: char): (v: int)
    requires Hex(c)
    ensures 0 <= v < 16
  {
    if Digit(c) then c as int - '0' as int
    else if 'a' <= c <= 'f' then c as int - 'a' as int + 10
    else c as int - 'A' as int + 10
  }

  predicate JsSpace(c: char) { CommonSpace(c) || c == '\U{FEFF}' }

  /** One or two characters: a prefix of hex digits counts, NaN becomes 0 once it is or-ed. White
      space and a sign may come first. */
  function ParseHexPair(s: string): int
    requires 1 <= |s| <= 2
  {
    if Hex(s[0]) then
      if |s| == 2 && Hex(s[1]) then 16 * HexValue(s[0]) + HexValue(s[1]) else HexValue(s[0])
    else if |s| == 2 && Hex(s[1]) && (s[0] == '+' || JsSpace(s[0])) then HexValue(s[1])
    else if |s| == 2 && Hex(s[1]) && s[0] == '-' then -HexValue(s[1])
    else 0
  }

  function HexBytes(hex: string): (out: seq<int>)
    ensures |out| == (|hex| + 1) / 2
  {
    if hex == "" then []
    else if |hex| == 1 then [ParseHexPair(hex)]
    else [ParseHexPair(hex[..2])] + HexBytes(hex[2..])
  }

  predicate AllHex(s: string) { forall i :: 0 <= i < |s| ==> Hex(s[i]) }

  lemma {:induction false} HexBytesAreBytes(hex: string)
    requires AllHex(hex)
    ensures AllBelow(HexBytes(hex), 256)
  {
    if |hex| > 1 {
      assert forall i :: 0 <= i < |hex[2..]| ==> hex[2..][i] == hex[i + 2];
      HexBytesAreBytes(hex[2..]);
    }
  }

  /** Two digits a byte, the high half first. */
  function HexOf(bytes: seq<int>, digits: string): string
    requires AllBelow(bytes, 256) && |digits| == 16
  {
    if bytes == [] then "" else [digits[bytes[0] / 16], digits[bytes[0] % 16]] + HexOf(bytes[1..], digits)
  }

  lemma HexDigitOf(v: int, digits: string)
    requires 0 <= v < 16 && (digits == "0123456789abcdef" || digits == "0123456789ABCDEF")
    ensures Hex(digits[v]) && HexValue(digits[v]) == v
  {}

  /** Every byte sequence is read back from its hex digits, of either case. */
  lemma {:induction false} HexBytesOfHex(bytes: seq<int>, digits: string)
    requires AllBelow(bytes, 256) && (digits == "0123456789abcdef" || digits == "0123456789ABCDEF")
    ensures HexBytes(HexOf(bytes, digits)) == bytes
  {
    hide ParseHexPair;
    if bytes != [] {
      var s := HexOf(bytes, digits);
      PairOfHex(bytes[0], digits);
      HexBytesOfHex(bytes[1..], digits);
      assert s[..2] == [digits[bytes[0] / 16], digits[bytes[0] % 16]] && s[2..] == HexOf(bytes[1..], digits);
      assert bytes == [bytes[0]] + bytes[1..];
    }
  }

  lemma PairOfHex(v: int, digits: string)
    requires 0 <= v < 256 && (digits == "0123456789abcdef" || digits == "0123456789ABCDEF")
    ensures ParseHexPair([digits[v / 16], digits[v % 16]]) == v
  {
    hide Hex, HexValue;
    HexDigitOf(v / 16, digits);
    HexDigitOf(v % 16, digits);
    Fundamental(v, 16);
  }

  /** What parseInt makes of pairs that are not two digits: a leading digit counts alone, a sign or
      white space may come first, and the rest is no number. */
  lemma OddPairs()
    ensures HexBytes("1") == [1] && HexBytes("f") == [15] && HexBytes("abc") == [0xab, 12]
    ensures HexBytes("1g") == [1] && HexBytes("g1") == [0] && HexBytes("zz") == [0] && HexBytes("g") == [0]
    ensures HexBytes("+7") == [7] && HexBytes("-7") == [-7] && HexBytes(" 7") == [7] && HexBytes("- ") == [0]
  {
    assert "abc"[..2] == "ab" && "abc"[2..] == "c";
    PairAlone("1g");
    PairAlone("g1");
    PairAlone("zz");
    PairAlone("+7");
    PairAlone("-7");
    PairAlone(" 7");
    PairAlone("- ");
  }

  lemma PairAlone(s: string)
    requires |s| == 2
    ensures HexBytes(s) == [ParseHexPair(s)]
  {
    assert s[..2] == s && s[2..] == "";
  }

  lemma HexBytesStep(hex: string, i: nat)
    requires i < |hex|
    ensures HexBytes(hex[i..]) ==
      if i + 2 <= |hex| then [ParseHexPair(hex[i..i + 2])] + HexBytes(hex[i + 2..]) else [ParseHexPair(hex[i..])]
  {
    var t := hex[i..];
    if i + 2 <= |hex| { assert t[..2] == hex[i..i + 2] && t[2..] == hex[i + 2..]; }
  }

  method HexToBytes(hex: string) returns (out: seq<int>)
    ensures out == HexBytes(hex)
  {
    hide HexBytes, ParseHexPair;
    out := [];
    var i := 0;
    assert hex[0..] == hex;
    while i < |hex|
      invariant i < |hex| ==> out + HexBytes(hex[i..]) == HexBytes(hex)
      invariant i >= |hex| ==> out == HexBytes(hex)
    {
      HexBytesStep(hex, i);
      var end := if i + 2 <= |hex| then i + 2 else |hex|;
      assert i + 2 > |hex| ==> hex[i..end] == hex[i..];
      if i + 2 == |hex| { NoBytes(hex[i + 2..]); }
      out := out + [ParseHexPair(hex[i..end])];
      i := i + 2;
    }
    if hex == "" { NoBytes(hex); }
  }

  lemma NoBytes(s: string)
    requires s == ""
    ensures HexBytes(s) == []
  {}

  // ---- the TLV an address is carried in ----

  /** NIP-19, section "Shareable identifiers with extra metadata": the value of the first entry of
      a type, each entry being a type byte, a length byte and that many bytes. */
  function Entry(tlv: seq<int>, tag: int): Option<seq<int>> {
    if |tlv| < 2 || tlv[1] < 0 || |tlv| < 2 + tlv[1] then None
    else if tlv[0] == tag then Some(tlv[2..2 + tlv[1]])
    else Entry(tlv[2 + tlv[1]..], tag)
  }

  datatype Address = Address(kind: int, author: seq<int>, d: seq<int>)

  /** Kind (type 3, four big-endian bytes), author (type 2, 32 bytes) and identifier (type 0). */
  function ReadAddress(tlv: seq<int>): Option<Address> {
    match (Entry(tlv, 3), Entry(tlv, 2), Entry(tlv, 0))
    case (Some(k), Some(a), Some(d)) =>
      if |k| == 4 && |a| == 32 then Some(Address(FromDigits(256, k), a, d)) else None
    case _ => None
  }

  /** The address a bech32 string stands for, if it is a well-formed naddr. */
  function ReadNaddr(s: string): Option<Address> {
    match Bech32.Decode(s)
    case Some((hrp, data)) => if hrp == "naddr" then ReadAddress(data) else None
    case None => None
  }

  /** `(kind >>> 24) & 0xff` and so on. */
  function KindBytes(kind: int): (b: seq<int>)
    ensures |b| == 4 && AllBelow(b, 256)
  {
    var u := Unsigned(kind);
    [u / 0x100_0000 % 256, u / 0x1_0000 % 256, u / 0x100 % 256, u % 256]
  }

  lemma FourDigits(b: seq<int>)
    requires |b| == 4
    ensures FromDigits(256, b) == ((b[0] * 256 + b[1]) * 256 + b[2]) * 256 + b[3]
  {
    assert b[..3][..2] == b[..2] && b[..2][..1] == b[..1] && b[..1][..0] == [];
    assert FromDigits(256, b[..1]) == FromDigits(256, b[..1][..0]) * 256 + b[0];
    assert FromDigits(256, b[..2]) == FromDigits(256, b[..1]) * 256 + b[1];
    assert FromDigits(256, b[..3]) == FromDigits(256, b[..2]) * 256 + b[2];
  }

  lemma FourBytes(u: nat)
    requires u < TWO32
    ensures ((u / 0x100_0000 % 256 * 256 + u / 0x1_0000 % 256) * 256 + u / 0x100 % 256) * 256 + u % 256 == u
  {
    var a := u / 256;
    var b := a / 256;
    var c := b / 256;
    Fundamental(u, 256);
    Fundamental(a, 256);
    Fundamental(b, 256);
    DivModUnique(u, 0x1_0000, b, a % 256 * 256 + u % 256);
    DivModUnique(u, 0x100_0000, c, (b % 256 * 256 + a % 256) * 256 + u % 256);
    DivModUnique(c, 256, 0, c);
  }

  lemma KindBytesValue(kind: int)
    ensures FromDigits(256, KindBytes(kind)) == Unsigned(kind)
  {
    FourDigits(KindBytes(kind));
    FourBytes(Unsigned(kind));
  }

  function TlvEntry(tag: int, value: seq<int>): seq<int> { [tag, |value|] + value }

  function AddressTlv(kind: int, author: seq<int>, d: seq<int>): seq<int> {
    TlvEntry(3, KindBytes(kind)) + TlvEntry(2, author) + TlvEntry(0, d)
  }

  lemma EntryHere(tag: int, value: seq<int>, rest: seq<int>)
    ensures Entry(TlvEntry(tag, value) + rest, tag) == Some(value)
  {
    var tlv := TlvEntry(tag, value) + rest;
    assert tlv[2..2 + tlv[1]] == value;
  }

  lemma EntryLater(tag: int, value: seq<int>, rest: seq<int>, other: int)
    requires tag != other
    ensures Entry(TlvEntry(tag, value) + rest, other) == Entry(rest, other)
  {
    var tlv := TlvEntry(tag, value) + rest;
    assert tlv[2 + tlv[1]..] == rest;
  }

  lemma ReadOfTlv(kind: int, author: seq<int>, d: seq<int>)
    requires |author| == 32
    ensures ReadAddress(AddressTlv(kind, author, d)) == Some(Address(Unsigned(kind), author, d))
  {
    hide Entry, FromDigits;
    var e3, e2, e0 := TlvEntry(3, KindBytes(kind)), TlvEntry(2, author), TlvEntry(0, d);
    assert AddressTlv(kind, author, d) == e3 + (e2 + e0) == e3 + e2 + e0 && e0 == e0 + [];
    EntryHere(3, KindBytes(kind), e2 + e0);
    EntryLater(3, KindBytes(kind), e2 + e0, 2);
    EntryLater(3, KindBytes(kind), e2 + e0, 0);
    EntryHere(2, author, e0);
    EntryLater(2, author, e0, 0);
    EntryHere(0, d, []);
    KindBytesValue(kind);
  }

  lemma {:induction false} EntryShort(tlv: seq<int>, tag: int)
    requires AllBelow(tlv, 256)
    ensures Entry(tlv, tag).Some? ==> |Entry(tlv, tag).value| <= 255 && AllBelow(Entry(tlv, tag).value, 256)
    decreases |tlv|
  {
    if !(|tlv| < 2 || tlv[1] < 0 || |tlv| < 2 + tlv[1]) && tlv[0] != tag {
      EntryShort(tlv[2 + tlv[1]..], tag);
    }
  }

  lemma DecodedBytes(s: string)
    ensures Bech32.Decode(s).Some? ==> AllBelow(Bech32.Decode(s).value.1, 256)
  {
    hide Bech32.Valid, Bech32.Symbols, Bech32.AllInCharset;
  }

  /** No string at all reads as an identifier of more than 255 bytes or a kind beyond 32 bits. */
  lemma ReadableLimits(s: string)
    ensures ReadNaddr(s).Some? ==> |ReadNaddr(s).value.d| <= 255 && 0 <= ReadNaddr(s).value.kind < TWO32
  {
    hide Bech32.Decode, Entry;
    if ReadNaddr(s).Some? {
      var data := Bech32.Decode(s).value.1;
      DecodedBytes(s);
      EntryShort(data, 0);
      EntryShort(data, 3);
      KindInRange(Entry(data, 3).value);
    }
  }

  lemma KindInRange(b: seq<int>)
    requires |b| == 4 && AllBelow(b, 256)
    ensures 0 <= FromDigits(256, b) < TWO32
  {
    BytesBound(b);
    Powers();
  }

  // ---- coordinates ----

  /** JavaScript's parseInt(s, 10): white space, a sign, then as many digits as there are. */
  function ParseIntPrefix(s: string): Option<int> {
    var t := TrimLeftOf(s, JsSpace);
    var signed := t != "" && (t[0] == '-' || t[0] == '+');
    var digits := LeadingDigits(if signed then t[1..] else t);
    if digits == "" then None
    else if signed && t[0] == '-' then Some(-DigitsValue(digits))
    else Some(DigitsValue(digits))
  }

  function LeadingDigits(s: string): (t: string)
    ensures forall i :: 0 <= i < |t| ==> Digit(t[i])
    ensures (forall i :: 0 <= i < |s| ==> Digit(s[i])) ==> t == s
  {
    if s == "" || !Digit(s[0]) then "" else [s[0]] + LeadingDigits(s[1..])
  }

  lemma ParseIntOfDecimal(n: int)
    ensures ParseIntPrefix(Decimal(n)) == Some(n)
  {
    hide DecimalNat, DigitsValue;
    var s := Decimal(n);
    var m := if n < 0 then -n else n;
    var digits := DecimalNat(m);
    DigitsValueOfDecimal(m);
    DecimalNatDigits(m);
    if n < 0 { assert s[1..] == digits; }
    assert LeadingDigits(digits) == digits;
    assert !JsSpace(s[0]);
  }

  lemma DecimalNatDigits(m: nat)
    ensures DecimalNat(m) != "" && forall i :: 0 <= i < |DecimalNat(m)| ==> Digit(DecimalNat(m)[i])
  {}

  lemma {:induction false} DigitsLead(ds: string, rest: string)
    requires AllDigits(ds) && (rest != "" ==> !Digit(rest[0]))
    ensures LeadingDigits(ds + rest) == ds
  {
    if ds == "" {
      assert ds + rest == rest;
    } else {
      assert (ds + rest)[1..] == ds[1..] + rest;
      DigitsLead(ds[1..], rest);
    }
  }

  lemma {:induction false} SpaceSkipped(pre: string, s: string)
    requires (forall i :: 0 <= i < |pre| ==> JsSpace(pre[i])) && (s != "" ==> !JsSpace(s[0]))
    ensures TrimLeftOf(pre + s, JsSpace) == s
  {
    hide JsSpace;
    if pre == "" {
      assert pre + s == s;
    } else {
      assert (pre + s)[1..] == pre[1..] + s;
      SpaceSkipped(pre[1..], s);
    }
  }

  /** White space, at most one sign, digits, and whatever follows them: the digits alone are the number,
      and without any there is none. */
  lemma ParseIntMeans(pre: string, sign: string, ds: string, rest: string)
    requires forall i :: 0 <= i < |pre| ==> JsSpace(pre[i])
    requires sign in {"", "+", "-"} && AllDigits(ds) && (rest != "" ==> !Digit(rest[0]))
    requires sign == "" && ds == "" && rest != "" ==> !JsSpace(rest[0]) && rest[0] != '+' && rest[0] != '-'
    ensures ParseIntPrefix(pre + (sign + (ds + rest))) ==
      if ds == "" then None else if sign == "-" then Some(-DigitsValue(ds)) else Some(DigitsValue(ds))
  {
    hide JsSpace, DigitsValue, LeadingDigits, TrimLeftOf;
    var t := sign + (ds + rest);
    assert forall c | Digit(c) || c == '+' || c == '-' :: !JsSpace(c) by { SignsAreNoSpace(); }
    SpaceSkipped(pre, t);
    DigitsLead(ds, rest);
    if sign != "" { assert t[1..] == ds + rest; } else { assert t == ds + rest; }
  }

  lemma SignsAreNoSpace()
    ensures forall c | Digit(c) || c == '+' || c == '-' :: !JsSpace(c)
  {}

  /** A kind read as a double: exact up to 2^53, beyond it rounded to some integer at least as large
      as that, or to infinity (None), which is not an integer. */
  type Double = int -> Option<int>

  const EXACT: int := 0x20_0000_0000_0000

  ghost predicate IsDouble(double: Double) {
    forall n :: if -EXACT <= n <= EXACT then double(n) == Some(n)
                else double(n).Some? ==> double(n).value <= -EXACT || EXACT <= double(n).value
  }

  datatype Parsed = Parsed(kind: int, pubkey: string, d: string)

  /** The parts `naddrEncode` takes a coordinate apart into, if it is a well-formed one. */
  function ParseCoordinate(coord: string, double: Double): Option<Parsed> {
    var i1 := IndexOf(coord, ':', 0);
    if i1 < 0 then None
    else
      var i2 := IndexOf(coord, ':', i1 + 1);
      if i2 < 0 then None
      else
        match ParseIntPrefix(coord[..i1])
        case None => None
        case Some(kind) =>
          if double(kind).None? || |coord[i1 + 1..i2]| != 64 then None
          else Some(Parsed(kind, coord[i1 + 1..i2], coord[i2 + 1..]))
  }

  lemma ParseOfCoordinate(kind: int, pubkey: string, d: string, double: Double)
    requires |pubkey| == 64 && Without(pubkey, ':')
    ensures ParseCoordinate(Coordinates.Coordinate(kind, pubkey, d), double) ==
      if double(kind).Some? then Some(Parsed(kind, pubkey, d)) else None
  {
    hide Decimal, ParseIntPrefix;
    var k := Decimal(kind);
    var coord := Coordinates.Coordinate(kind, pubkey, d);
    DecimalWithout(kind, ':');
    IndexOfUnique(coord, ':', 0, |k|);
    assert forall i :: 0 <= i < 64 ==> coord[|k| + 1 + i] == pubkey[i];
    IndexOfUnique(coord, ':', |k| + 1, |k| + 65);
    ParseIntOfDecimal(kind);
    assert coord[..|k|] == k && coord[|k| + 1..|k| + 65] == pubkey && coord[|k| + 66..] == d;
  }

  /** `npubEncode`: every hex key, read back, gives its bytes. */
  method NpubEncode(hex: string) returns (out: string)
    ensures AllHex(hex) ==> Bech32.Decode(out) == Some(("npub", HexBytes(hex)))
  {
    hide Bech32.Decode, Bech32.Spell, HexBytes;
    var data := HexToBytes(hex);
    out := Bech32.Bech32Encode("npub", data);
    if AllHex(hex) {
      HexBytesAreBytes(hex);
      Bech32.RoundTrip("npub", data);
    }
  }

  /** `naddrEncode`. For a 64-digit hex author the string reads back as the coordinate's own triple
      exactly when the kind fits in 32 bits and the identifier in 255 UTF-8 bytes. Anything that is
      not a coordinate comes back unchanged. */
  method NaddrEncode(coord: string, utf8: string -> seq<int>, double: Double) returns (out: string)
    requires (forall s :: AllBelow(utf8(s), 256)) && IsDouble(double)
    ensures ParseCoordinate(coord, double).None? ==> out == coord
    ensures ParseCoordinate(coord, double).Some? && AllHex(ParseCoordinate(coord, double).value.pubkey) ==>
      var p := ParseCoordinate(coord, double).value;
      (ReadNaddr(out) == Some(Address(p.kind, HexBytes(p.pubkey), utf8(p.d))) <==>
        0 <= p.kind < TWO32 && |utf8(p.d)| <= 255)
  {
    hide Bech32.Decode, Bech32.Spell, Bech32.Encode, ReadAddress, ReadNaddr, ParseIntPrefix, HexBytes, KindBytes,
      AddressTlv, AllHex;
    var i1 := IndexOf(coord, ':', 0);
    if i1 < 0 { return coord; }
    var i2 := IndexOf(coord, ':', i1 + 1);
    if i2 < 0 { return coord; }
    var parsed := ParseIntPrefix(coord[..i1]);
    var pubkey := coord[i1 + 1..i2];
    var dtag := coord[i2 + 1..];
    if parsed.None? || double(parsed.value).None? || |pubkey| != 64 { return coord; }
    var kind := double(parsed.value).value;
    var author := HexToBytes(pubkey);
    var d := utf8(dtag);
    var tlv := TlvEntry(3, KindBytes(kind)) + TlvEntry(2, author) + TlvEntry(0, d);
    out := Bech32.Bech32Encode("naddr", tlv);
    if AllHex(pubkey) {
      HexBytesAreBytes(pubkey);
      TlvIs(kind, author, d);
      NaddrExactly(parsed.value, kind, author, d, out);
    }
  }

  lemma TlvIs(kind: int, author: seq<int>, d: seq<int>)
    ensures AddressTlv(kind, author, d) == TlvEntry(3, KindBytes(kind)) + TlvEntry(2, author) + TlvEntry(0, d)
  {}

  /** The kind as printed and as a double: equal up to 2^53, else both beyond 32 bits. */
  lemma NaddrExactly(printed: int, kind: int, author: seq<int>, d: seq<int>, out: string)
    requires |author| == 32 && AllBelow(author, 256) && AllBelow(d, 256)
    requires -EXACT <= printed <= EXACT ==> kind == printed
    requires AllBelow(AddressTlv(kind, author, d), 256) ==> out == Bech32.Encode("naddr", AddressTlv(kind, author, d))
    ensures ReadNaddr(out) == Some(Address(printed, author, d)) <==> 0 <= printed < TWO32 && |d| <= 255
  {
    hide Bech32.Encode, ReadNaddr, AddressTlv;
    ReadableLimits(out);
    if |d| <= 255 { NaddrReads(kind, author, d); }
  }

  lemma AddressTlvIsBytes(kind: int, author: seq<int>, d: seq<int>)
    requires |author| == 32 && |d| <= 255 && AllBelow(author, 256) && AllBelow(d, 256)
    ensures AllBelow(AddressTlv(kind, author, d), 256)
  {}

  lemma NaddrReads(kind: int, author: seq<int>, d: seq<int>)
    requires |author| == 32 && |d| <= 255 && AllBelow(author, 256) && AllBelow(d, 256)
    ensures AllBelow(AddressTlv(kind, author, d), 256)
    ensures ReadNaddr(Bech32.Encode("naddr", AddressTlv(kind, author, d))) ==
      Some(Address(Unsigned(kind), author, d))
  {
    hide Bech32.Decode, Bech32.Encode, ReadAddress;
    AddressTlvIsBytes(kind, author, d);
    Bech32.RoundTrip("naddr", AddressTlv(kind, author, d));
    ReadOfTlv(kind, author, d);
  }
}
