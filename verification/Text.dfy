/** Strings as the Go standard library handles them: index, split, join, trim, decimal integers. */
module Text {
  import opened Wrappers
  import Digits

  /** The first position of c at or after from, or -1. */
  function IndexOf(s: string, c: char, from: nat): (i: int)
    requires from <= |s|
    ensures i == -1 ==> forall k :: from <= k < |s| ==> s[k] != c
    ensures i != -1 ==> from <= i < |s| && s[i] == c && forall k :: from <= k < i ==> s[k] != c
    decreases |s| - from
  {
    if from == |s| then -1 else if s[from] == c then from else IndexOf(s, c, from + 1)
  }

  lemma IndexOfUnique(s: string, c: char, from: nat, i: nat)
    requires from <= i < |s| && s[i] == c && forall k :: from <= k < i ==> s[k] != c
    ensures IndexOf(s, c, from) == i
  {}

  function LastIndexOf(s: string, c: char): (i: int)
    ensures -1 <= i < |s|
    ensures i >= 0 ==> s[i] == c
    ensures forall k :: i < k < |s| ==> s[k] != c
  {
    if s == "" then -1 else if s[|s| - 1] == c then |s| - 1 else LastIndexOf(s[..|s| - 1], c)
  }

  lemma {:induction false} LastIndexOfJoined(a: string, c: char, b: string)
    requires Without(b, c)
    ensures LastIndexOf(a + [c] + b, c) == |a|
  {
    var s := a + [c] + b;
    if b != "" {
      LastIndexOfJoined(a, c, b[..|b| - 1]);
      assert s[..|s| - 1] == a + [c] + b[..|b| - 1];
    }
  }

  /** The pieces of s between occurrences of c; never empty. */
  function Split(s: string, c: char): (parts: seq<string>)
    ensures parts != []
    decreases |s|
  {
    var i := IndexOf(s, c, 0);
    if i < 0 then [s] else [s[..i]] + Split(s[i + 1..], c)
  }

  /** At most n pieces; the last one keeps the remaining separators. */
  function SplitN(s: string, c: char, n: nat): (parts: seq<string>)
    requires n > 0
    ensures 0 < |parts| <= n
    decreases n
  {
    var i := IndexOf(s, c, 0);
    if n == 1 || i < 0 then [s] else [s[..i]] + SplitN(s[i + 1..], c, n - 1)
  }

  function Join(parts: seq<string>, c: char): string {
    if parts == [] then "" else if |parts| == 1 then parts[0] else parts[0] + [c] + Join(parts[1..], c)
  }

  predicate Without(s: string, c: char) { forall i :: 0 <= i < |s| ==> s[i] != c }

  lemma FirstPiece(a: string, c: char, rest: string)
    requires Without(a, c)
    ensures IndexOf(a + [c] + rest, c, 0) == |a|
    ensures (a + [c] + rest)[..|a|] == a && (a + [c] + rest)[|a| + 1..] == rest
  {
    IndexOfUnique(a + [c] + rest, c, 0, |a|);
  }

  lemma NoPiece(a: string, c: char)
    ensures IndexOf(a, c, 0) == -1 <==> Without(a, c)
  {}

  /** Splitting undoes joining exactly when no part holds the separator. */
  lemma {:induction false} SplitJoin(parts: seq<string>, c: char)
    requires parts != [] && forall i :: 0 <= i < |parts| ==> Without(parts[i], c)
    ensures Split(Join(parts, c), c) == parts
  {
    if |parts| == 1 {
      NoPiece(parts[0], c);
    } else {
      FirstPiece(parts[0], c, Join(parts[1..], c));
      SplitJoin(parts[1..], c);
    }
  }

  /** Cutting at the first two separators undoes joining three parts, whatever the third holds. */
  lemma SplitThree(a: string, b: string, rest: string, c: char)
    requires Without(a, c) && Without(b, c)
    ensures SplitN(a + [c] + (b + [c] + rest), c, 3) == [a, b, rest]
  {
    FirstPiece(a, c, b + [c] + rest);
    FirstPiece(b, c, rest);
    assert SplitN(rest, c, 1) == [rest];
    assert SplitN(b + [c] + rest, c, 2) == [b] + [rest];
  }

  /** The first piece ends at the first separator, the last at the end. */
  lemma SplitFirst(a: string, c: char, rest: string)
    requires Without(a, c)
    ensures Split(a, c) == [a] && Split(a + [c] + rest, c) == [a] + Split(rest, c)
  {
    NoPiece(a, c);
    FirstPiece(a, c, rest);
  }

  function Occurrences(s: string, c: char): nat {
    if s == "" then 0 else (if s[0] == c then 1 else 0) + Occurrences(s[1..], c)
  }

  lemma {:induction false} OccurrencesConcat(s: string, t: string, c: char)
    ensures Occurrences(s + t, c) == Occurrences(s, c) + Occurrences(t, c)
  {
    if s == "" {
      assert s + t == t;
    } else {
      OccurrencesConcat(s[1..], t, c);
      assert (s + t)[1..] == s[1..] + t;
    }
  }

  lemma {:induction false} OccurrencesZero(s: string, c: char)
    ensures Occurrences(s, c) == 0 <==> Without(s, c)
  {
    if s != "" {
      OccurrencesZero(s[1..], c);
      assert forall i :: 1 <= i < |s| ==> s[i] == s[1..][i - 1];
    }
  }

  /** One piece more than there are separators. */
  lemma {:induction false} SplitCount(s: string, c: char)
    ensures |Split(s, c)| == Occurrences(s, c) + 1
    decreases |s|
  {
    var i := IndexOf(s, c, 0);
    if i < 0 {
      OccurrencesZero(s, c);
    } else {
      SplitCount(s[i + 1..], c);
      assert s == s[..i] + ([c] + s[i + 1..]);
      OccurrencesZero(s[..i], c);
      OccurrencesConcat(s[..i], [c] + s[i + 1..], c);
      assert ([c] + s[i + 1..])[1..] == s[i + 1..];
    }
  }

  /** Joining adds its own separators to those the parts already hold. */
  lemma {:induction false} JoinOccurrences(parts: seq<string>, c: char, k: nat)
    requires k < |parts|
    ensures Occurrences(Join(parts, c), c) >= |parts| - 1 + Occurrences(parts[k], c)
  {
    if |parts| > 1 {
      var rest := Join(parts[1..], c);
      JoinOccurrences(parts[1..], c, if k > 0 then k - 1 else 0);
      OccurrencesConcat(parts[0] + [c], rest, c);
      OccurrencesConcat(parts[0], [c], c);
      assert [c][1..] == "";
      assert Occurrences([c], c) == 1;
    }
  }

  /** Splitting undoes joining exactly when no part holds the separator; else it gives more parts. */
  lemma SplitOfJoin(parts: seq<string>, c: char)
    requires parts != []
    ensures Split(Join(parts, c), c) == parts <==> forall i :: 0 <= i < |parts| ==> Without(parts[i], c)
    ensures |Split(Join(parts, c), c)| == |parts| <==> forall i :: 0 <= i < |parts| ==> Without(parts[i], c)
  {
    hide Join, Split, Occurrences, Without;
    if k :| 0 <= k < |parts| && !Without(parts[k], c) {
      OccurrencesZero(parts[k], c);
      JoinOccurrences(parts, c, k);
      SplitCount(Join(parts, c), c);
    } else {
      SplitJoin(parts, c);
    }
  }

  // ---- white space ----

  /** Space separators, line and paragraph separators of Unicode, and the control characters between
      tab and carriage return: what both Go and JavaScript trim. */
  predicate CommonSpace(c: char) {
    '\t' <= c <= '\r' || c == ' ' || c == '\U{A0}' || c == '\U{1680}' || '\U{2000}' <= c <= '\U{200A}'
    || c == '\U{2028}' || c == '\U{2029}' || c == '\U{202F}' || c == '\U{205F}' || c == '\U{3000}'
  }

  /** unicode.IsSpace. */
  predicate Space(c: char) { CommonSpace(c) || c == '\U{85}' }

  function TrimLeftOf(s: string, space: char -> bool): (t: string)
    ensures |t| <= |s| && (t == "" || !space(t[0]))
    ensures s == "" || !space(s[0]) ==> t == s
  {
    if s != "" && space(s[0]) then TrimLeftOf(s[1..], space) else s
  }

  function TrimLeft(s: string): (t: string)
    ensures |t| <= |s| && (t == "" || !Space(t[0]))
    ensures s == "" || !Space(s[0]) ==> t == s
  {
    TrimLeftOf(s, Space)
  }

  function TrimRight(s: string): (t: string)
    ensures t <= s && (t == "" || !Space(t[|t| - 1]))
    ensures s == "" || !Space(s[|s| - 1]) ==> t == s
  {
    if s != "" && Space(s[|s| - 1]) then TrimRight(s[..|s| - 1]) else s
  }

  function TrimSpace(s: string): string { TrimRight(TrimLeft(s)) }

  lemma {:induction false} TrimLeftNoFixpoint(s: string)
    requires s != "" && Space(s[0])
    ensures |TrimLeft(s)| < |s|
  {}

  /** A string survives trimming exactly when it neither starts nor ends with white space. */
  lemma TrimFixpoint(s: string)
    ensures TrimSpace(s) == s <==> s == "" || (!Space(s[0]) && !Space(s[|s| - 1]))
  {
    if s != "" && Space(s[0]) { TrimLeftNoFixpoint(s); }
  }

  /** Unicode's white space, by code point. */
  lemma SpaceMeans(c: char)
    ensures var u := c as int;
      Space(c) <==> 9 <= u <= 13 || 0x2000 <= u <= 0x200a
                    || u in {0x20, 0x85, 0xa0, 0x1680, 0x2028, 0x2029, 0x202f, 0x205f, 0x3000}
  {}

  predicate AllSpace(s: string) { forall i :: 0 <= i < |s| ==> Space(s[i]) }

  lemma {:induction false} TrimLeftOfSpace(pre: string, s: string)
    requires AllSpace(pre) && (s == "" || !Space(s[0]))
    ensures TrimLeft(pre + s) == s
  {
    hide Space;
    if pre == "" {
      assert pre + s == s;
    } else {
      assert (pre + s)[1..] == pre[1..] + s;
      TrimLeftOfSpace(pre[1..], s);
    }
  }

  lemma {:induction false} TrimRightOfSpace(s: string, post: string)
    requires AllSpace(post) && (s == "" || !Space(s[|s| - 1]))
    ensures TrimRight(s + post) == s
  {
    hide Space;
    if post == "" {
      assert s + post == s;
    } else {
      assert (s + post)[..|s + post| - 1] == s + post[..|post| - 1];
      TrimRightOfSpace(s, post[..|post| - 1]);
    }
  }

  lemma {:induction false} OnlySpace(s: string)
    requires AllSpace(s)
    ensures TrimLeft(s) == ""
  {
    hide Space;
    if s != "" { OnlySpace(s[1..]); }
  }

  /** Trimming takes the white space around a string and nothing else. */
  lemma TrimSpaceMeans(pre: string, core: string, post: string)
    requires AllSpace(pre) && AllSpace(post) && (core != "" ==> !Space(core[0]) && !Space(core[|core| - 1]))
    ensures TrimSpace(pre + core + post) == core
  {
    hide Space, TrimLeft, TrimRight;
    if core == "" {
      OnlySpace(pre + core + post);
      TrimRightOfSpace("", "");
      assert "" + "" == "";
    } else {
      TrimLeftOfSpace(pre, core + post);
      assert pre + core + post == pre + (core + post);
      TrimRightOfSpace(core, post);
    }
  }

  // ---- decimal integers ----

  predicate Digit(c: char) { '0' <= c <= '9' }

  predicate AllDigits(s: string) { forall i :: 0 <= i < |s| ==> Digit(s[i]) }

  function DigitChar(d: int): (c: char)
    requires 0 <= d < 10
    ensures Digit(c) && c as int - '0' as int == d
  {
    ('0' as int + d) as char
  }

  function DecimalNat(n: nat): (s: string)
    ensures s != "" && forall i :: 0 <= i < |s| ==> Digit(s[i])
  {
    if n < 10 then [DigitChar(n)] else DecimalNat(n / 10) + [DigitChar(n % 10)]
  }

  function Decimal(n: int): (s: string)
    ensures s != ""
  {
    if n < 0 then "-" + DecimalNat(-n) else DecimalNat(n)
  }

  function DigitsValue(s: string): (v: int)
    requires forall i :: 0 <= i < |s| ==> Digit(s[i])
    ensures v >= 0
  {
    if s == "" then 0
    else
      assert Digit(s[|s| - 1]);
      DigitsValue(s[..|s| - 1]) * 10 + (s[|s| - 1] as int - '0' as int)
  }

  const INT64_MAX: int := 0x7fff_ffff_ffff_ffff

  predicate Int64(n: int) { -INT64_MAX - 1 <= n <= INT64_MAX }

  /** strconv.ParseInt(s, 10, 64), and strconv.Atoi on a 64-bit machine. */
  function ParseInt64(s: string): (r: Option<int>)
    ensures r.Some? ==> Int64(r.value)
  {
    var signed := s != "" && (s[0] == '-' || s[0] == '+');
    var digits := if signed then s[1..] else s;
    if digits == "" || !AllDigits(digits) then None
    else
      var n := if signed && s[0] == '-' then -DigitsValue(digits) else DigitsValue(digits);
      if Int64(n) then Some(n) else None
  }

  lemma {:induction false} DigitsValueOfDecimal(n: nat)
    ensures DigitsValue(DecimalNat(n)) == n
  {
    if n >= 10 {
      DigitsValueOfDecimal(n / 10);
      assert DecimalNat(n)[..|DecimalNat(n)| - 1] == DecimalNat(n / 10);
    }
  }

  lemma ParseOfDecimal(n: int)
    requires Int64(n)
    ensures ParseInt64(Decimal(n)) == Some(n)
  {
    var m := if n < 0 then -n else n;
    DigitsValueOfDecimal(m);
    var s := Decimal(n);
    if n < 0 {
      assert s[1..] == DecimalNat(m);
    } else {
      assert Digit(s[0]);
    }
  }

  /** Numbers are printed the way they are read. */
  lemma DecimalMeans(n: nat, d: nat)
    requires d < 10
    ensures Decimal(d) == ["0123456789"[d]] && (n > 0 ==> Decimal(10 * n + d) == Decimal(n) + ["0123456789"[d]])
    ensures n > 0 ==> Decimal(0 - n) == "-" + Decimal(n)
  {
    assert "0123456789"[d] == DigitChar(d);
  }

  /** A nonempty string of digits behind at most one sign is its number if that fits 64 bits. */
  lemma ParseInt64Means(ds: string)
    requires ds != "" && AllDigits(ds)
    ensures ParseInt64(ds) == if DigitsValue(ds) <= 9223372036854775807 then Some(DigitsValue(ds)) else None
    ensures ParseInt64(['+'] + ds) == ParseInt64(ds)
    ensures ParseInt64(['-'] + ds) == if DigitsValue(ds) <= 9223372036854775808 then Some(-DigitsValue(ds)) else None
  {
    hide DigitsValue;
    BehindSign('+', ds);
    BehindSign('-', ds);
    assert Digit(ds[0]);
  }

  lemma BehindSign(sign: char, ds: string)
    ensures ([sign] + ds)[0] == sign && ([sign] + ds)[1..] == ds
  {}

  /** Nothing else is a number. */
  lemma ParseInt64Refuses(s: string)
    ensures ParseInt64(s).Some? ==>
      (s != "" && AllDigits(s)) || (|s| > 1 && (s[0] == '+' || s[0] == '-') && AllDigits(s[1..]))
  {}

  /** Decimal output holds digits and perhaps a sign, so never a separator. */
  lemma DecimalWithout(n: int, c: char)
    requires !Digit(c) && c != '-'
    ensures Without(Decimal(n), c)
  {}

  predicate LowerHex(c: char) { Digit(c) || 'a' <= c <= 'f' }

  /** isSHA256Hex: 64 lowercase hex digits. */
  predicate IsSha256Hex(s: string) { |s| == 64 && forall i :: 0 <= i < 64 ==> LowerHex(s[i]) }

  /** The loop of the source. */
  method CheckSha256Hex(s: string) returns (ok: bool)
    ensures ok <==> |s| == 64 && forall i :: 0 <= i < 64 ==> s[i] in "0123456789abcdef"
    ensures ok <==> IsSha256Hex(s)
  {
    if |s| != 64 { return false; }
    for i := 0 to |s|
      invariant forall k :: 0 <= k < i ==> LowerHex(s[k]) && s[k] in "0123456789abcdef"
    {
      HexDigits(s[i]);
      if !LowerHex(s[i]) { return false; }
    }
    ok := true;
  }

  lemma HexDigits(c: char)
    ensures LowerHex(c) <==> c in "0123456789abcdef"
  {
    var digits := "0123456789abcdef";
    if '0' <= c <= '9' {
      assert digits[c as int - '0' as int] == c;
    } else if 'a' <= c <= 'f' {
      assert digits[10 + c as int - 'a' as int] == c;
    }
  }

  /** 64 digits: i behind sixty zeros. */
  function PaddedId(i: nat): (id: string)
    requires i < 10000
    ensures |id| == 64
  {
    seq(60, _ => '0')
      + [DigitChar(i / 10 / 10 / 10), DigitChar(i / 10 / 10 % 10), DigitChar(i / 10 % 10), DigitChar(i % 10)]
  }

  lemma PaddedIds(i: nat, j: nat)
    requires i < 10000 && j < 10000
    ensures IsSha256Hex(PaddedId(i)) && (PaddedId(i) == PaddedId(j) ==> i == j)
  {
    hide DigitChar;
    var a, b := PaddedId(i), PaddedId(j);
    if a == b {
      assert a[60] == b[60] && a[61] == b[61] && a[62] == b[62] && a[63] == b[63];
      SameDigit(i / 10 / 10 / 10, j / 10 / 10 / 10);
      SameDigit(i / 10 / 10 % 10, j / 10 / 10 % 10);
      SameDigit(i / 10 % 10, j / 10 % 10);
      SameDigit(i % 10, j % 10);
      Digits.Fundamental(i, 10);
      Digits.Fundamental(j, 10);
      Digits.Fundamental(i / 10, 10);
      Digits.Fundamental(j / 10, 10);
      Digits.Fundamental(i / 10 / 10, 10);
      Digits.Fundamental(j / 10 / 10, 10);
    }
  }

  lemma SameDigit(x: int, y: int)
    requires 0 <= x < 10 && 0 <= y < 10
    ensures DigitChar(x) == DigitChar(y) ==> x == y
  {}
}
