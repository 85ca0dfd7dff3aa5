/** The download gates: stateless challenges signed with an HMAC, and proof of work over them.
    HMAC and SHA-256 are parameters; nothing but their being functions is used. */
module GateTokens {
  import opened Digits
  import opened Text
  import opened Wrappers
  import Base64Url

  // ---- leading zero bits ----

  /** bits.LeadingZeros8 of a nonzero byte. */
  function LeadingZeros8(x: int): (z: nat)
    requires 0 < x < 256
    ensures z <= 7
  {
    if x >= 128 then 0 else if x >= 64 then 1 else if x >= 32 then 2 else if x >= 16 then 3
    else if x >= 8 then 4 else if x >= 4 then 5 else if x >= 2 then 6 else 7
  }

  function ZeroBits(b: seq<int>): (n: nat)
    requires AllBelow(b, 256)
    ensures n <= 8 * |b|
  {
    if b == [] then 0 else if b[0] == 0 then 8 + ZeroBits(b[1..]) else LeadingZeros8(b[0])
  }

  method LeadingZeroBits(b: seq<int>) returns (n: nat)
    requires AllBelow(b, 256)
    ensures n == ZeroBits(b)
  {
    n := 0;
    assert b[0..] == b;
    for i := 0 to |b|
      invariant n + ZeroBits(b[i..]) == ZeroBits(b)
    {
      assert b[i..][1..] == b[i + 1..];
      if b[i] == 0 {
        n := n + 8;
        continue;
      }
      n := n + LeadingZeros8(b[i]);
      break;
    }
  }

  lemma {:induction false} Pow2Monotone(m: nat, n: nat)
    requires m <= n
    ensures Pow2(m) <= Pow2(n)
  {
    Pow2Add(m, n - m);
    MulAtLeast(Pow2(m), Pow2(n - m));
  }

  lemma {:induction false} FirstByte(x: int, rest: seq<int>)
    requires 0 <= x < 256 && AllBelow(rest, 256)
    ensures FromDigits(256, [x] + rest) == x * Pow2(8 * |rest|) + FromDigits(256, rest)
  {
    if rest == [] {
      assert [x] + rest == [x] && [x][..0] == [];
    } else {
      var n := |rest| - 1;
      var init, last := rest[..n], rest[n];
      FirstByte(x, init);
      assert ([x] + rest)[..n + 1] == [x] + init;
      Pow2Add(8 * n, 8);
      BytePower(8 * n);
      Regroup(x, Pow2(8 * n), FromDigits(256, init), last);
    }
  }

  lemma Regroup(x: int, p: int, f: int, last: int)
    ensures (x * p + f) * 256 + last == x * (p * 256) + (f * 256 + last)
  {}

  lemma Below(x: int, k: int, p: int, r: int)
    requires 0 <= x < k && 0 <= r < p
    ensures 0 <= x * p + r < k * p
    ensures x >= 1 ==> x * p + r >= p
  {
    MulSub(p, k, x);
    MulAtLeast(p, k - x);
    if x >= 1 { MulAtLeast(p, x); }
  }

  lemma LeadingZeros8Range(x: int)
    requires 0 < x < 256
    ensures Pow2(7 - LeadingZeros8(x)) <= x < Pow2(8 - LeadingZeros8(x))
  {
    assert Pow2(3) == 8;
    assert Pow2(5) == 32;
    assert Pow2(6) == 64;
    assert Pow2(7) == 128;
    assert Pow2(8) == 256;
  }

  /** What the count means: b has at least d leading zero bits exactly when, read as a big-endian
      number, it is below 2^(8|b| - d). */
  lemma {:induction false} ZeroBitsMeaning(b: seq<int>, d: nat)
    requires AllBelow(b, 256) && d <= 8 * |b|
    ensures ZeroBits(b) >= d <==> FromDigits(256, b) < Pow2(8 * |b| - d)
  {
    hide FromDigits, Pow2, LeadingZeros8;
    if b == [] {
      BytesBound(b);
    } else {
      var x, rest, m := b[0], b[1..], 8 * (|b| - 1);
      assert b == [x] + rest;
      BytesBound(rest);
      if x == 0 {
        LeadingZeroByte(rest);
        if d <= 8 {
          Pow2Monotone(m, 8 * |b| - d);
        } else {
          ZeroBitsMeaning(rest, d - 8);
        }
      } else {
        FirstByte(x, rest);
        FirstByteDecides(x, FromDigits(256, rest), m, d);
      }
    }
  }

  lemma LeadingZeroByte(rest: seq<int>)
    requires AllBelow(rest, 256)
    ensures FromDigits(256, [0] + rest) == FromDigits(256, rest)
  {
    FirstByte(0, rest);
  }

  lemma FirstByteDecides(x: int, r: int, m: nat, d: nat)
    requires 0 < x < 256 && 0 <= r < Pow2(m) && d <= m + 8
    ensures LeadingZeros8(x) >= d <==> x * Pow2(m) + r < Pow2(m + 8 - d)
  {
    var z := LeadingZeros8(x);
    LeadingZeros8Range(x);
    if z >= d {
      Pow2Add(8 - z, m);
      Below(x, Pow2(8 - z), Pow2(m), r);
      Pow2Monotone(8 - z + m, m + 8 - d);
    } else {
      Pow2Add(7 - z, m);
      Pow2Monotone(m + 8 - d, 7 - z + m);
      AtLeast(Pow2(7 - z), x, Pow2(m), r);
    }
  }

  lemma AtLeast(k: int, x: int, p: int, r: int)
    requires k <= x && p > 0 && r >= 0
    ensures x * p + r >= k * p
  {}

  // ---- tokens ----

  predicate IsBytes(s: string) { forall i :: 0 <= i < |s| ==> s[i] as int < 256 }

  function Bytes(s: string): (b: seq<int>)
    requires IsBytes(s)
    ensures |b| == |s| && AllBelow(b, 256)
  {
    seq(|s|, i requires 0 <= i < |s| => s[i] as int)
  }

  function FromBytes(b: seq<int>): (s: string)
    requires AllBelow(b, 256)
    ensures |s| == |b| && IsBytes(s) && Bytes(s) == b
  {
    seq(|b|, i requires 0 <= i < |b| => b[i] as char)
  }

  type Mac = string -> seq<int>

  ghost predicate IsMac(mac: Mac) { forall s :: AllBelow(mac(s), 256) }

  /** `signToken` over an already joined payload. */
  function Sign(mac: Mac, payload: string): string
    requires IsMac(mac) && IsBytes(payload)
  {
    Base64Url.Encode(Bytes(payload)) + "." + Base64Url.Encode(mac(payload))
  }

  /** `parseToken`. */
  function OpenToken(mac: Mac, c: string): Option<seq<string>> {
    var dot := IndexOf(c, '.', 0);
    if dot < 0 then None
    else
      Base64Url.DecodeGivesBytes(c[..dot]);
      match (Base64Url.Decode(c[..dot]), Base64Url.Decode(c[dot + 1..]))
      case (Some(payload), Some(sig)) =>
        if sig == mac(FromBytes(payload)) then Some(Split(FromBytes(payload), '|')) else None
      case _ => None
  }

  lemma OpenOfSign(mac: Mac, payload: string)
    requires IsMac(mac) && IsBytes(payload)
    ensures OpenToken(mac, Sign(mac, payload)) == Some(Split(payload, '|'))
  {
    hide Base64Url.Encode, Base64Url.Decode, Split;
    var p, s := Base64Url.Encode(Bytes(payload)), Base64Url.Encode(mac(payload));
    Base64Url.EncodedWithout(Bytes(payload), '.');
    FirstPiece(p, '.', s);
    Base64Url.RoundTrip(Bytes(payload));
    Base64Url.RoundTrip(mac(payload));
    assert FromBytes(Bytes(payload)) == payload;
  }

  /** What opens at all: two parts in base64url with a dot between, the second the MAC of the first. */
  lemma OpenMeans(mac: Mac, p: string, s: string)
    requires IsMac(mac) && Without(p, '.')
    ensures OpenToken(mac, p + "." + s).Some? <==>
      Base64Url.Decode(p).Some? && AllBelow(Base64Url.Decode(p).value, 256)
      && Base64Url.Decode(s) == Some(mac(FromBytes(Base64Url.Decode(p).value)))
    ensures OpenToken(mac, p + "." + s).Some? ==>
      OpenToken(mac, p + "." + s).value == Split(FromBytes(Base64Url.Decode(p).value), '|')
  {
    hide Base64Url.Decode, Split;
    FirstPiece(p, '.', s);
    assert p + "." + s == p + ['.'] + s;
    Base64Url.DecodeGivesBytes(p);
  }

  lemma NoDotNoToken(mac: Mac, c: string)
    requires Without(c, '.')
    ensures OpenToken(mac, c) == None
  {
    NoPiece(c, '.');
  }

  /** A token holds none of the characters the proofs around it are cut at. */
  lemma SignWithout(mac: Mac, payload: string, c: char)
    requires IsMac(mac) && IsBytes(payload) && !Base64Url.InAlphabet(c) && c != '.'
    ensures Without(Sign(mac, payload), c)
  {
    hide Base64Url.Encode;
    Base64Url.EncodedWithout(Bytes(payload), c);
    Base64Url.EncodedWithout(mac(payload), c);
  }

  // ---- proof of work ----

  /** `powChallenge`: hash, ip, expiry, difficulty and a random part, signed. */
  function PowPayload(hash: string, ip: string, exp: int, difficulty: int, rnd: string): string {
    Join([hash, ip, Decimal(exp), Decimal(difficulty), rnd], '|')
  }

  function PowChallenge(mac: Mac, hash: string, ip: string, exp: int, difficulty: int, rnd: string): string
    requires IsMac(mac) && IsBytes(hash) && IsBytes(ip) && IsBytes(rnd)
  {
    PowPayloadIsBytes(hash, ip, exp, difficulty, rnd);
    Sign(mac, PowPayload(hash, ip, exp, difficulty, rnd))
  }

  /** The token part of "<c>:<nonce>", "" without a colon. */
  function PowToken(proof: string): string {
    if LastIndexOf(proof, ':') < 0 then "" else proof[..LastIndexOf(proof, ':')]
  }

  /** `verifyPow`; sha is SHA-256 and now the time in seconds. */
  predicate VerifyPow(mac: Mac, sha: string -> seq<int>, proof: string, hash: string, ip: string, now: int)
    requires IsMac(sha)
  {
    && LastIndexOf(proof, ':') >= 0
    && match OpenToken(mac, PowToken(proof))
       case None => false
       case Some(parts) =>
         && |parts| == 5 && parts[0] == hash && parts[1] == ip
         && match (ParseInt64(parts[2]), ParseInt64(parts[3]))
            case (Some(exp), Some(d)) => exp >= now && ZeroBits(sha(proof)) >= d
            case _ => false
  }

  lemma {:induction false} JoinIsBytes(parts: seq<string>)
    requires forall i :: 0 <= i < |parts| ==> IsBytes(parts[i])
    ensures IsBytes(Join(parts, '|'))
  {
    if |parts| > 1 { JoinIsBytes(parts[1..]); }
  }

  lemma DecimalIsBytes(n: int)
    ensures IsBytes(Decimal(n))
  {}

  lemma PowPayloadIsBytes(hash: string, ip: string, exp: int, difficulty: int, rnd: string)
    requires IsBytes(hash) && IsBytes(ip) && IsBytes(rnd)
    ensures IsBytes(PowPayload(hash, ip, exp, difficulty, rnd))
  {
    hide Join, Decimal;
    DecimalIsBytes(exp);
    DecimalIsBytes(difficulty);
    JoinIsBytes([hash, ip, Decimal(exp), Decimal(difficulty), rnd]);
  }

  /** Five joined fields are read back, and as five at all, exactly when none holds the separator. */
  lemma FiveFields(a: string, b: string, c: string, d: string, e: string)
    ensures var parts := [a, b, c, d, e]; var read := Split(Join(parts, '|'), '|');
      && (read == parts <==> |read| == 5)
      && (|read| == 5 <==>
          Without(a, '|') && Without(b, '|') && Without(c, '|') && Without(d, '|') && Without(e, '|'))
  {
    hide Join, Split, Without;
    var parts := [a, b, c, d, e];
    SplitOfJoin(parts, '|');
    assert parts[0] == a && parts[1] == b && parts[2] == c && parts[3] == d && parts[4] == e;
  }

  /** A signature part holds no colon. */
  lemma ColonNeverOpens(mac: Mac, payload: string, more: string)
    requires IsMac(mac) && IsBytes(payload)
    ensures OpenToken(mac, Sign(mac, payload) + ":" + more).None?
  {
    hide Base64Url.Encode;
    var p, s := Base64Url.Encode(Bytes(payload)), Base64Url.Encode(mac(payload));
    var rest := s + ":" + more;
    Base64Url.EncodedWithout(Bytes(payload), '.');
    FirstPiece(p, '.', rest);
    assert Sign(mac, payload) + ":" + more == p + ['.'] + rest;
    assert rest[|s|] == ':';
    Base64Url.OutsideRefused(rest, |s|);
  }

  /** A minted challenge with a nonce verifies exactly for the blob and address it was minted for, when
      the nonce holds no colon and no part of the payload a '|', the challenge has not expired and the digest
      meets the difficulty. */
  lemma PowVerifies(mac: Mac, sha: string -> seq<int>, hash: string, ip: string, exp: int, difficulty: int,
                    rnd: string, nonce: string, forHash: string, forIp: string, now: int)
    requires IsMac(mac) && IsMac(sha) && IsBytes(hash) && IsBytes(ip) && IsBytes(rnd)
    requires Int64(exp) && Int64(difficulty)
    ensures var proof := PowChallenge(mac, hash, ip, exp, difficulty, rnd) + ":" + nonce;
      VerifyPow(mac, sha, proof, forHash, forIp, now) <==>
        Without(nonce, ':') && forHash == hash && forIp == ip
        && Without(hash, '|') && Without(ip, '|') && Without(rnd, '|')
        && exp >= now && ZeroBits(sha(proof)) >= difficulty
  {
    hide Sign, OpenToken, Join, Split, Decimal, ParseInt64, ZeroBits;
    var parts := [hash, ip, Decimal(exp), Decimal(difficulty), rnd];
    var payload := PowPayload(hash, ip, exp, difficulty, rnd);
    var c := PowChallenge(mac, hash, ip, exp, difficulty, rnd);
    var proof := c + ":" + nonce;
    PowPayloadIsBytes(hash, ip, exp, difficulty, rnd);
    if Without(nonce, ':') {
      OpenOfSign(mac, payload);
      LastIndexOfJoined(c, ':', nonce);
      assert proof[..|c|] == c;
      DecimalWithout(exp, '|');
      DecimalWithout(difficulty, '|');
      FiveFields(hash, ip, Decimal(exp), Decimal(difficulty), rnd);
      ParseOfDecimal(exp);
      ParseOfDecimal(difficulty);
    } else {
      var last := LastIndexOf(nonce, ':');
      LastIndexOfJoined(c + ":" + nonce[..last], ':', nonce[last + 1..]);
      assert nonce == nonce[..last] + [':'] + nonce[last + 1..];
      assert proof == (c + ":" + nonce[..last]) + [':'] + nonce[last + 1..];
      assert PowToken(proof) == c + ":" + nonce[..last];
      ColonNeverOpens(mac, payload, nonce[..last]);
    }
  }

  /** Whatever the proof: it verifies exactly when its token, all before the last colon, opens to five
      fields, the first two the blob and the address, the third a date not past, the fourth a difficulty
      that the digest of the whole proof meets. */
  lemma VerifyPowExactly(mac: Mac, sha: string -> seq<int>, token: string, nonce: string, hash: string, ip: string,
                         now: int)
    requires IsMac(sha) && Without(nonce, ':')
    ensures VerifyPow(mac, sha, token + ":" + nonce, hash, ip, now) <==>
      && OpenToken(mac, token).Some?
      && var parts := OpenToken(mac, token).value;
      && |parts| == 5 && parts[0] == hash && parts[1] == ip
      && ParseInt64(parts[2]).Some? && ParseInt64(parts[2]).value >= now
      && ParseInt64(parts[3]).Some? && ZeroBits(sha(token + ":" + nonce)) >= ParseInt64(parts[3]).value
  {
    hide OpenToken, ParseInt64, ZeroBits;
    LastIndexOfJoined(token, ':', nonce);
    assert token + ":" + nonce == token + [':'] + nonce;
    assert (token + ":" + nonce)[..|token|] == token;
  }

  lemma NoColonNoProof(mac: Mac, sha: string -> seq<int>, proof: string, hash: string, ip: string, now: int)
    requires IsMac(sha) && Without(proof, ':')
    ensures !VerifyPow(mac, sha, proof, hash, ip, now)
  {}

  // ---- ads ----

  function AdPayload(hash: string, ip: string, exp: int, rnd: string): string {
    Join(["ad", hash, ip, Decimal(exp), rnd], '|')
  }

  function AdChallenge(mac: Mac, hash: string, ip: string, exp: int, rnd: string): string
    requires IsMac(mac) && IsBytes(hash) && IsBytes(ip) && IsBytes(rnd)
  {
    AdPayloadIsBytes(hash, ip, exp, rnd);
    Sign(mac, AdPayload(hash, ip, exp, rnd))
  }

  lemma AdPayloadIsBytes(hash: string, ip: string, exp: int, rnd: string)
    requires IsBytes(hash) && IsBytes(ip) && IsBytes(rnd)
    ensures IsBytes(AdPayload(hash, ip, exp, rnd))
  {
    hide Join, Decimal;
    DecimalIsBytes(exp);
    JoinIsBytes(["ad", hash, ip, Decimal(exp), rnd]);
  }

  /** The token part of "<c>; ad=<id>". */
  function AdToken(header: string): string { TrimSpace(SplitN(header, ';', 2)[0]) }

  function AdId(header: string): string {
    var segs := SplitN(header, ';', 2);
    if |segs| == 2 then
      var kv := TrimSpace(segs[1]);
      if |kv| >= 3 && kv[..3] == "ad=" then TrimSpace(kv[3..]) else ""
    else ""
  }

  /** `verifyAd`: the shown ad's id if the proof is valid. */
  function VerifyAd(mac: Mac, header: string, hash: string, ip: string, now: int): Option<string> {
    if header == "" then None
    else
      match OpenToken(mac, AdToken(header))
      case None => None
      case Some(parts) =>
        if |parts| != 5 || parts[0] != "ad" || parts[1] != hash || parts[2] != ip then None
        else
          match ParseInt64(parts[3])
          case None => None
          case Some(exp) => if exp < now then None else Some(AdId(header))
  }

  lemma AdHeader(c: string, id: string)
    requires Without(c, ';') && (forall i :: 0 <= i < |c| ==> !Space(c[i])) && TrimSpace(id) == id
    ensures AdToken(c + "; ad=" + id) == c && AdId(c + "; ad=" + id) == id
  {
    hide TrimSpace, SplitN;
    var header, tail := c + "; ad=" + id, " ad=" + id;
    assert header == c + [';'] + tail;
    SplitTwo(c, tail, ';');
    TrimFixpoint(c);
    TrimAd(id);
    var kv := "ad=" + id;
    assert kv[..3] == "ad=" && kv[3..] == id;
  }

  lemma SplitTwo(a: string, rest: string, c: char)
    requires Without(a, c)
    ensures SplitN(a + [c] + rest, c, 2) == [a, rest]
  {
    FirstPiece(a, c, rest);
    assert SplitN(rest, c, 1) == [rest];
  }

  lemma TrimAd(id: string)
    requires TrimSpace(id) == id
    ensures TrimSpace(" ad=" + id) == "ad=" + id
  {
    var tail, kv := " ad=" + id, "ad=" + id;
    TrimFixpoint(id);
    assert tail[1..] == kv;
    assert TrimLeft(tail) == TrimLeft(kv) == kv;
    TrimFixpoint(kv);
  }

  /** A minted ad challenge verifies exactly for its own blob and address, when no part of the payload
      holds a '|' and it has not expired; the id comes back as sent. */
  lemma AdVerifies(mac: Mac, hash: string, ip: string, exp: int, rnd: string, id: string,
                   forHash: string, forIp: string, now: int)
    requires IsMac(mac) && IsBytes(hash) && IsBytes(ip) && IsBytes(rnd)
    requires Int64(exp) && TrimSpace(id) == id
    ensures VerifyAd(mac, AdChallenge(mac, hash, ip, exp, rnd) + "; ad=" + id, forHash, forIp, now) ==
      if forHash == hash && forIp == ip && Without(hash, '|') && Without(ip, '|') && Without(rnd, '|') && exp >= now
      then Some(id) else None
  {
    hide Sign, OpenToken, Join, Split, Decimal, ParseInt64, AdToken, AdId;
    var parts := ["ad", hash, ip, Decimal(exp), rnd];
    var payload := AdPayload(hash, ip, exp, rnd);
    AdPayloadIsBytes(hash, ip, exp, rnd);
    OpenOfSign(mac, payload);
    TokenHasNoSpace(mac, payload);
    SignWithout(mac, payload, ';');
    AdHeader(Sign(mac, payload), id);
    DecimalWithout(exp, '|');
    FiveFields("ad", hash, ip, Decimal(exp), rnd);
    ParseOfDecimal(exp);
  }

  /** Whatever the header: its token, all before the first semicolon, opens to "ad", the blob, the address
      and a date not past; the id is what follows "ad=", if anything does. */
  lemma VerifyAdExactly(mac: Mac, token: string, more: string, hash: string, ip: string, now: int)
    requires Without(token, ';')
    ensures VerifyAd(mac, token + ";" + more, hash, ip, now).Some? <==>
      && OpenToken(mac, TrimSpace(token)).Some?
      && var parts := OpenToken(mac, TrimSpace(token)).value;
      && |parts| == 5 && parts[0] == "ad" && parts[1] == hash && parts[2] == ip
      && ParseInt64(parts[3]).Some? && ParseInt64(parts[3]).value >= now
    ensures VerifyAd(mac, token + ";" + more, hash, ip, now).Some? ==>
      VerifyAd(mac, token + ";" + more, hash, ip, now).value ==
      if "ad=" <= TrimSpace(more) then TrimSpace(TrimSpace(more)[3..]) else ""
  {
    hide OpenToken, ParseInt64, TrimSpace;
    SplitTwo(token, more, ';');
    assert token + ";" + more == token + [';'] + more;
  }

  /** Without a semicolon there is no id. */
  lemma VerifyAdAlone(mac: Mac, token: string, hash: string, ip: string, now: int)
    requires Without(token, ';') && token != ""
    ensures VerifyAd(mac, token, hash, ip, now).Some? ==> VerifyAd(mac, token, hash, ip, now) == Some("")
  {
    hide OpenToken, ParseInt64, TrimSpace;
    NoPiece(token, ';');
  }

  lemma TokenHasNoSpace(mac: Mac, payload: string)
    requires IsMac(mac) && IsBytes(payload)
    ensures forall i :: 0 <= i < |Sign(mac, payload)| ==> !Space(Sign(mac, payload)[i])
  {
    hide Sign;
    var s := Sign(mac, payload);
    forall i | 0 <= i < |s|
      ensures !Space(s[i])
    {
      if Space(s[i]) { SignWithout(mac, payload, s[i]); }
    }
  }

  /** Domain separation, for all strings whatever: no token serves both gates. */
  lemma NeverBoth(mac: Mac, sha: string -> seq<int>, proof: string, header: string,
                  hash1: string, ip1: string, hash2: string, ip2: string, now1: int, now2: int)
    requires IsMac(sha) && IsSha256Hex(hash1)
    requires VerifyPow(mac, sha, proof, hash1, ip1, now1) && VerifyAd(mac, header, hash2, ip2, now2).Some?
    ensures PowToken(proof) != AdToken(header)
  {}
}
