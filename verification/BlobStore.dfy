/** Content-addressed storage: keys, type detection by magic bytes, and the local-disk backend. */
module BlobStore {
  import opened Text
  import opened Wrappers

  type Bytes = seq<int>

  // ---- keys ----

  function TrimDot(ext: string): string { if ext != "" && ext[0] == '.' then ext[1..] else ext }

  function BlobKey(hash: string, ext: string): string {
    if TrimDot(ext) == "" then hash else hash + "." + TrimDot(ext)
  }

  function SplitKey(key: string): (string, string) {
    var dot := IndexOf(key, '.', 0);
    if dot >= 0 then (key[..dot], key[dot + 1..]) else (key, "")
  }

  /** Splitting a key undoes building it, for every extension without its leading dot. */
  lemma SplitOfBlobKey(hash: string, ext: string)
    requires Without(hash, '.')
    ensures SplitKey(BlobKey(hash, ext)) == (hash, TrimDot(ext))
  {
    if TrimDot(ext) == "" {
      NoPiece(hash, '.');
    } else {
      FirstPiece(hash, '.', TrimDot(ext));
    }
  }

  function Shard(hash: string): string { if |hash| >= 2 then hash[..2] else "_" }

  // ---- type detection ----

  datatype Magic = Magic(prefix: Bytes, ext: string)

  const MAGICS: seq<Magic> := [
    Magic([0x50, 0x4b, 0x03, 0x04], "zip"),
    Magic([0x52, 0x61, 0x72, 0x21, 0x1a, 0x07], "rar"),
    Magic([0x37, 0x7a, 0xbc, 0xaf, 0x27, 0x1c], "7z"),
    Magic([0x1f, 0x8b], "gz"),
    Magic([0x4d, 0x5a], "exe")]

  function Head(body: Bytes): Bytes { if |body| > 16 then body[..16] else body }

  /** The extension of the first magic from i on that the head starts with. */
  function ExtFrom(head: Bytes, i: nat): string
    requires i <= |MAGICS|
    decreases |MAGICS| - i
  {
    if i == |MAGICS| then "bin" else if MAGICS[i].prefix <= head then MAGICS[i].ext else ExtFrom(head, i + 1)
  }

  function ExtOf(body: Bytes): string { ExtFrom(Head(body), 0) }

  predicate EncryptedZip(body: Bytes) {
    var head := Head(body);
    ExtOf(body) == "zip" && |head| >= 8 && head[6] % 2 != 0
  }

  predicate Accepted(body: Bytes, allowed: string -> bool) { allowed(ExtOf(body)) && !EncryptedZip(body) }

  method ClassifyUpload(body: Bytes, allowed: string -> bool) returns (ext: Option<string>)
    ensures ext == if Accepted(body, allowed) then Some(ExtOf(body)) else None
  {
    var head := Head(body);
    var found := "bin";
    for i := 0 to |MAGICS|
      invariant found == "bin" && ExtFrom(head, i) == ExtOf(body)
    {
      if MAGICS[i].prefix <= head {
        found := MAGICS[i].ext;
        break;
      }
    }
    if !allowed(found) { return None; }
    if found == "zip" && |head| >= 8 && head[6] % 2 != 0 { return None; }
    return Some(found);
  }

  lemma HeadStarts(prefix: Bytes, tail: Bytes)
    requires |prefix| <= 16
    ensures prefix <= Head(prefix + tail) && |Head(prefix + tail)| >= |prefix|
    ensures forall i :: 0 <= i < |prefix| ==> Head(prefix + tail)[i] == prefix[i]
  {}

  /** The magics in their order. */
  lemma ExtTable(head: Bytes)
    ensures ExtFrom(head, 0) ==
      if [0x50, 0x4b, 0x03, 0x04] <= head then "zip"
      else if [0x52, 0x61, 0x72, 0x21, 0x1a, 0x07] <= head then "rar"
      else if [0x37, 0x7a, 0xbc, 0xaf, 0x27, 0x1c] <= head then "7z"
      else if [0x1f, 0x8b] <= head then "gz"
      else if [0x4d, 0x5a] <= head then "exe"
      else "bin"
  {
    assert ExtFrom(head, 5) == "bin";
    assert ExtFrom(head, 4) == if MAGICS[4].prefix <= head then "exe" else ExtFrom(head, 5);
    assert ExtFrom(head, 3) == if MAGICS[3].prefix <= head then "gz" else ExtFrom(head, 4);
    assert ExtFrom(head, 2) == if MAGICS[2].prefix <= head then "7z" else ExtFrom(head, 3);
    assert ExtFrom(head, 1) == if MAGICS[1].prefix <= head then "rar" else ExtFrom(head, 2);
  }

  /** A zip is a file that starts with a local header; it is accepted exactly when zips are allowed and
      the low bit of its flags, which says that it is encrypted, is not set. */
  lemma ZipExactly(v0: int, v1: int, f0: int, f1: int, tail: Bytes, allowed: string -> bool)
    requires 0 <= f0 < 256
    ensures var body := [0x50, 0x4b, 0x03, 0x04, v0, v1, f0, f1] + tail;
      ExtOf(body) == "zip" && (Accepted(body, allowed) <==> allowed("zip") && f0 % 2 == 0)
  {
    hide ExtFrom, Head;
    var start := [0x50, 0x4b, 0x03, 0x04, v0, v1, f0, f1];
    HeadStarts(start, tail);
    ExtTable(Head(start + tail));
    assert [0x50, 0x4b, 0x03, 0x04] <= start;
  }

  /** One that ends before its flags is not looked into. */
  lemma ShortZip(rest: Bytes, allowed: string -> bool)
    requires |rest| < 4
    ensures var body := [0x50, 0x4b, 0x03, 0x04] + rest;
      ExtOf(body) == "zip" && (Accepted(body, allowed) <==> allowed("zip"))
  {
    hide ExtFrom;
    ExtTable(Head([0x50, 0x4b, 0x03, 0x04] + rest));
  }

  /** Each other magic, and everything else. */
  lemma OtherMagics(tail: Bytes, allowed: string -> bool)
    ensures var body := [0x52, 0x61, 0x72, 0x21, 0x1a, 0x07] + tail;
      ExtOf(body) == "rar" && (Accepted(body, allowed) <==> allowed("rar"))
    ensures var body := [0x37, 0x7a, 0xbc, 0xaf, 0x27, 0x1c] + tail;
      ExtOf(body) == "7z" && (Accepted(body, allowed) <==> allowed("7z"))
    ensures var body := [0x1f, 0x8b] + tail; ExtOf(body) == "gz" && (Accepted(body, allowed) <==> allowed("gz"))
    ensures var body := [0x4d, 0x5a] + tail; ExtOf(body) == "exe" && (Accepted(body, allowed) <==> allowed("exe"))
  {
    hide ExtFrom, Head;
    OneMagic([0x52, 0x61, 0x72, 0x21, 0x1a, 0x07], tail);
    OneMagic([0x37, 0x7a, 0xbc, 0xaf, 0x27, 0x1c], tail);
    OneMagic([0x1f, 0x8b], tail);
    OneMagic([0x4d, 0x5a], tail);
  }

  lemma OneMagic(magic: Bytes, tail: Bytes)
    requires 2 <= |magic| <= 6 && magic[0] != 0x50
    ensures magic == [0x52, 0x61, 0x72, 0x21, 0x1a, 0x07] ==> ExtOf(magic + tail) == "rar"
    ensures magic == [0x37, 0x7a, 0xbc, 0xaf, 0x27, 0x1c] ==> ExtOf(magic + tail) == "7z"
    ensures magic == [0x1f, 0x8b] ==> ExtOf(magic + tail) == "gz"
    ensures magic == [0x4d, 0x5a] ==> ExtOf(magic + tail) == "exe"
  {
    hide ExtFrom, Head;
    HeadStarts(magic, tail);
    ExtTable(Head(magic + tail));
  }

  lemma NoMagic(body: Bytes, allowed: string -> bool)
    requires !([0x50, 0x4b, 0x03, 0x04] <= body) && !([0x52, 0x61, 0x72, 0x21, 0x1a, 0x07] <= body)
    requires !([0x37, 0x7a, 0xbc, 0xaf, 0x27, 0x1c] <= body) && !([0x1f, 0x8b] <= body) && !([0x4d, 0x5a] <= body)
    ensures ExtOf(body) == "bin" && (Accepted(body, allowed) <==> allowed("bin"))
  {
    hide ExtFrom;
    ExtTable(Head(body));
    HeadIsPrefix(body, [0x50, 0x4b, 0x03, 0x04]);
    HeadIsPrefix(body, [0x52, 0x61, 0x72, 0x21, 0x1a, 0x07]);
    HeadIsPrefix(body, [0x37, 0x7a, 0xbc, 0xaf, 0x27, 0x1c]);
    HeadIsPrefix(body, [0x1f, 0x8b]);
    HeadIsPrefix(body, [0x4d, 0x5a]);
  }

  lemma HeadIsPrefix(body: Bytes, magic: Bytes)
    ensures magic <= Head(body) ==> magic <= body
  {}

  lemma ExtShape(body: Bytes)
    ensures ExtOf(body) != "" && ExtOf(body)[0] != '.' && TrimDot(ExtOf(body)) == ExtOf(body)
  {
    var head := Head(body);
    assert ExtFrom(head, 5) == "bin";
    assert ExtFrom(head, 4) == "exe" || ExtFrom(head, 4) == "bin";
    assert ExtFrom(head, 3) == "gz" || ExtFrom(head, 3) == ExtFrom(head, 4);
    assert ExtFrom(head, 2) == "7z" || ExtFrom(head, 2) == ExtFrom(head, 3);
    assert ExtFrom(head, 1) == "rar" || ExtFrom(head, 1) == ExtFrom(head, 2);
  }

  /** Where a blob lies: in the directory of its first two digits, under its hash and extension. */
  lemma KeyPathMeans(hash: string, ext: string)
    requires IsSha256Hex(hash) && ext != "" && ext[0] != '.'
    ensures KeyPath(hash, ext) == KeyPath(hash, "." + ext) == Path(hash[..2], hash + "." + ext)
    ensures KeyPath(hash, "") == Path(hash[..2], hash)
  {
    assert ("." + ext)[1..] == ext;
  }

  // ---- files ----

  datatype Path = Path(dir: string, name: string)

  type Files = map<Path, Bytes>

  /** What resolvePath looks for: in the shard of the hash, the bare hash or the hash with any
      extension. */
  predicate Names(p: Path, hash: string) {
    p.dir == Shard(hash) && (p.name == hash || hash + "." <= p.name)
  }

  ghost predicate Stored(files: Files, hash: string) { exists p :: p in files && Names(p, hash) }

  function KeyPath(hash: string, ext: string): Path { Path(Shard(hash), BlobKey(hash, ext)) }

  function Put(files: Files, hash: string, ext: string, body: Bytes): Files { files[KeyPath(hash, ext) := body] }

  ghost function Purged(files: Files, hash: string): Files { map p | p in files && !Names(p, hash) :: files[p] }

  /** At most one file per hash. */
  ghost predicate Unambiguous(files: Files, hash: string) {
    forall p, q :: p in files && q in files && Names(p, hash) && Names(q, hash) ==> p == q
  }

  /** SHA-256 as lowercase hex, with the bodies that ever occur. That no two of those collide is an
      assumption; of all byte sequences it could not be one. */
  datatype Hash = Hash(f: Bytes -> string, bodies: set<Bytes>)

  ghost predicate IsHash(sha: Hash) {
    && (forall b :: IsSha256Hex(sha.f(b)))
    && (forall b, c :: b in sha.bodies && c in sha.bodies && sha.f(b) == sha.f(c) ==> b == c)
  }

  /** A function that tells bodies of different lengths apart. */
  function LengthHash(body: Bytes): string { PaddedId(|body| % 10000) }

  lemma LengthHashFacts(b: Bytes, c: Bytes)
    ensures IsSha256Hex(LengthHash(b))
    ensures LengthHash(b) == LengthHash(c) && |b| < 10000 && |c| < 10000 ==> |b| == |c|
  {
    hide PaddedId;
    PaddedIds(|b| % 10000, |c| % 10000);
  }

  /** The assumption can be met, by bodies of different lengths for one. */
  lemma HashWitness(bodies: set<Bytes>)
    requires forall b, c :: b in bodies && c in bodies && |b| == |c| ==> b == c
    requires forall b :: b in bodies ==> |b| < 10000
    ensures IsHash(Hash(LengthHash, bodies))
  {
    hide LengthHash, IsSha256Hex;
    forall b: Bytes, c: Bytes
      ensures IsSha256Hex(LengthHash(b))
      ensures LengthHash(b) == LengthHash(c) && |b| < 10000 && |c| < 10000 ==> |b| == |c|
    {
      LengthHashFacts(b, c);
    }
  }

  /** Every file is named by the hash of its bytes and the type its head shows. */
  ghost predicate ContentAddressed(files: Files, sha: Hash) {
    forall p :: p in files ==> files[p] in sha.bodies && p == KeyPath(sha.f(files[p]), ExtOf(files[p]))
  }

  lemma NamesItsHash(hash: string, body: Bytes, other: string)
    requires IsSha256Hex(hash) && IsSha256Hex(other)
    ensures Names(KeyPath(hash, ExtOf(body)), other) <==> hash == other
  {
    ExtShape(body);
    var name := BlobKey(hash, ExtOf(body));
    assert name == hash + "." + ExtOf(body);
    assert name[..64] == hash && name[64] == '.';
    if other + "." <= name { assert (other + ".")[..64] == other; }
  }

  /** Bare-hash lookup is unambiguous in a content-addressed store. */
  lemma OneFilePerHash(files: Files, sha: Hash, hash: string)
    requires IsHash(sha) && ContentAddressed(files, sha) && IsSha256Hex(hash)
    ensures Unambiguous(files, hash)
    ensures forall p :: p in files && Names(p, hash) ==> sha.f(files[p]) == hash
  {
    forall p | p in files && Names(p, hash)
      ensures sha.f(files[p]) == hash
    {
      NamesItsHash(sha.f(files[p]), files[p], hash);
    }
  }

  lemma PutKeepsAddressed(files: Files, sha: Hash, body: Bytes)
    requires IsHash(sha) && ContentAddressed(files, sha) && body in sha.bodies
    ensures ContentAddressed(Put(files, sha.f(body), ExtOf(body), body), sha)
    ensures Stored(Put(files, sha.f(body), ExtOf(body), body), sha.f(body))
    // an upload never replaces other bytes
    ensures forall p :: p in files ==>
      p in Put(files, sha.f(body), ExtOf(body), body) && Put(files, sha.f(body), ExtOf(body), body)[p] == files[p]
  {
    var p := KeyPath(sha.f(body), ExtOf(body));
    NamesItsHash(sha.f(body), body, sha.f(body));
    if p in files {
      NamesItsHash(sha.f(files[p]), files[p], sha.f(body));
    }
  }

  // ---- the disk backend ----

  class Disk {
    var files: Files

    constructor ()
      ensures files == map[]
    {
      files := map[];
    }

    /** os.ReadDir, in some order. */
    method ReadDir(dir: string) returns (names: seq<string>)
      ensures forall n :: n in names <==> Path(dir, n) in files
    {
      names := [];
      var rest := files.Keys;
      while rest != {}
        invariant rest <= files.Keys
        invariant forall n :: n in names <==> Path(dir, n) in files && Path(dir, n) !in rest
        decreases rest
      {
        var p :| p in rest;
        if p.dir == dir { names := names + [p.name]; }
        rest := rest - {p};
      }
    }

    method ResolvePath(hash: string) returns (r: Option<Path>)
      ensures r.None? <==> !Stored(files, hash)
      ensures r.Some? ==> r.value in files && Names(r.value, hash)
    {
      var dir := Shard(hash);
      var names := ReadDir(dir);
      for i := 0 to |names|
        invariant forall k :: 0 <= k < i ==> !Names(Path(dir, names[k]), hash)
      {
        if names[i] == hash || hash + "." <= names[i] {
          assert names[i] in names;
          return Some(Path(dir, names[i]));
        }
      }
      forall p | p in files
        ensures !Names(p, hash)
      {
        if p.dir == dir { assert p.name in names; }
      }
      return None;
    }

    method PathFor(hash: string, ext: string) returns (r: Option<Path>)
      ensures ext != "" && KeyPath(hash, ext) in files ==> r == Some(KeyPath(hash, ext))
      ensures !(ext != "" && KeyPath(hash, ext) in files) ==> (r.None? <==> !Stored(files, hash))
      ensures r.Some? ==> r.value in files && Names(r.value, hash)
    {
      if ext != "" && KeyPath(hash, ext) in files {
        return Some(KeyPath(hash, ext));
      }
      r := ResolvePath(hash);
    }

    /** `Store`: written to a temporary file, then renamed; a failure leaves nothing behind. */
    method Store(hash: string, ext: string, body: Bytes, works: bool)
      modifies this
      ensures files == if works then Put(old(files), hash, ext, body) else old(files)
    {
      if works { files := files[KeyPath(hash, ext) := body]; }
    }

    method Has(hash: string, ext: string) returns (found: bool)
      ensures found <==> Stored(files, hash)
    {
      var p := PathFor(hash, ext);
      found := p.Some?;
    }

    /** `Delete` with an empty extension: one matching file goes; an absent blob is no error. */
    method Delete(hash: string, works: bool)
      modifies this
      ensures !works || !Stored(old(files), hash) ==> files == old(files)
      ensures works && Stored(old(files), hash) ==>
        exists p :: p in old(files) && Names(p, hash) && files == old(files) - {p}
      ensures works && Unambiguous(old(files), hash) ==> files == Purged(old(files), hash)
      // gone, unless the store held several files for one hash
      ensures works ==> (Stored(files, hash) <==> !Unambiguous(old(files), hash))
    {
      var p := PathFor(hash, "");
      if p.Some? && works {
        files := files - {p.value};
        assert p.value !in files;
      }
    }
  }
}
