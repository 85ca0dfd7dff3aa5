/** The reference index: which noted events link to which blob of this host. */
module BlobRefs {
  import opened Text
  import opened Coordinates

  const HASH_LEN: nat := 64
  const MAX_REFS: nat := 50

  // ---- scanning one text ----

  function HexRun(s: string): (n: nat)
    ensures n <= |s|
    ensures forall i :: 0 <= i < n ==> LowerHex(s[i])
    ensures n < |s| ==> !LowerHex(s[n])
  {
    if s == "" || !LowerHex(s[0]) then 0 else 1 + HexRun(s[1..])
  }

  method LeadingHexLen(s: string) returns (n: nat)
    ensures n == HexRun(s)
  {
    n := 0;
    assert s[0..] == s;
    while n < |s|
      invariant n <= |s| && n + HexRun(s[n..]) == HexRun(s)
    {
      assert s[n..][1..] == s[n + 1..];
      if LowerHex(s[n]) {
        n := n + 1;
        continue;
      }
      break;
    }
  }

  predicate NeedleAt(text: string, needle: string, i: nat) {
    i + |needle| <= |text| && text[i..i + |needle|] == needle
  }

  /** A link: the needle, and behind it a maximal run of exactly 64 hex digits. */
  predicate LinkAt(text: string, needle: string, i: nat) {
    NeedleAt(text, needle, i) && HexRun(text[i + |needle|..]) == HASH_LEN
  }

  function HashAt(text: string, needle: string, i: nat): string
    requires LinkAt(text, needle, i)
  {
    text[i + |needle|..i + |needle| + HASH_LEN]
  }

  /** Character by character: the host, a slash, 64 lowercase hex digits, and no further one. */
  lemma LinkMeans(text: string, host: string, i: nat, h: string)
    ensures LinkAt(text, host + "/", i) && HashAt(text, host + "/", i) == h <==>
      && IsSha256Hex(h) && i + |host| + 65 <= |text|
      && text[i..i + |host|] == host && text[i + |host|] == '/'
      && text[i + |host| + 1..i + |host| + 65] == h
      && (i + |host| + 65 < |text| ==> !LowerHex(text[i + |host| + 65]))
  {
    hide HexRun, LowerHex;
    NeedleMeans(text, host, i);
    if i + |host| < |text| {
      var rest := text[i + |host| + 1..];
      RunMeans(rest);
      assert forall k :: 0 <= k < |rest| ==> rest[k] == text[i + |host| + 1 + k];
      if |rest| >= 64 { assert rest[..64] == text[i + |host| + 1..i + |host| + 65]; }
    }
  }

  lemma NeedleMeans(text: string, host: string, i: nat)
    ensures NeedleAt(text, host + "/", i) <==>
      i + |host| < |text| && text[i..i + |host|] == host && text[i + |host|] == '/'
  {
    if i + |host| < |text| {
      assert text[i..i + |host| + 1] == text[i..i + |host|] + [text[i + |host|]];
      assert (host + "/")[..|host|] == host && (host + "/")[|host|] == '/';
      assert text[i..i + |host| + 1][..|host|] == text[i..i + |host|];
    }
  }

  lemma RunMeans(s: string)
    ensures HexRun(s) == 64 <==>
      |s| >= 64 && IsSha256Hex(s[..64]) && (|s| > 64 ==> !LowerHex(s[64]))
  {
    var n := HexRun(s);
    if |s| >= 64 { assert forall i :: 0 <= i < 64 ==> s[..64][i] == s[i]; }
    assert n < 64 && n < |s| ==> !LowerHex(s[n]);
  }

  /** The hashes linked at each position from i on, in order. */
  function HitsFrom(text: string, needle: string, i: nat): seq<string>
    requires i <= |text|
    decreases |text| - i
  {
    if i == |text| then []
    else (if LinkAt(text, needle, i) then [HashAt(text, needle, i)] else []) + HitsFrom(text, needle, i + 1)
  }

  /** strings.Index(text[from:], needle), as an absolute position. */
  function Find(text: string, needle: string, from: nat): (i: int)
    requires from <= |text|
    ensures i == -1 ==> forall k: nat :: from <= k ==> !NeedleAt(text, needle, k)
    ensures i != -1 ==> from <= i && NeedleAt(text, needle, i)
    ensures i != -1 ==> forall k: nat :: from <= k < i ==> !NeedleAt(text, needle, k)
    decreases |text| - from
  {
    if NeedleAt(text, needle, from) then from
    else if from == |text| then -1
    else Find(text, needle, from + 1)
  }

  lemma {:induction false} NoHitsBetween(text: string, needle: string, i: nat, j: nat)
    requires i <= j <= |text| && forall k: nat :: i <= k < j ==> !NeedleAt(text, needle, k)
    ensures HitsFrom(text, needle, i) == HitsFrom(text, needle, j)
    decreases j - i
  {
    if i < j { NoHitsBetween(text, needle, i + 1, j); }
  }

  /** A needle whose only '/' is its last byte cannot overlap itself, so jumping past a match loses
      nothing. */
  lemma NoOverlap(text: string, host: string, i: nat, k: nat)
    requires Without(host, '/') && NeedleAt(text, host + "/", i) && i < k < i + |host| + 1
    ensures !NeedleAt(text, host + "/", k)
  {
    var needle, n := host + "/", |host| + 1;
    assert text[i..i + n][n - 1] == '/';
    if k + n <= |text| {
      var j := i + n - 1 - k;
      assert text[k..k + n][j] == '/';
      assert needle[j] == host[j];
    }
  }

  function Dedup(xs: seq<string>): (d: seq<string>)
    ensures forall x :: x in d <==> x in xs
    ensures forall i, j :: 0 <= i < j < |d| ==> d[i] != d[j]
  {
    if xs == [] then []
    else
      var n := |xs| - 1;
      var d := Dedup(xs[..n]);
      assert xs == xs[..n] + [xs[n]];
      if xs[n] in d then d else d + [xs[n]]
  }

  lemma DedupAppend(xs: seq<string>, x: string)
    ensures Dedup(xs + [x]) == if x in Dedup(xs) then Dedup(xs) else Dedup(xs) + [x]
  {
    assert (xs + [x])[..|xs|] == xs;
  }

  function Elements(xs: seq<string>): set<string> { set x | x in xs }

  /** The closure `scan`: found is the list of hits so far, duplicates included. */
  method Scan(lower: string, host: string, seen0: set<string>, out0: seq<string>, ghost found: seq<string>)
    returns (seen: set<string>, out: seq<string>)
    requires Without(host, '/') && out0 == Dedup(found) && seen0 == Elements(out0)
    ensures out == Dedup(found + HitsFrom(lower, host + "/", 0)) && seen == Elements(out)
  {
    hide HitsFrom, Find, HexRun, Dedup;
    var needle := host + "/";
    seen, out := seen0, out0;
    var from := 0;
    ghost var hits: seq<string> := [];
    assert found + [] == found;
    while true
      invariant from <= |lower| && hits + HitsFrom(lower, needle, from) == HitsFrom(lower, needle, 0)
      invariant out == Dedup(found + hits) && seen == Elements(out)
      decreases |lower| - from
    {
      var i := Find(lower, needle, from);
      FindIsFirst(lower, needle, from);
      if i < 0 {
        NoHitsBetween(lower, needle, from, |lower|);
        NoHitsAtEnd(lower, needle);
        assert hits + [] == hits;
        return;
      }
      var start := i + |needle|;
      NextHits(lower, host, from, i);
      if HexRun(lower[start..]) == 64 {
        HexRunFits(lower[start..]);
        var h := lower[start..start + 64];
        assert lower[start..][..HASH_LEN] == h;
        DedupAppend(found + hits, h);
        assert found + (hits + [h]) == (found + hits) + [h];
        assert hits + ([h] + HitsFrom(lower, needle, start)) == (hits + [h]) + HitsFrom(lower, needle, start);
        hits := hits + [h];
        if h !in seen {
          seen := seen + {h};
          out := out + [h];
        }
      }
      assert hits + ([] + HitsFrom(lower, needle, start)) == hits + HitsFrom(lower, needle, start);
      from := start;
    }
  }

  lemma FindIsFirst(text: string, needle: string, from: nat)
    requires from <= |text|
    ensures Find(text, needle, from) < 0 ==> forall k: nat :: from <= k ==> !NeedleAt(text, needle, k)
    ensures Find(text, needle, from) >= 0 ==> Find(text, needle, from) >= from
    ensures Find(text, needle, from) >= 0 ==> NeedleAt(text, needle, Find(text, needle, from))
    ensures forall k: nat :: from <= k < Find(text, needle, from) ==> !NeedleAt(text, needle, k)
  {}

  lemma NoHitsAtEnd(text: string, needle: string)
    ensures HitsFrom(text, needle, |text|) == []
  {}

  lemma HexRunFits(s: string)
    ensures HexRun(s) <= |s|
  {}

  /** What the first match at or after `from` contributes. */
  lemma NextHits(text: string, host: string, from: nat, i: nat)
    requires Without(host, '/') && from <= i && NeedleAt(text, host + "/", i)
    requires forall k: nat :: from <= k < i ==> !NeedleAt(text, host + "/", k)
    ensures i + |host| + 1 <= |text|
    ensures HitsFrom(text, host + "/", from) ==
      (if HexRun(text[i + |host| + 1..]) == HASH_LEN
       then [text[i + |host| + 1..][..HASH_LEN]] else [])
      + HitsFrom(text, host + "/", i + |host| + 1)
  {
    hide HitsFrom, HexRun;
    var needle := host + "/";
    var rest := text[i + |needle|..];
    NoHitsBetween(text, needle, from, i);
    forall k: nat | i < k < i + |needle|
      ensures !NeedleAt(text, needle, k)
    {
      NoOverlap(text, host, i, k);
    }
    NoHitsBetween(text, needle, i + 1, i + |needle|);
    HexRunFits(rest);
    HitsAt(text, needle, i);
  }

  lemma HitsAt(text: string, needle: string, i: nat)
    requires i < |text| && NeedleAt(text, needle, i)
    requires HexRun(text[i + |needle|..]) <= |text[i + |needle|..]|
    ensures HitsFrom(text, needle, i) ==
      (if HexRun(text[i + |needle|..]) == HASH_LEN then [text[i + |needle|..][..HASH_LEN]] else [])
      + HitsFrom(text, needle, i + 1)
  {
    hide HexRun;
    if HexRun(text[i + |needle|..]) == HASH_LEN {
      assert HashAt(text, needle, i) == text[i + |needle|..][..HASH_LEN];
    }
  }

  // ---- scanning an event ----

  function Flatten(tags: seq<seq<string>>): seq<string> {
    if tags == [] then [] else Flatten(tags[..|tags| - 1]) + tags[|tags| - 1]
  }

  /** The content, then every value of every tag. */
  function Texts(evt: Event): seq<string> { [evt.content] + Flatten(evt.tags) }

  lemma {:induction false} FlattenMeans(tags: seq<seq<string>>, x: string)
    ensures x in Flatten(tags) <==> exists t :: 0 <= t < |tags| && x in tags[t]
  {
    if tags != [] {
      var n := |tags| - 1;
      FlattenMeans(tags[..n], x);
      assert forall t :: 0 <= t < n ==> tags[..n][t] == tags[t];
    }
  }

  /** The content and every tag value are scanned, and nothing else. */
  lemma TextsMean(evt: Event, x: string)
    ensures x in Texts(evt) <==> x == evt.content || exists t :: 0 <= t < |evt.tags| && x in evt.tags[t]
  {
    FlattenMeans(evt.tags, x);
  }

  function HitsIn(texts: seq<string>, lower: string -> string, host: string): seq<string> {
    if texts == [] then []
    else HitsIn(texts[..|texts| - 1], lower, host) + HitsFrom(lower(texts[|texts| - 1]), host + "/", 0)
  }

  /** The hashes an event links to, in order of first appearance. */
  function Hashes(evt: Event, lower: string -> string, host: string): seq<string> {
    Dedup(HitsIn(Texts(evt), lower, host))
  }

  /** h stands behind the host in some text of the event, as a maximal run of 64 hex digits. */
  ghost predicate LinksTo(evt: Event, lower: string -> string, host: string, h: string) {
    exists t, i: nat :: 0 <= t < |Texts(evt)| && LinkAt(lower(Texts(evt)[t]), host + "/", i)
      && HashAt(lower(Texts(evt)[t]), host + "/", i) == h
  }

  /** h is linked at from or later. */
  ghost predicate LinkedFrom(text: string, needle: string, from: nat, h: string) {
    exists i: nat :: from <= i && LinkAt(text, needle, i) && HashAt(text, needle, i) == h
  }

  lemma LinkedNext(text: string, needle: string, from: nat, h: string)
    ensures LinkedFrom(text, needle, from, h) <==>
      (LinkAt(text, needle, from) && HashAt(text, needle, from) == h) || LinkedFrom(text, needle, from + 1, h)
  {
    hide LinkAt, HashAt;
  }

  lemma {:induction false} InHits(text: string, needle: string, from: nat, h: string)
    requires from <= |text|
    ensures h in HitsFrom(text, needle, from) <==> LinkedFrom(text, needle, from, h)
    decreases |text| - from
  {
    hide HashAt, LinkedFrom;
    if from < |text| {
      InHits(text, needle, from + 1, h);
      LinkedNext(text, needle, from, h);
    } else {
      NothingLinked(text, needle, h);
    }
  }

  lemma NothingLinked(text: string, needle: string, h: string)
    ensures !LinkedFrom(text, needle, |text|, h)
  {
    forall i: nat | |text| <= i
      ensures !LinkAt(text, needle, i)
    {
      if NeedleAt(text, needle, i) { HexRunFits(text[i + |needle|..]); }
    }
  }

  lemma {:induction false} InHitsIn(texts: seq<string>, lower: string -> string, host: string, h: string)
    ensures h in HitsIn(texts, lower, host) <==>
      exists t :: 0 <= t < |texts| && h in HitsFrom(lower(texts[t]), host + "/", 0)
  {
    hide HitsFrom;
    if texts != [] {
      var n := |texts| - 1;
      InHitsIn(texts[..n], lower, host, h);
      assert forall t :: 0 <= t < n ==> texts[..n][t] == texts[t];
    }
  }

  /** The scan is exact: it returns each linked hash once, and nothing else. */
  lemma HashesExact(evt: Event, lower: string -> string, host: string, h: string)
    ensures h in Hashes(evt, lower, host) <==> LinksTo(evt, lower, host, h)
    ensures forall i, j :: 0 <= i < j < |Hashes(evt, lower, host)| ==>
      Hashes(evt, lower, host)[i] != Hashes(evt, lower, host)[j]
  {
    hide HitsFrom, HitsIn, Texts, LinkAt;
    var texts := Texts(evt);
    InHitsIn(texts, lower, host, h);
    forall t | 0 <= t < |texts|
      ensures h in HitsFrom(lower(texts[t]), host + "/", 0) <==> LinkedFrom(lower(texts[t]), host + "/", 0, h)
    {
      InHits(lower(texts[t]), host + "/", 0, h);
    }
  }

  method ExtractHashes(evt: Event, lower: string -> string, host: string) returns (out: seq<string>)
    requires Without(host, '/')
    ensures out == Hashes(evt, lower, host)
  {
    hide HitsFrom, Dedup, Elements, HitsIn;
    var seen: set<string> := {};
    ghost var texts := [evt.content];
    NothingScanned(evt, lower, host);
    seen, out := Scan(lower(evt.content), host, {}, [], HitsIn([], lower, host));
    for i := 0 to |evt.tags|
      invariant texts == [evt.content] + Flatten(evt.tags[..i])
      invariant out == Dedup(HitsIn(texts, lower, host)) && seen == Elements(out)
    {
      seen, out := ScanTag(evt.tags[i], lower, host, seen, out, texts);
      assert evt.tags[..i + 1][..i] == evt.tags[..i];
      assert [evt.content] + (Flatten(evt.tags[..i]) + evt.tags[i]) == texts + evt.tags[i];
      texts := texts + evt.tags[i];
    }
    assert evt.tags[..|evt.tags|] == evt.tags;
  }

  /** Every value of one tag; texts is what has been scanned before. */
  method ScanTag(tag: seq<string>, lower: string -> string, host: string, seen0: set<string>, out0: seq<string>,
                 ghost texts: seq<string>)
    returns (seen: set<string>, out: seq<string>)
    requires Without(host, '/') && out0 == Dedup(HitsIn(texts, lower, host)) && seen0 == Elements(out0)
    ensures out == Dedup(HitsIn(texts + tag, lower, host)) && seen == Elements(out)
  {
    hide HitsFrom, Dedup, Elements;
    seen, out := seen0, out0;
    assert texts + tag[..0] == texts;
    for j := 0 to |tag|
      invariant out == Dedup(HitsIn(texts + tag[..j], lower, host)) && seen == Elements(out)
    {
      ghost var before := texts + tag[..j];
      seen, out := Scan(lower(tag[j]), host, seen, out, HitsIn(before, lower, host));
      assert texts + tag[..j + 1] == before + [tag[j]];
      assert (before + [tag[j]])[..|before|] == before;
    }
    assert tag[..|tag|] == tag;
  }

  lemma NothingScanned(evt: Event, lower: string -> string, host: string)
    ensures Dedup(HitsIn([], lower, host)) == [] && Elements([]) == {}
    ensures HitsIn([evt.content], lower, host) == HitsIn([], lower, host) + HitsFrom(lower(evt.content), host + "/", 0)
  {
    hide HitsFrom;
    assert [evt.content][..0] == [];
  }

  // ---- the index ----

  datatype ModRef = ModRef(coord: string, title: string)

  predicate HasCoord(refs: seq<ModRef>, coord: string) { exists i :: 0 <= i < |refs| && refs[i].coord == coord }

  function RefOf(evt: Event): ModRef { ModRef(ModerationKey(evt), TagValue(evt.tags, "title")) }

  /** note ignores every event when the public URL has no host. */
  ghost predicate Refers(evt: Event, lower: string -> string, host: string, h: string) {
    host != "" && LinksTo(evt, lower, host, h)
  }

  /** The references of all events in the history that link to h, in order. */
  ghost function Linking(history: seq<Event>, lower: string -> string, host: string, h: string): seq<ModRef> {
    if history == [] then []
    else
      var n := |history| - 1;
      Linking(history[..n], lower, host, h) + if Refers(history[n], lower, host, h) then [RefOf(history[n])] else []
  }

  lemma HasCoordAppend(refs: seq<ModRef>, ref: ModRef)
    ensures forall c :: HasCoord(refs + [ref], c) <==> HasCoord(refs, c) || ref.coord == c
  {
    forall c
      ensures HasCoord(refs + [ref], c) <==> HasCoord(refs, c) || ref.coord == c
    {
      if HasCoord(refs, c) {
        var i :| 0 <= i < |refs| && refs[i].coord == c;
        assert (refs + [ref])[i].coord == c;
      }
      assert (refs + [ref])[|refs|] == ref;
    }
  }

  /** The first reference of each coordinate. */
  function FirstByCoord(refs: seq<ModRef>): (d: seq<ModRef>)
    ensures forall i, j :: 0 <= i < j < |d| ==> d[i].coord != d[j].coord
    ensures forall c :: HasCoord(d, c) <==> HasCoord(refs, c)
  {
    if refs == [] then []
    else
      var n := |refs| - 1;
      var d := FirstByCoord(refs[..n]);
      HasCoordAppend(refs[..n], refs[n]);
      HasCoordAppend(d, refs[n]);
      assert refs == refs[..n] + [refs[n]];
      if HasCoord(d, refs[n].coord) then d else d + [refs[n]]
  }

  /** Entries in the order of their first appearance, each as it first appeared. */
  lemma {:induction false} FirstByCoordMeans(refs: seq<ModRef>) returns (at: seq<nat>)
    ensures |at| == |FirstByCoord(refs)| && forall i, j :: 0 <= i < j < |at| ==> at[i] < at[j]
    ensures forall i :: 0 <= i < |at| ==> at[i] < |refs| && FirstByCoord(refs)[i] == refs[at[i]]
    ensures forall i, k :: 0 <= i < |at| && 0 <= k < at[i] ==> refs[k].coord != refs[at[i]].coord
  {
    at := [];
    if refs != [] {
      var n := |refs| - 1;
      var init := refs[..n];
      at := FirstByCoordMeans(init);
      if !HasCoord(FirstByCoord(init), refs[n].coord) {
        assert !HasCoord(init, refs[n].coord);
        assert forall k :: 0 <= k < n ==> init[k].coord != refs[n].coord;
        at := at + [n];
      }
    }
  }

  /** Fifty at most. */
  lemma CappedMeans(refs: seq<ModRef>)
    ensures Capped(refs) <= refs && |Capped(refs)| == if |refs| <= 50 then |refs| else 50
  {}

  function Capped(refs: seq<ModRef>): seq<ModRef> { if |refs| > MAX_REFS then refs[..MAX_REFS] else refs }

  /** What the index should hold for h after a history: the first fifty distinct coordinates among
      the events that link to h, each with the title it was first seen with. */
  ghost function RefsOf(history: seq<Event>, lower: string -> string, host: string, h: string): seq<ModRef> {
    Capped(FirstByCoord(Linking(history, lower, host, h)))
  }

  function Lookup(m: map<string, seq<ModRef>>, h: string): seq<ModRef> { if h in m then m[h] else [] }

  /** What the loop of note does to one entry. */
  function Added(refs: seq<ModRef>, ref: ModRef): seq<ModRef> {
    if |refs| >= MAX_REFS || HasCoord(refs, ref.coord) then refs else refs + [ref]
  }

  lemma FirstByCoordAppend(refs: seq<ModRef>, ref: ModRef)
    ensures FirstByCoord(refs + [ref]) ==
      if HasCoord(FirstByCoord(refs), ref.coord) then FirstByCoord(refs) else FirstByCoord(refs) + [ref]
  {
    assert (refs + [ref])[..|refs|] == refs;
  }

  /** One more event: appending under the cap is what the reference definition does. */
  lemma RefsStep(history: seq<Event>, evt: Event, lower: string -> string, host: string, h: string)
    ensures RefsOf(history + [evt], lower, host, h) ==
      if Refers(evt, lower, host, h) then Added(RefsOf(history, lower, host, h), RefOf(evt))
      else RefsOf(history, lower, host, h)
  {
    hide FirstByCoord, Refers;
    var refs := Linking(history, lower, host, h);
    assert (history + [evt])[..|history|] == history && (history + [evt])[|history|] == evt;
    assert refs + [] == refs;
    if Refers(evt, lower, host, h) {
      FirstByCoordAppend(refs, RefOf(evt));
      CappedAdd(FirstByCoord(refs), RefOf(evt));
    }
  }

  lemma CappedAdd(d: seq<ModRef>, ref: ModRef)
    ensures Capped(if HasCoord(d, ref.coord) then d else d + [ref]) == Added(Capped(d), ref)
  {
    if |d| >= MAX_REFS {
      assert (d + [ref])[..MAX_REFS] == d[..MAX_REFS];
      assert d[..|d|] == d;
    }
  }

  /** A blob is claimed exactly when some noted event links to it. */
  lemma {:induction false} ClaimedExactly(history: seq<Event>, lower: string -> string, host: string, h: string)
    ensures RefsOf(history, lower, host, h) != [] <==>
      exists i :: 0 <= i < |history| && Refers(history[i], lower, host, h)
  {
    hide Refers, RefsOf;
    if history == [] {
      NoRefs(lower, host, h);
    } else {
      var n := |history| - 1;
      ClaimedExactly(history[..n], lower, host, h);
      RefsStep(history[..n], history[n], lower, host, h);
      assert history[..n] + [history[n]] == history;
      assert forall i :: 0 <= i < n ==> history[..n][i] == history[i];
    }
  }

  lemma NoRefs(lower: string -> string, host: string, h: string)
    ensures RefsOf([], lower, host, h) == []
  {}

  /** One event over the whole index. */
  lemma NoteStep(history: seq<Event>, evt: Event, lower: string -> string, host: string, h: string)
    ensures RefsOf(history + [evt], lower, host, h) ==
      if host != "" && h in Hashes(evt, lower, host)
      then Added(RefsOf(history, lower, host, h), ModRef(ModerationKey(evt), TagValue(evt.tags, "title")))
      else RefsOf(history, lower, host, h)
  {
    hide RefsOf, Hashes, LinksTo;
    RefsStep(history, evt, lower, host, h);
    HashesExact(evt, lower, host, h);
  }

  class Index {
    const host: string
    const lower: string -> string
    var m: map<string, seq<ModRef>>
    ghost var history: seq<Event>

    ghost predicate Valid()
      reads this
    {
      Without(host, '/') && forall h :: Lookup(m, h) == RefsOf(history, lower, host, h)
    }

    constructor (host: string, lower: string -> string)
      requires Without(host, '/')
      ensures Valid() && history == [] && this.host == host && this.lower == lower
    {
      this.host, this.lower := host, lower;
      m, history := map[], [];
    }

    method RefsFor(h: string) returns (refs: seq<ModRef>)
      requires Valid()
      ensures refs == RefsOf(history, lower, host, h)
    {
      refs := Lookup(m, h);
    }

    /** The loop of note, over hashes without repeats. */
    method AddRef(hashes: seq<string>, ref: ModRef)
      requires forall i, j :: 0 <= i < j < |hashes| ==> hashes[i] != hashes[j]
      modifies this`m
      ensures forall h :: Lookup(m, h) == if h in hashes then Added(Lookup(old(m), h), ref) else Lookup(old(m), h)
    {
      hide Added, Lookup, HasCoord;
      for i := 0 to |hashes|
        invariant forall h :: Lookup(m, h) ==
                              if h in hashes[..i] then Added(Lookup(old(m), h), ref) else Lookup(old(m), h)
      {
        var h := hashes[i];
        assert h !in hashes[..i];
        assert hashes[..i + 1] == hashes[..i] + [h];
        AddedIs(Lookup(m, h), ref);
        if |Lookup(m, h)| >= MAX_REFS { continue; }
        if !HasCoord(Lookup(m, h), ref.coord) {
          LookupAfter(m, h, Lookup(m, h) + [ref]);
          m := m[h := Lookup(m, h) + [ref]];
        }
      }
      assert hashes[..|hashes|] == hashes;
    }

    method Note(evt: Event)
      requires Valid()
      modifies this
      ensures Valid() && history == old(history) + [evt]
    {
      hide RefsOf, Hashes, Added, Lookup, HasCoord;
      ghost var before := history;
      history := history + [evt];
      forall h
        ensures RefsOf(history, lower, host, h) ==
          if host != "" && h in Hashes(evt, lower, host) then Added(RefsOf(before, lower, host, h), RefOf(evt))
          else RefsOf(before, lower, host, h)
      {
        NoteStep(before, evt, lower, host, h);
      }
      if host == "" { return; }
      var hashes := ExtractHashes(evt, lower, host);
      if |hashes| == 0 { return; }
      HashesExact(evt, lower, host, "");
      AddRef(hashes, ModRef(ModerationKey(evt), TagValue(evt.tags, "title")));
    }
  }

  lemma AddedIs(refs: seq<ModRef>, ref: ModRef)
    ensures Added(refs, ref) == if |refs| >= MAX_REFS || HasCoord(refs, ref.coord) then refs else refs + [ref]
  {}

  lemma LookupAfter(m: map<string, seq<ModRef>>, h: string, refs: seq<ModRef>)
    ensures forall k :: Lookup(m[h := refs], k) == if k == h then refs else Lookup(m, k)
  {
    forall k
      ensures Lookup(m[h := refs], k) == if k == h then refs else Lookup(m, k)
    {}
  }
}
