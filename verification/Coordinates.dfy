/** Nostr events and the keys the relay bans, deletes and indexes them by. */
module Coordinates {
  import opened Text

  datatype Event = Event(id: string, pubkey: string, createdAt: int, kind: int,
                         tags: seq<seq<string>>, content: string)
  {
    /** What signature and format checks guarantee before any policy runs. */
    predicate WellFormed() {
      IsSha256Hex(id) && Without(pubkey, ':') && Int64(kind)
    }
  }

  predicate HasTag(tag: seq<string>, name: string) { |tag| >= 2 && tag[0] == name }

  /** The value of the first tag of that name, "" when there is none. */
  function TagValue(tags: seq<seq<string>>, name: string): string {
    if tags == [] then ""
    else if HasTag(tags[0], name) then tags[0][1]
    else TagValue(tags[1..], name)
  }

  /** The first tag of the name with a value decides; without one the value is empty. */
  lemma {:induction false} TagValueMeans(tags: seq<seq<string>>, name: string, i: nat)
    requires i <= |tags| && forall j :: 0 <= j < i ==> !(|tags[j]| >= 2 && tags[j][0] == name)
    ensures i < |tags| && |tags[i]| >= 2 && tags[i][0] == name ==> TagValue(tags, name) == tags[i][1]
    ensures i == |tags| ==> TagValue(tags, name) == ""
  {
    if i > 0 {
      assert forall j :: 0 <= j < i - 1 ==> tags[1..][j] == tags[j + 1];
      TagValueMeans(tags[1..], name, i - 1);
    }
  }

  function D(evt: Event): string { TagValue(evt.tags, "d") }

  function Coordinate(kind: int, pubkey: string, d: string): string {
    Decimal(kind) + ":" + pubkey + ":" + d
  }

  function ModerationKey(evt: Event): string {
    if D(evt) != "" then Coordinate(evt.kind, evt.pubkey, D(evt)) else evt.id
  }

  // ---- a printed coordinate is read back ----

  lemma SplitCoordinate(kind: int, pubkey: string, d: string)
    requires Without(pubkey, ':')
    ensures SplitN(Coordinate(kind, pubkey, d), ':', 3) == [Decimal(kind), pubkey, d]
  {
    hide Decimal, SplitN;
    DecimalWithout(kind, ':');
    SplitThree(Decimal(kind), pubkey, d, ':');
    assert Coordinate(kind, pubkey, d) == Decimal(kind) + [':'] + (pubkey + [':'] + d);
  }

  /** Coordinates are injective: colons in d cannot make two addresses print alike. */
  lemma CoordinateInjective(k1: int, p1: string, d1: string, k2: int, p2: string, d2: string)
    requires Without(p1, ':') && Without(p2, ':') && Int64(k1) && Int64(k2)
    requires Coordinate(k1, p1, d1) == Coordinate(k2, p2, d2)
    ensures k1 == k2 && p1 == p2 && d1 == d2
  {
    SplitCoordinate(k1, p1, d1);
    SplitCoordinate(k2, p2, d2);
    ParseOfDecimal(k1);
    ParseOfDecimal(k2);
  }

  lemma CoordinateIsNotHex(kind: int, pubkey: string, d: string)
    ensures !Without(Coordinate(kind, pubkey, d), ':')
    ensures forall id :: IsSha256Hex(id) ==> Without(id, ':') && id != Coordinate(kind, pubkey, d)
  {
    assert Coordinate(kind, pubkey, d)[|Decimal(kind)|] == ':';
  }

  lemma KeysEqual(e1: Event, e2: Event)
    requires e1.WellFormed() && e2.WellFormed()
    ensures ModerationKey(e1) == ModerationKey(e2) <==>
      if D(e1) != "" then e1.kind == e2.kind && e1.pubkey == e2.pubkey && D(e1) == D(e2)
      else D(e2) == "" && e1.id == e2.id
  {
    CoordinateIsNotHex(e1.kind, e1.pubkey, D(e1));
    CoordinateIsNotHex(e2.kind, e2.pubkey, D(e2));
    if D(e1) != "" && D(e2) != "" && ModerationKey(e1) == ModerationKey(e2) {
      CoordinateInjective(e1.kind, e1.pubkey, D(e1), e2.kind, e2.pubkey, D(e2));
    }
  }

  // ---- takedowns: what a ban key deletes ----

  /** The query deleteStoredByKey runs for a key. */
  datatype KeyFilter = ByCoordinate(kind: int, author: string, d: string) | ById(id: string) | Nothing

  function FilterOfKey(key: string): KeyFilter {
    var parts := SplitN(key, ':', 3);
    if |parts| == 3 then
      match ParseInt64(parts[0])
      case None => Nothing
      case Some(kind) => ByCoordinate(kind, parts[1], parts[2])
    else if IsSha256Hex(key) then ById(key)
    else Nothing
  }

  /** A key with two colons asks for a coordinate if it starts with a number. */
  lemma FilterOfThree(a: string, b: string, rest: string)
    requires Without(a, ':') && Without(b, ':')
    ensures FilterOfKey(a + ":" + b + ":" + rest) ==
      match ParseInt64(a) case Some(kind) => ByCoordinate(kind, b, rest) case None => Nothing
  {
    SplitThree(a, b, rest, ':');
    assert a + ":" + b + ":" + rest == a + [':'] + (b + [':'] + rest);
  }

  /** One with fewer asks for an id if it is 64 lowercase hex digits. */
  lemma FilterOfShort(a: string, b: string)
    requires Without(a, ':') && Without(b, ':')
    ensures FilterOfKey(a) == if IsSha256Hex(a) then ById(a) else Nothing
    ensures FilterOfKey(a + ":" + b) == Nothing
  {
    var key := a + ":" + b;
    NoPiece(a, ':');
    NoPiece(b, ':');
    FirstPiece(a, ':', b);
    assert key == a + [':'] + b;
    assert SplitN(b, ':', 2) == [b];
    assert SplitN(key, ':', 3) == [a] + SplitN(b, ':', 2);
    assert key[|a|] == ':';
  }

  predicate CarriesD(evt: Event, d: string) {
    exists i :: 0 <= i < |evt.tags| && HasTag(evt.tags[i], "d") && evt.tags[i][1] == d
  }

  /** NIP-01 filter matching: a tag filter looks at every tag of that name. */
  predicate Matches(f: KeyFilter, evt: Event) {
    match f
    case ByCoordinate(kind, author, d) => evt.kind == kind && evt.pubkey == author && CarriesD(evt, d)
    case ById(id) => evt.id == id
    case Nothing => false
  }

  lemma {:induction false} TagValueIsCarried(tags: seq<seq<string>>, name: string)
    requires TagValue(tags, name) != ""
    ensures exists i :: 0 <= i < |tags| && HasTag(tags[i], name) && tags[i][1] == TagValue(tags, name)
  {
    if HasTag(tags[0], name) {
    } else {
      TagValueIsCarried(tags[1..], name);
      var i :| 0 <= i < |tags[1..]| && HasTag(tags[1..][i], name) && tags[1..][i][1] == TagValue(tags[1..], name);
      assert tags[i + 1] == tags[1..][i];
    }
  }

  lemma FilterOfCoordinate(kind: int, pubkey: string, d: string)
    requires Without(pubkey, ':') && Int64(kind)
    ensures FilterOfKey(Coordinate(kind, pubkey, d)) == ByCoordinate(kind, pubkey, d)
  {
    SplitCoordinate(kind, pubkey, d);
    ParseOfDecimal(kind);
  }

  lemma FilterOfId(id: string)
    requires IsSha256Hex(id)
    ensures FilterOfKey(id) == ById(id)
  {
    assert Without(id, ':');
    NoPiece(id, ':');
  }

  /** A takedown's delete reaches every stored event its ban rejects. */
  lemma TakedownCovers(evt: Event)
    requires evt.WellFormed()
    ensures Matches(FilterOfKey(ModerationKey(evt)), evt)
  {
    if D(evt) != "" {
      FilterOfCoordinate(evt.kind, evt.pubkey, D(evt));
      TagValueIsCarried(evt.tags, "d");
    } else {
      FilterOfId(evt.id);
    }
  }

  /** It reaches others exactly when they carry the target's identifier in a d tag that is not their
      first: a tag filter looks at every d tag, the key at the first one. */
  lemma TakedownExact(target: Event, evt: Event)
    requires target.WellFormed() && evt.WellFormed() && (evt.id == target.id ==> evt == target)
    ensures Matches(FilterOfKey(ModerationKey(target)), evt) <==>
      ModerationKey(evt) == ModerationKey(target)
      || (D(target) != "" && evt.kind == target.kind && evt.pubkey == target.pubkey
          && D(evt) != D(target) && CarriesD(evt, D(target)))
  {
    KeysEqual(target, evt);
    if D(target) != "" {
      FilterOfCoordinate(target.kind, target.pubkey, D(target));
      if D(evt) != "" { TagValueIsCarried(evt.tags, "d"); }
    } else {
      FilterOfId(target.id);
    }
  }

  /** The ban handler trims the key it is given, so an event whose d ends in white space is out of
      a takedown's reach; every other event's own key bans it. */
  lemma BanReaches(evt: Event)
    requires evt.WellFormed()
    ensures TrimSpace(ModerationKey(evt)) == ModerationKey(evt) <==>
      D(evt) == "" || !Space(D(evt)[|D(evt)| - 1])
  {
    var key := ModerationKey(evt);
    TrimFixpoint(key);
    assert !Space(key[0]) by {
      assert D(evt) != "" ==> key[0] == Decimal(evt.kind)[0];
    }
    if D(evt) != "" {
      assert key[|key| - 1] == D(evt)[|D(evt)| - 1];
    }
  }
}
