/** The three persistent records about blobs: who uploaded them, which are withheld, which are barred. */
module BlobRecords {

  const MAX_UPLOADERS: nat := 50

  type OwnerMap = map<string, seq<string>>

  function Owners(m: OwnerMap, hash: string): seq<string> { if hash in m then m[hash] else [] }

  predicate NoRepeats(list: seq<string>) { forall i, j :: 0 <= i < j < |list| ==> list[i] != list[j] }

  /** A new uploader goes to the end, once, while there is room. */
  function AddOwner(m: OwnerMap, hash: string, pubkey: string): OwnerMap {
    var list := Owners(m, hash);
    if hash == "" || pubkey == "" || pubkey in list || |list| >= MAX_UPLOADERS then m else m[hash := list + [pubkey]]
  }

  function PositionFrom(list: seq<string>, pubkey: string, i: nat): (idx: int)
    requires i <= |list|
    ensures idx == -1 ==> forall k :: i <= k < |list| ==> list[k] != pubkey
    ensures idx != -1 ==> i <= idx < |list| && list[idx] == pubkey && forall k :: i <= k < idx ==> list[k] != pubkey
    decreases |list| - i
  {
    if i == |list| then -1 else if list[i] == pubkey then i else PositionFrom(list, pubkey, i + 1)
  }

  /** The list without the first occurrence of pubkey. */
  function Dropped(list: seq<string>, pubkey: string): seq<string> {
    var idx := PositionFrom(list, pubkey, 0);
    if idx < 0 then list else list[..idx] + list[idx + 1..]
  }

  function DropOwner(m: OwnerMap, hash: string, pubkey: string): OwnerMap {
    if pubkey !in Owners(m, hash) then m
    else
      var list := Dropped(Owners(m, hash), pubkey);
      if list == [] then m - {hash} else m[hash := list]
  }

  /** Dropping removes that uploader and nobody else, and keeps the order of the rest. */
  lemma DroppedMeans(list: seq<string>, pubkey: string)
    requires NoRepeats(list)
    ensures NoRepeats(Dropped(list, pubkey))
    ensures forall pk :: pk in Dropped(list, pubkey) <==> pk in list && pk != pubkey
  {
    hide NoRepeats;
    var idx := PositionFrom(list, pubkey, 0);
    if idx >= 0 {
      SubsequenceNoRepeats(list, idx);
      SubsequenceMembers(list, idx);
    }
  }

  lemma SubsequenceMembers(list: seq<string>, idx: nat)
    requires NoRepeats(list) && idx < |list|
    ensures forall x :: x in list[..idx] + list[idx + 1..] <==> x in list && x != list[idx]
  {
    var front, back := list[..idx], list[idx + 1..];
    forall k | 0 <= k < |back|
      ensures back[k] == list[idx + 1 + k] != list[idx]
    {}
    assert list == front + [list[idx]] + back;
    forall x
      ensures x in front + back <==> x in list && x != list[idx]
    {
      assert x in list <==> x in front || x == list[idx] || x in back;
    }
  }

  lemma SubsequenceNoRepeats(list: seq<string>, idx: nat)
    requires NoRepeats(list) && idx < |list|
    ensures NoRepeats(list[..idx] + list[idx + 1..])
  {
    var d := list[..idx] + list[idx + 1..];
    forall i, j | 0 <= i < j < |d|
      ensures d[i] != d[j]
    {
      assert d[i] == list[if i < idx then i else i + 1];
      assert d[j] == list[if j < idx then j else j + 1];
    }
  }

  /** A claim taken back at once leaves the record as it was. */
  lemma AddThenDrop(m: OwnerMap, hash: string, pubkey: string)
    requires hash != "" && pubkey != "" && pubkey !in Owners(m, hash) && |Owners(m, hash)| < MAX_UPLOADERS
    requires hash in m ==> m[hash] != []
    ensures DropOwner(AddOwner(m, hash, pubkey), hash, pubkey) == m
  {
    var list := Owners(m, hash);
    var more := list + [pubkey];
    var idx := PositionFrom(more, pubkey, 0);
    assert more[|list|] == pubkey;
    assert idx == |list| by { assert forall k :: 0 <= k < |list| ==> more[k] == list[k]; }
    assert more[..idx] + more[idx + 1..] == list;
  }

  /** The uploaders of every blob, in memory and as last saved. A failed save is not noticed. */
  class BlobOwners {
    var m: OwnerMap
    var onDisk: OwnerMap

    constructor ()
      ensures m == map[] && onDisk == map[]
    {
      m, onDisk := map[], map[];
    }

    method First(hash: string) returns (pubkey: string)
      ensures pubkey == if Owners(m, hash) == [] then "" else Owners(m, hash)[0]
    {
      if hash in m && |m[hash]| > 0 { return m[hash][0]; }
      return "";
    }

    method List(hash: string) returns (list: seq<string>)
      ensures list == Owners(m, hash)
    {
      list := if hash in m then m[hash] else [];
    }

    method Add(hash: string, pubkey: string, saved: bool)
      modifies this
      ensures m == AddOwner(old(m), hash, pubkey)
      ensures onDisk == if m != old(m) && saved then m else old(onDisk)
    {
      if hash == "" || pubkey == "" { return; }
      var list := if hash in m then m[hash] else [];
      for i := 0 to |list|
        invariant pubkey !in list[..i]
      {
        if list[i] == pubkey { return; }
        assert list[..i + 1] == list[..i] + [list[i]];
      }
      assert list[..|list|] == list;
      if |list| >= MAX_UPLOADERS { return; }
      m := m[hash := list + [pubkey]];
      assert Owners(m, hash) != Owners(old(m), hash);
      if saved { onDisk := m; }
    }

    method RemoveOne(hash: string, pubkey: string, saved: bool) returns (removed: bool, nowEmpty: bool)
      modifies this
      ensures m == DropOwner(old(m), hash, pubkey)
      ensures onDisk == if m != old(m) && saved then m else old(onDisk)
      ensures removed <==> pubkey in Owners(old(m), hash)
      ensures nowEmpty <==> if removed then Dropped(Owners(old(m), hash), pubkey) == [] else Owners(m, hash) == []
    {
      var list := if hash in m then m[hash] else [];
      var idx := -1;
      for i := 0 to |list|
        invariant idx == -1 && PositionFrom(list, pubkey, i) == PositionFrom(list, pubkey, 0)
      {
        if list[i] == pubkey {
          idx := i;
          break;
        }
      }
      assert idx == PositionFrom(list, pubkey, 0);
      if idx < 0 { return false, |list| == 0; }
      assert list[idx] in list;
      list := list[..idx] + list[idx + 1..];
      if |list| == 0 {
        m := m - {hash};
      } else {
        m := m[hash := list];
      }
      assert |Owners(m, hash)| < |Owners(old(m), hash)|;
      if saved { onDisk := m; }
      return true, |list| == 0;
    }

    method Remove(hash: string, saved: bool)
      modifies this
      ensures m == old(m) - {hash}
      ensures onDisk == if m != old(m) && saved then m else old(onDisk)
    {
      if hash !in m {
        assert m == m - {hash};
        return;
      }
      m := m - {hash};
      if saved { onDisk := m; }
    }

    method Reload()
      modifies this
      ensures m == old(onDisk) == onDisk
    {
      m := onDisk;
    }
  }

  /** The withheld blobs, in memory and as last saved. A failed save is not noticed. */
  class Quarantine {
    var since: map<string, int>
    var onDisk: map<string, int>

    constructor ()
      ensures since == map[] && onDisk == map[]
    {
      since, onDisk := map[], map[];
    }

    method Has(hash: string) returns (found: bool)
      ensures found <==> hash in since
    {
      found := hash in since;
    }

    /** Adding again keeps the first time. */
    method Add(hash: string, now: int, saved: bool)
      modifies this
      ensures since == if hash in old(since) then old(since) else old(since)[hash := now]
      ensures since.Keys == old(since).Keys + {hash}
      ensures onDisk == if since.Keys != old(since).Keys && saved then since else old(onDisk)
    {
      if hash in since { return; }
      since := since[hash := now];
      if saved { onDisk := since; }
    }

    method Remove(hash: string, saved: bool)
      modifies this
      ensures since == old(since) - {hash} && since.Keys == old(since).Keys - {hash}
      ensures onDisk == if since.Keys != old(since).Keys && saved then since else old(onDisk)
    {
      if hash !in since {
        assert since == since - {hash};
        return;
      }
      since := since - {hash};
      if saved { onDisk := since; }
    }

    method Reload()
      modifies this
      ensures since == old(onDisk) == onDisk
    {
      since := onDisk;
    }
  }

  datatype BlacklistMeta = BlacklistMeta(reason: string, added: int)

  /** The barred hashes, in memory and as last saved. A failed save is reported. */
  class Blacklist {
    var entries: map<string, BlacklistMeta>
    var onDisk: map<string, BlacklistMeta>

    constructor ()
      ensures entries == map[] && onDisk == map[]
    {
      entries, onDisk := map[], map[];
    }

    method Has(hash: string) returns (found: bool)
      ensures found <==> hash in entries
    {
      found := hash in entries;
    }

    /** The reason is replaced; the time is kept once it has been set. */
    method Add(hash: string, reason: string, now: int, saved: bool) returns (ok: bool)
      modifies this
      ensures entries == old(entries)[hash := BlacklistMeta(reason,
        if hash in old(entries) && old(entries)[hash].added != 0 then old(entries)[hash].added else now)]
      ensures entries.Keys == old(entries).Keys + {hash}
      ensures ok == saved && onDisk == if saved then entries else old(onDisk)
    {
      var meta := if hash in entries then entries[hash] else BlacklistMeta("", 0);
      meta := meta.(reason := reason);
      if meta.added == 0 { meta := meta.(added := now); }
      entries := entries[hash := meta];
      if saved { onDisk := entries; }
      ok := saved;
    }

    method Remove(hash: string, saved: bool) returns (ok: bool)
      modifies this
      ensures entries == old(entries) - {hash} && entries.Keys == old(entries).Keys - {hash}
      ensures ok == saved && onDisk == if saved then entries else old(onDisk)
    {
      entries := entries - {hash};
      if saved { onDisk := entries; }
      ok := saved;
    }

    method Reload()
      modifies this
      ensures entries == old(onDisk) == onDisk
    {
      entries := onDisk;
    }
  }
}
