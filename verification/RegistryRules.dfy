/** What the registry keeps, and what it means for its tables and the stores to agree. */
module RegistryRules {
  import opened Bytes
  import opened RecordCodec
  import opened RegistryKeys

  const MAX_ENTRIES := 50
  const MAX_BLOBS := 64
  const MAX_RESIDENT := 16
  const SEEDED: byte := 1
  const CLOCK_UNSET: byte := 4

  /** The primary store's records; None is bytes this build reads as no record. */
  type Records = map<Key, Option<Meta>>

  /** A stage the store holds open; broken once a write to it failed. */
  datatype Staged = Staged(bytes: seq<byte>, broken: bool)

  /** A store as the registry sees it. */
  datatype Depot = Depot(blobs: map<Digest, seq<byte>>, maps: multiset<Digest>, staged: Option<Staged>)

  /** Where a mapped blob is; distinct digests are at distinct places. */
  datatype Ptr = InStore(store: nat, digest: Digest) | InFirmware(addr: nat)

  datatype Pending = Pending(key: Key, index: nat, digest: Digest, length: uint32, order: uint32)

  datatype Mapping = Mapping(digest: Digest, ptr: Ptr, length: nat, store: Option<nat>, users: nat)

  datatype Resident = Resident(key: Key, addr: nat, length: uint32, created: int64, digest: Digest)

  type Slots<T> = seq<Option<T>>

  predicate Names(m: Meta, d: Digest) {
    exists i | 0 <= i < |m.layers| :: m.layers[i].digest == d
  }

  /** A record that can be read lists the digest. */
  predicate Listed(recs: Records, d: Digest) {
    exists k | k in recs :: recs[k].Some? && Names(recs[k].value, d)
  }

  predicate Waits(pending: Slots<Pending>, d: Digest) {
    exists i | 0 <= i < |pending| :: pending[i].Some? && pending[i].value.digest == d
  }

  /** A slot waits with this digest and length for this layer of this entry. */
  predicate WaitsAs(pending: Slots<Pending>, key: Key, index: nat, d: Digest, length: uint32) {
    exists i | 0 <= i < |pending| ::
      && pending[i].Some? && pending[i].value.key == key && pending[i].value.index == index
      && pending[i].value.digest == d && pending[i].value.length == length
  }

  predicate Mapped(maps: Slots<Mapping>, d: Digest) {
    exists i | 0 <= i < |maps| :: maps[i].Some? && maps[i].value.digest == d
  }

  predicate Stored(stores: seq<Depot>, d: Digest) {
    exists s | 0 <= s < |stores| :: d in stores[s].blobs
  }

  predicate Resides(residents: Slots<Resident>, d: Digest) {
    exists i | 0 <= i < |residents| :: residents[i].Some? && residents[i].value.digest == d
  }

  predicate Present(stores: seq<Depot>, residents: Slots<Resident>, d: Digest) {
    Resides(residents, d) || Stored(stores, d)
  }

  /** Something still needs the blob. */
  predicate Needed(recs: Records, pending: Slots<Pending>, maps: Slots<Mapping>, d: Digest) {
    Listed(recs, d) || Waits(pending, d) || Mapped(maps, d)
  }

  /** Every digest listed or waiting is held somewhere. */
  ghost predicate NoDangling(recs: Records, pending: Slots<Pending>, stores: seq<Depot>, residents: Slots<Resident>) {
    forall d: Digest | Listed(recs, d) || Waits(pending, d) :: Present(stores, residents, d)
  }

  /** Every stored blob is needed, those of `spare` aside. */
  ghost predicate NoLeak(recs: Records, pending: Slots<Pending>, maps: Slots<Mapping>, stores: seq<Depot>,
                         spare: set<Digest>) {
    forall d: Digest | Stored(stores, d) :: Needed(recs, pending, maps, d) || d in spare
  }

  // ---- Freeing ----

  /** Blobs went, all of them from `ds` and none of them needed; nothing else changed. */
  ghost predicate Freed(was: seq<Depot>, now: seq<Depot>, ds: set<Digest>,
                        recs: Records, pending: Slots<Pending>, maps: Slots<Mapping>)
  {
    && |now| == |was|
    && (forall s | 0 <= s < |was| ::
          && now[s].maps == was[s].maps && now[s].staged == was[s].staged
          && now[s].blobs.Keys <= was[s].blobs.Keys
          && (forall d | d in now[s].blobs :: now[s].blobs[d] == was[s].blobs[d])
          && (forall d | d in was[s].blobs && d !in now[s].blobs :: d in ds && !Needed(recs, pending, maps, d)))
  }

  lemma {:induction false} FreedNothing(was: seq<Depot>, ds: set<Digest>, recs: Records, pending: Slots<Pending>,
                                        maps: Slots<Mapping>)
    ensures Freed(was, was, ds, recs, pending, maps)
  {
    hide Needed;
  }

  lemma {:induction false} FreedMore(a: seq<Depot>, b: seq<Depot>, c: seq<Depot>, ds: set<Digest>, es: set<Digest>,
                                     recs: Records, pending: Slots<Pending>, maps: Slots<Mapping>)
    requires Freed(a, b, ds, recs, pending, maps) && Freed(b, c, es, recs, pending, maps)
    requires ds <= es
    ensures Freed(a, c, es, recs, pending, maps)
  {
    hide Needed;
  }

  /** Freeing what nothing needs leaves nothing dangling. */
  lemma {:induction false} FreedKeeps(was: seq<Depot>, now: seq<Depot>, ds: set<Digest>,
                                      recs: Records, pending: Slots<Pending>, maps: Slots<Mapping>,
                                      residents: Slots<Resident>)
    requires Freed(was, now, ds, recs, pending, maps)
    ensures NoDangling(recs, pending, was, residents) ==> NoDangling(recs, pending, now, residents)
    ensures forall d: Digest | Needed(recs, pending, maps, d) :: Stored(was, d) ==> Stored(now, d)
    ensures forall d: Digest :: Stored(now, d) ==> Stored(was, d)
  {
    hide Needed;
    forall d: Digest | Needed(recs, pending, maps, d) && Stored(was, d) ensures Stored(now, d) {
      var s :| 0 <= s < |was| && d in was[s].blobs;
      assert d in now[s].blobs;
    }
    forall d: Digest | Stored(now, d) ensures Stored(was, d) {
      var s :| 0 <= s < |now| && d in now[s].blobs;
      assert d in was[s].blobs;
    }
    NeededWhen(recs, pending, maps);
  }

  lemma {:induction false} NeededWhen(recs: Records, pending: Slots<Pending>, maps: Slots<Mapping>)
    ensures forall d: Digest | Listed(recs, d) || Waits(pending, d) :: Needed(recs, pending, maps, d)
  {
  }

  // ---- Pending slots ----

  /** No two slots wait for the same layer of the same entry, and every layer is in range. */
  ghost predicate PendingOk(pending: Slots<Pending>, max: nat) {
    && (forall i | 0 <= i < |pending| && pending[i].Some? :: pending[i].value.index < max)
    && (forall i, j | 0 <= i < j < |pending| && pending[i].Some? && pending[j].Some? ::
          pending[i].value.key != pending[j].value.key || pending[i].value.index != pending[j].value.index)
  }

  /** What setting a slot does to what waits. */
  lemma {:induction false} SlotSet(pending: Slots<Pending>, k: nat, p: Pending)
    requires k < |pending|
    ensures var now := pending[k := Some(p)];
            && Waits(now, p.digest)
            && (forall d: Digest | Waits(now, d) :: d == p.digest || Waits(pending, d))
            && (forall d: Digest | Waits(pending, d) ::
              Waits(now, d) || (pending[k].Some? && d == pending[k].value.digest))
  {
    var now := pending[k := Some(p)];
    assert now[k].value.digest == p.digest;
    forall d: Digest | Waits(now, d) ensures d == p.digest || Waits(pending, d) {
      var i :| 0 <= i < |now| && now[i].Some? && now[i].value.digest == d;
      assert i != k ==> pending[i] == now[i];
    }
    forall d: Digest | Waits(pending, d) ensures Waits(now, d) || (pending[k].Some? && d == pending[k].value.digest) {
      var i :| 0 <= i < |pending| && pending[i].Some? && pending[i].value.digest == d;
      assert i != k ==> now[i] == pending[i];
    }
  }

  /** A slot taken for a layer held somewhere: nothing dangles, and only what it replaced may be spare. */
  lemma {:induction false} SlotKeeps(pending: Slots<Pending>, k: nat, p: Pending, recs: Records, maps: Slots<Mapping>,
                                     stores: seq<Depot>, residents: Slots<Resident>, spare: set<Digest>)
    requires k < |pending| && Present(stores, residents, p.digest)
    requires NoLeak(recs, pending, maps, stores, {p.digest}) ==>
               (pending[k].Some? && pending[k].value.digest != p.digest ==> pending[k].value.digest in spare)
    ensures NoDangling(recs, pending, stores, residents) ==> NoDangling(recs, pending[k := Some(p)], stores, residents)
    ensures NoLeak(recs, pending, maps, stores, {p.digest}) ==> NoLeak(recs, pending[k := Some(p)], maps, stores, spare)
  {
    hide Waits, Listed, Mapped, Present, Stored;
    SlotSet(pending, k, p);
  }

  /** No slot holds that layer of that entry. */
  predicate Lacks(pending: Slots<Pending>, key: Key, index: nat) {
    forall i | 0 <= i < |pending| && pending[i].Some? :: pending[i].value.key != key || pending[i].value.index != index
  }

  /** The slots of other entries. */
  function Cleared(pending: Slots<Pending>, key: Key): (r: Slots<Pending>)
    ensures |r| == |pending|
    ensures forall i | 0 <= i < |r| ::
              r[i] == if pending[i].Some? && pending[i].value.key == key then None else pending[i]
  {
    seq(|pending|, i requires 0 <= i < |pending| =>
      if pending[i].Some? && pending[i].value.key == key then None else pending[i])
  }

  /** A slot waits with this layer. */
  ghost predicate Offers(pending: Slots<Pending>, key: Key, index: nat, layer: Layer) {
    exists i | 0 <= i < |pending| ::
      && pending[i].Some? && pending[i].value.key == key && pending[i].value.index == index
      && layer == Layer(pending[i].value.length, pending[i].value.digest)
  }

  /** The record's layers are those waiting for its entry. */
  ghost predicate Gathered(pending: Slots<Pending>, key: Key, layers: seq<Layer>) {
    forall l | 0 <= l < |layers| :: Offers(pending, key, l, layers[l])
  }

  /** The length of the layer waiting for this place of an entry, or 0. */
  function LengthAt(pending: Slots<Pending>, key: Key, index: nat): uint32 {
    if pending == [] then 0
    else if pending[0].Some? && pending[0].value.key == key && pending[0].value.index == index then
      pending[0].value.length
    else LengthAt(pending[1..], key, index)
  }

  /** The lengths of the first `n` layers waiting for an entry, together. */
  function WaitingSum(pending: Slots<Pending>, key: Key, n: nat): nat {
    if n == 0 then 0 else WaitingSum(pending, key, n - 1) + LengthAt(pending, key, n - 1)
  }

  lemma {:induction false} SumGrows(pending: Slots<Pending>, key: Key, m: nat, n: nat)
    requires m <= n
    ensures WaitingSum(pending, key, m) <= WaitingSum(pending, key, n)
    decreases n
  {
    hide LengthAt;
    if m < n {
      SumGrows(pending, key, m, n - 1);
    }
  }

  /** The first `n` layers of an entry wait, and their lengths together fit 32 bits. */
  predicate Fitting(pending: Slots<Pending>, key: Key, n: nat) {
    (forall l | 0 <= l < n :: !Lacks(pending, key, l)) && WaitingSum(pending, key, n) < 0x1_0000_0000
  }

  /** A layer is missing before the lengths are too much. */
  predicate FirstMissing(pending: Slots<Pending>, key: Key, count: nat) {
    exists l | 0 <= l < count :: Fitting(pending, key, l) && Lacks(pending, key, l)
  }

  /** What a commit that nothing hinders needs. */
  predicate Committable(pending: Slots<Pending>, recs: Records, residents: Slots<Resident>, key: Key, count: nat,
                        max: nat) {
    && 0 < count <= max && Fitting(pending, key, count)
    && (Entry(recs, residents, key).Some? || |recs| < MAX_ENTRIES)
  }

  /** A layer of the entry past its count. */
  predicate Excess(p: Option<Pending>, key: Key, count: nat) {
    p.Some? && p.value.key == key && p.value.index >= count
  }

  lemma {:induction false} GatheredNames(pending: Slots<Pending>, key: Key, m: Meta, d: Digest)
    requires Gathered(pending, key, m.layers) && Names(m, d)
    ensures Waits(pending, d)
  {
    var l :| 0 <= l < |m.layers| && m.layers[l].digest == d;
    assert Offers(pending, key, l, m.layers[l]);
    var i :| 0 <= i < |pending| && pending[i].Some? && pending[i].value.key == key && pending[i].value.index == l
             && m.layers[l] == Layer(pending[i].value.length, pending[i].value.digest);
    assert pending[i].value.digest == d;
  }

  lemma {:induction false} ListedPut(recs: Records, key: Key, m: Meta, d: Digest)
    ensures Listed(recs[key := Some(m)], d) ==> Names(m, d) || Listed(recs, d)
    ensures Names(m, d) ==> Listed(recs[key := Some(m)], d)
    ensures Listed(recs, d) ==>
              Listed(recs[key := Some(m)], d) || (key in recs && recs[key].Some? && Names(recs[key].value, d))
  {
    hide Names;
    var now := recs[key := Some(m)];
    if Names(m, d) {
      assert key in now;
    }
    if Listed(recs, d) {
      var k :| k in recs && recs[k].Some? && Names(recs[k].value, d);
      if k != key {
        assert k in now && now[k] == recs[k];
      }
    }
  }

  lemma {:induction false} ClearedWaits(pending: Slots<Pending>, key: Key, d: Digest)
    ensures Waits(Cleared(pending, key), d) ==> Waits(pending, d)
    ensures Waits(pending, d) && !Waits(Cleared(pending, key), d) ==>
              exists i | 0 <= i < |pending| ::
                pending[i].Some? && pending[i].value.key == key && pending[i].value.digest == d
  {
    var now := Cleared(pending, key);
    if Waits(now, d) {
      var i :| 0 <= i < |now| && now[i].Some? && now[i].value.digest == d;
      assert pending[i] == now[i];
    }
    if Waits(pending, d) {
      var i :| 0 <= i < |pending| && pending[i].Some? && pending[i].value.digest == d;
      if pending[i].value.key != key {
        assert now[i] == pending[i];
      }
    }
  }

  /** A commit leaves nothing dangling: every layer it lists was waiting. */
  lemma {:induction false} CommitSound(recs: Records, pending: Slots<Pending>, stores: seq<Depot>,
                                       residents: Slots<Resident>,
                                       key: Key, m: Meta)
    requires NoDangling(recs, pending, stores, residents) && Gathered(pending, key, m.layers)
    ensures NoDangling(recs[key := Some(m)], Cleared(pending, key), stores, residents)
  {
    hide Names, Listed, Waits, Present, Gathered, Cleared;
    var now, rest := recs[key := Some(m)], Cleared(pending, key);
    forall d: Digest | Listed(now, d) || Waits(rest, d) ensures Present(stores, residents, d) {
      ListedPut(recs, key, m, d);
      ClearedWaits(pending, key, d);
      if Names(m, d) {
        GatheredNames(pending, key, m, d);
      }
    }
  }

  /** After a commit only the replaced record's layers and the layers past its count may be spare. */
  lemma {:induction false} CommitSpare(recs: Records, pending: Slots<Pending>, maps: Slots<Mapping>, stores: seq<Depot>,
                                       key: Key, m: Meta, max: nat, freed: set<Digest>)
    requires NoLeak(recs, pending, maps, stores, {}) && PendingOk(pending, max) && Gathered(pending, key, m.layers)
    requires key in recs && recs[key].Some? ==> forall d: Digest | Names(recs[key].value, d) :: d in freed
    requires forall i | 0 <= i < |pending| && Excess(pending[i], key, |m.layers|) :: pending[i].value.digest in freed
    ensures NoLeak(recs[key := Some(m)], Cleared(pending, key), maps, stores, freed)
  {
    hide Names, Listed, Waits, Mapped, Stored, Cleared;
    var now, rest := recs[key := Some(m)], Cleared(pending, key);
    forall d: Digest | Stored(stores, d) && !Needed(now, rest, maps, d) ensures d in freed {
      ListedPut(recs, key, m, d);
      ClearedWaits(pending, key, d);
      if Waits(pending, d) && !Waits(rest, d) {
        var i :| 0 <= i < |pending| && pending[i].Some? && pending[i].value.key == key && pending[i].value.digest == d;
        if pending[i].value.index < |m.layers| {
          GatheredIs(pending, key, m, max, i);
        }
      }
    }
  }

  lemma {:induction false} GatheredIs(pending: Slots<Pending>, key: Key, m: Meta, max: nat, i: nat)
    requires PendingOk(pending, max) && Gathered(pending, key, m.layers)
    requires i < |pending| && pending[i].Some? && pending[i].value.key == key && pending[i].value.index < |m.layers|
    ensures Names(m, pending[i].value.digest)
  {
    var l := pending[i].value.index;
    assert Offers(pending, key, l, m.layers[l]);
    var j :| 0 <= j < |pending| && pending[j].Some? && pending[j].value.key == key && pending[j].value.index == l
             && m.layers[l] == Layer(pending[j].value.length, pending[j].value.digest);
    assert i == j;
    assert m.layers[l].digest == pending[i].value.digest;
  }

  lemma {:induction false} ClearedOk(pending: Slots<Pending>, key: Key, max: nat)
    requires PendingOk(pending, max)
    ensures PendingOk(Cleared(pending, key), max)
  {
  }

  // ---- Entries ----

  predicate HasResident(residents: Slots<Resident>, k: Key) {
    exists i | 0 <= i < |residents| :: residents[i].Some? && residents[i].value.key == k
  }

  /** Residents have their own keys. */
  ghost predicate ResidentsOk(residents: Slots<Resident>) {
    && |residents| == MAX_RESIDENT
    && forall i, j | 0 <= i < j < |residents| && residents[i].Some? && residents[j].Some? ::
         residents[i].value.key != residents[j].value.key
  }

  function ResidentMeta(r: Resident): Meta {
    Meta(SEEDED + CLOCK_UNSET, 0, 0, r.length, 0, r.created, [Layer(r.length, r.digest)], seq(64, _ => 0))
  }

  /** The first resident of a key. */
  function ResidentOf(residents: Slots<Resident>, k: Key): Option<Resident> {
    if residents == [] then None
    else if residents[0].Some? && residents[0].value.key == k then residents[0]
    else ResidentOf(residents[1..], k)
  }

  function Entry(recs: Records, residents: Slots<Resident>, k: Key): Option<Meta> {
    if k in recs then recs[k]
    else match ResidentOf(residents, k)
      case Some(r) => Some(ResidentMeta(r))
      case None => None
  }

  /** The sorted keys of every entry. */
  ghost predicate Listing(keys: seq<Key>, recs: Records, residents: Slots<Resident>) {
    && Sorted(keys) && Distinct(keys)
    && forall k: Key :: k in keys <==> k in recs || HasResident(residents, k)
  }

  /** The newest entry of a name, the first in order among those that tie. */
  ghost predicate IsNewest(keys: seq<Key>, recs: Records, residents: Slots<Resident>, name: string, k: Key) {
    && k in keys && k.name == name && Entry(recs, residents, k).Some?
    && forall o | o in keys && o != k && o.name == name && Entry(recs, residents, o).Some? ::
         var a, b := Entry(recs, residents, k).value.installSeq, Entry(recs, residents, o).value.installSeq;
         b < a || (b == a && Before(k, o))
  }

  lemma {:induction false} NewestUnique(keys: seq<Key>, recs: Records, residents: Slots<Resident>, name: string,
                                        a: Key, b: Key)
    requires IsNewest(keys, recs, residents, name, a) && IsNewest(keys, recs, residents, name, b)
    ensures a == b
  {
    hide Before, Entry;
    KeyOrder(a, b);
  }

  /** Some entry is what a ref names. */
  ghost predicate Findable(want: Key, recs: Records, residents: Slots<Resident>) {
    if want.version != "" then Entry(recs, residents, want).Some?
    else exists k: Key :: k.name == want.name && Entry(recs, residents, k).Some?
  }

  /** The key is what a ref names: itself with a version, else the newest of its name. */
  ghost predicate IsFound(want: Key, key: Key, keys: seq<Key>, recs: Records, residents: Slots<Resident>) {
    if want.version != "" then key == want
    else Listing(keys, recs, residents) && IsNewest(keys, recs, residents, want.name, key)
  }

  lemma {:induction false} EntryListed(keys: seq<Key>, recs: Records, residents: Slots<Resident>, k: Key)
    requires Listing(keys, recs, residents) && Entry(recs, residents, k).Some?
    ensures k in keys
  {
    hide Sorted, Distinct, ResidentOf, HasResident, ResidentMeta;
    ResidentOfIs(residents, k);
  }

  /** Some entry names the digest. */
  ghost predicate NamedBy(recs: Records, residents: Slots<Resident>, d: Digest) {
    exists k :: Entry(recs, residents, k).Some? && Names(Entry(recs, residents, k).value, d)
  }

  lemma {:induction false} NamingSome(keys: seq<Key>, recs: Records, residents: Slots<Resident>, d: Digest)
    ensures Naming(keys, recs, residents, d) > 0 <==>
              exists k | k in keys :: Entry(recs, residents, k).Some? && Names(Entry(recs, residents, k).value, d)
  {
    hide Entry, Names;
    if keys != [] {
      var n := |keys| - 1;
      NamingSome(keys[..n], recs, residents, d);
      assert keys == keys[..n] + [keys[n]];
    }
  }

  lemma {:induction false} NamingIsNamed(keys: seq<Key>, recs: Records, residents: Slots<Resident>, d: Digest)
    requires Listing(keys, recs, residents)
    ensures Naming(keys, recs, residents, d) > 0 <==> NamedBy(recs, residents, d)
  {
    hide Entry, Names, Listing, Naming;
    NamingSome(keys, recs, residents, d);
    forall k | Entry(recs, residents, k).Some? ensures k in keys {
      EntryListed(keys, recs, residents, k);
    }
  }

  // ---- The visible blobs ----

  function Digests(layers: seq<Layer>): (r: seq<Digest>)
    ensures |r| == |layers|
    ensures forall i | 0 <= i < |layers| :: r[i] == layers[i].digest
  {
    seq(|layers|, i requires 0 <= i < |layers| => layers[i].digest)
  }

  /** Every digest the entries name, in order, with repeats. */
  function Flat(keys: seq<Key>, recs: Records, residents: Slots<Resident>): seq<Digest> {
    if keys == [] then []
    else
      var k := keys[|keys| - 1];
      Flat(keys[..|keys| - 1], recs, residents)
      + match Entry(recs, residents, k) { case Some(m) => Digests(m.layers) case None => [] }
  }

  /** How many of the entries name a digest. */
  function Naming(keys: seq<Key>, recs: Records, residents: Slots<Resident>, d: Digest): nat {
    if keys == [] then 0
    else
      var e := Entry(recs, residents, keys[|keys| - 1]);
      Naming(keys[..|keys| - 1], recs, residents, d) + if e.Some? && Names(e.value, d) then 1 else 0
  }

  /** The distinct digests held, up to the limit. */
  ghost function Walk(flat: seq<Digest>, stores: seq<Depot>, residents: Slots<Resident>, acc: seq<Digest>): seq<Digest>
    decreases flat
  {
    if flat == [] then acc
    else if flat[0] in acc || !Present(stores, residents, flat[0]) then Walk(flat[1..], stores, residents, acc)
    else if |acc| == MAX_BLOBS then acc
    else Walk(flat[1..], stores, residents, acc + [flat[0]])
  }

  /** A full list takes nothing more. */
  lemma {:induction false} WalkFull(flat: seq<Digest>, stores: seq<Depot>, residents: Slots<Resident>, acc: seq<Digest>)
    requires |acc| == MAX_BLOBS
    ensures Walk(flat, stores, residents, acc) == acc
    decreases flat
  {
    hide Present;
    if flat != [] {
      WalkFull(flat[1..], stores, residents, acc);
    }
  }

  lemma {:induction false} WalkConcat(a: seq<Digest>, b: seq<Digest>, stores: seq<Depot>, residents: Slots<Resident>,
                                      acc: seq<Digest>)
    ensures Walk(a + b, stores, residents, acc) == Walk(b, stores, residents, Walk(a, stores, residents, acc))
    decreases a
  {
    hide Present;
    if a == [] {
      assert a + b == b;
    } else {
      assert (a + b)[1..] == a[1..] + b;
      WalkConcat(a[1..], b, stores, residents, acc);
      WalkConcat(a[1..], b, stores, residents, acc + [a[0]]);
      if |acc| == MAX_BLOBS {
        WalkFull(b, stores, residents, acc);
      }
    }
  }

  /** The walk reads the stores only about the digests it meets. */
  lemma {:induction false} WalkFrame(flat: seq<Digest>, a: seq<Depot>, b: seq<Depot>, residents: Slots<Resident>,
                                     acc: seq<Digest>)
    requires forall d | d in flat :: Present(a, residents, d) == Present(b, residents, d)
    ensures Walk(flat, a, residents, acc) == Walk(flat, b, residents, acc)
    decreases flat
  {
    hide Present;
    if flat != [] {
      assert flat[0] in flat;
      assert forall d | d in flat[1..] :: d in flat;
      WalkFrame(flat[1..], a, b, residents, acc);
      WalkFrame(flat[1..], a, b, residents, acc + [flat[0]]);
    }
  }

  lemma {:induction false} ResidentOfIs(residents: Slots<Resident>, k: Key)
    ensures ResidentOf(residents, k).Some? <==> HasResident(residents, k)
    ensures ResidentOf(residents, k).Some? ==>
              ResidentOf(residents, k).value.key == k && Resides(residents, ResidentOf(residents, k).value.digest)
  {
    if residents != [] {
      var rest := residents[1..];
      ResidentOfIs(rest, k);
      if HasResident(rest, k) {
        var i :| 0 <= i < |rest| && rest[i].Some? && rest[i].value.key == k;
        assert residents[i + 1] == rest[i];
      }
      if HasResident(residents, k) && !(residents[0].Some? && residents[0].value.key == k) {
        var i :| 0 <= i < |residents| && residents[i].Some? && residents[i].value.key == k;
        assert rest[i - 1] == residents[i];
      }
      if ResidentOf(rest, k).Some? {
        var d := ResidentOf(rest, k).value.digest;
        var i :| 0 <= i < |rest| && rest[i].Some? && rest[i].value.digest == d;
        assert residents[i + 1] == rest[i];
      }
    }
  }

  /** Whatever an entry names is listed by a record or resident. */
  lemma {:induction false} EntryNames(recs: Records, residents: Slots<Resident>, k: Key, d: Digest)
    requires Entry(recs, residents, k).Some? && d in Digests(Entry(recs, residents, k).value.layers)
    ensures Listed(recs, d) || Resides(residents, d)
  {
    if k in recs {
      var m := recs[k].value;
      var i :| 0 <= i < |m.layers| && m.layers[i].digest == d;
      assert Names(m, d);
    } else {
      ResidentOfIs(residents, k);
    }
  }

  lemma {:induction false} FlatNames(keys: seq<Key>, recs: Records, residents: Slots<Resident>, d: Digest)
    requires d in Flat(keys, recs, residents)
    ensures Listed(recs, d) || Resides(residents, d)
  {
    hide Entry, Listed, Resides, Digests;
    var n := |keys| - 1;
    if d in Flat(keys[..n], recs, residents) {
      FlatNames(keys[..n], recs, residents, d);
    } else {
      EntryNames(recs, residents, keys[n], d);
    }
  }

  /** With nothing dangling before and after, a change of the stores changes nothing visible. */
  lemma {:induction false} VisibleSettled(keys: seq<Key>, recs: Records, residents: Slots<Resident>,
                                          p: Slots<Pending>, q: Slots<Pending>, a: seq<Depot>, b: seq<Depot>)
    requires NoDangling(recs, p, a, residents) && NoDangling(recs, q, b, residents)
    ensures var flat := Flat(keys, recs, residents); Walk(flat, a, residents, []) == Walk(flat, b, residents, [])
  {
    hide Flat, Walk, Listed, Resides, Stored;
    var flat := Flat(keys, recs, residents);
    forall d | d in flat ensures Present(a, residents, d) == Present(b, residents, d) {
      FlatNames(keys, recs, residents, d);
    }
    WalkFrame(flat, a, b, residents, []);
  }

  // ---- Mappings ----

  predicate MappedFrom(maps: Slots<Mapping>, s: nat, d: Digest) {
    exists i | 0 <= i < |maps| :: maps[i].Some? && maps[i].value.digest == d && maps[i].value.store == Some(s)
  }

  /** A slot stands for one map of a stored blob, or for a resident image. */
  predicate MappingOk(m: Mapping, stores: seq<Depot>) {
    match m.store
    case Some(s) =>
      && s < |stores| && m.digest in stores[s].blobs && m.ptr == InStore(s, m.digest)
      && m.length == |stores[s].blobs[m.digest]|
    case None => m.ptr.InFirmware?
  }

  ghost predicate MapsUsed(maps: Slots<Mapping>, stores: seq<Depot>, outstanding: multiset<Digest>) {
    forall i | 0 <= i < |maps| && maps[i].Some? ::
      MappingOk(maps[i].value, stores) && maps[i].value.users == outstanding[maps[i].value.digest] > 0
  }

  ghost predicate MapsApart(maps: Slots<Mapping>) {
    forall i, j | 0 <= i < j < |maps| && maps[i].Some? && maps[j].Some? ::
      maps[i].value.digest != maps[j].value.digest && maps[i].value.ptr != maps[j].value.ptr
  }

  ghost predicate MapsBalance(maps: Slots<Mapping>, stores: seq<Depot>) {
    forall s, d: Digest | 0 <= s < |stores| :: stores[s].maps[d] == if MappedFrom(maps, s, d) then 1 else 0
  }

  /** One slot for a digest, one digest at a place, users as outstanding, and each store's maps balanced. */
  ghost predicate MapsOk(maps: Slots<Mapping>, stores: seq<Depot>, outstanding: multiset<Digest>) {
    && MapsUsed(maps, stores, outstanding) && MapsApart(maps) && MapsBalance(maps, stores)
    && (forall d: Digest | outstanding[d] > 0 :: Mapped(maps, d))
  }

  /** A place in firmware holds one digest, whether resident or mapped. */
  ghost predicate PlacesOk(residents: Slots<Resident>, maps: Slots<Mapping>) {
    && (forall i, j | 0 <= i < |residents| && 0 <= j < |residents| && residents[i].Some? && residents[j].Some? ::
          residents[i].value.addr == residents[j].value.addr ==> residents[i].value.digest == residents[j].value.digest)
    && (forall i, j | 0 <= i < |residents| && 0 <= j < |maps| && residents[i].Some? && maps[j].Some? ::
          maps[j].value.ptr == InFirmware(residents[i].value.addr) ==>
            residents[i].value.digest == maps[j].value.digest)
  }

  /** A store never frees what is mapped, so its balance survives. */
  lemma {:induction false} FreedMaps(was: seq<Depot>, now: seq<Depot>, ds: set<Digest>, recs: Records,
                                     pending: Slots<Pending>, maps: Slots<Mapping>, outstanding: multiset<Digest>)
    requires Freed(was, now, ds, recs, pending, maps) && MapsOk(maps, was, outstanding)
    ensures MapsOk(maps, now, outstanding)
  {
    hide Listed, Waits, MappedFrom;
    forall i | 0 <= i < |maps| && maps[i].Some? ensures MappingOk(maps[i].value, now) {
      var m := maps[i].value;
      assert Mapped(maps, m.digest);
    }
  }

  lemma {:induction false} UnmappedFree(maps: Slots<Mapping>, stores: seq<Depot>, outstanding: multiset<Digest>,
                                        s: nat, d: Digest)
    requires MapsOk(maps, stores, outstanding) && s < |stores| && !Mapped(maps, d)
    ensures stores[s].maps[d] == 0
  {
    assert !MappedFrom(maps, s, d);
  }

  /** Once every spare blob that nothing needs is gone, nothing leaks. */
  lemma {:induction false} FreedAll(was: seq<Depot>, now: seq<Depot>, ds: set<Digest>, recs: Records,
                                    pending: Slots<Pending>, maps: Slots<Mapping>, spare: set<Digest>)
    requires Freed(was, now, ds, recs, pending, maps) && NoLeak(recs, pending, maps, was, spare)
    requires forall d | d in spare :: Stored(now, d) ==> Needed(recs, pending, maps, d)
    ensures NoLeak(recs, pending, maps, now, {})
  {
    hide Freed, Needed;
    FreedKeeps(was, now, ds, recs, pending, maps, []);
  }

  // ---- The cached listing ----

  /** The listing is what reading every entry now would give, and will stay so. */
  ghost predicate Shows(visible: seq<Digest>, keys: seq<Key>, recs: Records, pending: Slots<Pending>,
                        stores: seq<Depot>, residents: Slots<Resident>)
  {
    && NoDangling(recs, pending, stores, residents)
    && Listing(keys, recs, residents)
    && visible == Walk(Flat(keys, recs, residents), stores, residents, [])
  }

  /** Stores and waiting layers may change under a cached listing while nothing dangles. */
  lemma {:induction false} StillShows(visible: seq<Digest>, keys: seq<Key>, recs: Records, residents: Slots<Resident>,
                                      p: Slots<Pending>, q: Slots<Pending>, a: seq<Depot>, b: seq<Depot>)
    requires Shows(visible, keys, recs, p, a, residents) && NoDangling(recs, q, b, residents)
    ensures Shows(visible, keys, recs, q, b, residents)
  {
    hide NoDangling, Listing, Walk, Flat;
    VisibleSettled(keys, recs, residents, p, q, a, b);
  }

  /** Two listings that show the same state are equal. */
  lemma {:induction false} ShowsOne(v: seq<Digest>, k: seq<Key>, w: seq<Digest>, l: seq<Key>, recs: Records,
                                    pending: Slots<Pending>, stores: seq<Depot>, residents: Slots<Resident>)
    requires Shows(v, k, recs, pending, stores, residents) && Shows(w, l, recs, pending, stores, residents)
    ensures v == w
  {
    hide NoDangling, Walk, Flat, Sorted, Distinct;
    SortedUnique(k, l);
  }

  // ---- Staging ----

  /** Every blob is stored under the hash of its bytes. */
  ghost predicate Addressed(stores: seq<Depot>, hash: seq<byte> -> Digest) {
    forall s, d | 0 <= s < |stores| && d in stores[s].blobs :: hash(stores[s].blobs[d]) == d
  }

  lemma {:induction false} FreedAddressed(was: seq<Depot>, now: seq<Depot>, ds: set<Digest>, recs: Records,
                                          pending: Slots<Pending>, maps: Slots<Mapping>, hash: seq<byte> -> Digest)
    requires Freed(was, now, ds, recs, pending, maps) && Addressed(was, hash)
    ensures Addressed(now, hash)
  {
    hide Needed;
  }

  // ---- Commit order ----

  /** The place of a key's last commit in a log of commits, or -1. */
  ghost function LastIn(log: seq<Key>, k: Key): (i: int)
    ensures -1 <= i < |log|
    ensures i >= 0 ==> log[i] == k
    ensures forall j | i < j < |log| :: log[j] != k
  {
    if log == [] then -1
    else if log[|log| - 1] == k then |log| - 1
    else LastIn(log[..|log| - 1], k)
  }

  lemma {:induction false} LastSnoc(log: seq<Key>, key: Key, k: Key)
    ensures LastIn(log + [key], k) == if k == key then |log| else LastIn(log, k)
  {
    assert (log + [key])[..|log|] == log;
  }

  /** Of two installed entries the one committed later has the greater sequence, and no committed one has none. */
  ghost predicate InOrder(recs: Records, log: seq<Key>) {
    && (forall a | a in recs && recs[a].Some? && LastIn(log, a) >= 0 :: recs[a].value.installSeq > 0)
    && (forall a, b | a in recs && b in recs && recs[a].Some? && recs[b].Some? && LastIn(log, a) < LastIn(log, b) ::
          recs[a].value.installSeq < recs[b].value.installSeq)
  }

  /** No record's sequence is past the counter. */
  ghost predicate Counted(recs: Records, seqNo: uint32) {
    forall k | k in recs && recs[k].Some? :: recs[k].value.installSeq <= seqNo
  }

  lemma {:induction false} CommitInOrder(recs: Records, log: seq<Key>, seqNo: uint32, key: Key, m: Meta)
    requires InOrder(recs, log) && Counted(recs, seqNo) && m.installSeq == seqNo + 1
    ensures InOrder(recs[key := Some(m)], log + [key]) && Counted(recs[key := Some(m)], m.installSeq)
  {
    hide LastIn;
    forall k ensures LastIn(log + [key], k) == if k == key then |log| else LastIn(log, k) {
      LastSnoc(log, key, k);
    }
  }

  lemma {:induction false} RemovedInOrder(recs: Records, log: seq<Key>, seqNo: uint32, key: Key)
    ensures InOrder(recs, log) ==> InOrder(recs - {key}, log)
    ensures Counted(recs, seqNo) ==> Counted(recs - {key}, seqNo)
  {
    hide LastIn;
  }

  lemma {:induction false} RewrittenInOrder(recs: Records, log: seq<Key>, seqNo: uint32, key: Key, m: Meta)
    requires key in recs && recs[key].Some? && recs[key].value.installSeq == m.installSeq
    ensures InOrder(recs, log) ==> InOrder(recs[key := Some(m)], log)
    ensures Counted(recs, seqNo) ==> Counted(recs[key := Some(m)], seqNo)
  {
    hide LastIn;
  }

  /** Of the installed versions of its name, the one committed last. */
  ghost predicate IsLatest(recs: Records, log: seq<Key>, k: Key) {
    && k in recs && recs[k].Some? && LastIn(log, k) >= 0
    && forall o | o in recs && recs[o].Some? && o.name == k.name :: LastIn(log, o) <= LastIn(log, k)
  }

  // ---- When a listing is complete ----

  /** The digests the records list. */
  ghost function ListedSet(recs: Records): set<Digest> {
    set k, i | k in recs && recs[k].Some? && 0 <= i < |recs[k].value.layers| :: recs[k].value.layers[i].digest
  }

  lemma {:induction false} ListedIn(recs: Records, d: Digest)
    ensures Listed(recs, d) <==> d in ListedSet(recs)
  {
    if Listed(recs, d) {
      var k :| k in recs && recs[k].Some? && Names(recs[k].value, d);
      var i :| 0 <= i < |recs[k].value.layers| && recs[k].value.layers[i].digest == d;
    }
  }

  /** The records fit a listing of them, and the digests they list a list of those. */
  ghost predicate Fits(recs: Records) {
    |recs| <= MAX_ENTRIES && |ListedSet(recs)| <= MAX_BLOBS
  }

  /** Some store has more blobs than a listing of it holds. */
  ghost predicate Crowded(stores: seq<Depot>) {
    exists s | 0 <= s < |stores| :: |stores[s].blobs| > MAX_BLOBS
  }

  lemma {:induction false} DistinctIn(refs: seq<Digest>, all: set<Digest>)
    requires (forall i, j | 0 <= i < j < |refs| :: refs[i] != refs[j]) && forall d | d in refs :: d in all
    ensures |refs| <= |all|
    decreases refs
  {
    if refs != [] {
      var last := refs[|refs| - 1];
      var rest := refs[..|refs| - 1];
      forall d | d in rest ensures d in all - {last} {
      }
      DistinctIn(rest, all - {last});
    }
  }

  // ---- The open stage ----

  /** The same blobs and maps, whatever is staged. */
  ghost predicate SameBlobs(a: seq<Depot>, b: seq<Depot>) {
    |a| == |b| && forall s | 0 <= s < |a| :: a[s].blobs == b[s].blobs && a[s].maps == b[s].maps
  }

  lemma {:induction false} SameHolds(a: seq<Depot>, b: seq<Depot>, recs: Records, pending: Slots<Pending>,
                                     maps: Slots<Mapping>, residents: Slots<Resident>,
                                     outstanding: multiset<Digest>, spare: set<Digest>, hash: seq<byte> -> Digest)
    requires SameBlobs(a, b)
    ensures forall d: Digest :: Stored(a, d) == Stored(b, d)
    ensures NoLeak(recs, pending, maps, a, spare) == NoLeak(recs, pending, maps, b, spare)
    ensures NoDangling(recs, pending, a, residents) == NoDangling(recs, pending, b, residents)
    ensures MapsOk(maps, a, outstanding) ==> MapsOk(maps, b, outstanding)
    ensures Addressed(a, hash) ==> Addressed(b, hash)
  {
    hide Needed, Listed, Waits, Resides, MappedFrom, Mapped;
    forall d: Digest ensures Stored(a, d) == Stored(b, d) {
      if Stored(a, d) {
        var s :| 0 <= s < |a| && d in a[s].blobs;
        assert d in b[s].blobs;
      }
      if Stored(b, d) {
        var s :| 0 <= s < |b| && d in b[s].blobs;
        assert d in a[s].blobs;
      }
    }
  }

  /** The primary keeps a blob under its digest, or already holds it. */
  function Kept(stores: seq<Depot>, d: Digest, bytes: seq<byte>): (r: seq<Depot>)
    requires stores != []
  {
    var p := stores[0];
    stores[0 := p.(blobs := if d in p.blobs then p.blobs else p.blobs[d := bytes], staged := None)]
  }

  lemma {:induction false} KeptHolds(stores: seq<Depot>, d: Digest, bytes: seq<byte>, recs: Records,
                                     pending: Slots<Pending>, maps: Slots<Mapping>, residents: Slots<Resident>,
                                     outstanding: multiset<Digest>, hash: seq<byte> -> Digest)
    requires stores != [] && hash(bytes) == d
    ensures var now := Kept(stores, d, bytes);
            && Stored(now, d)
            && (NoLeak(recs, pending, maps, stores, {}) ==> NoLeak(recs, pending, maps, now, {d}))
            && (NoDangling(recs, pending, stores, residents) ==> NoDangling(recs, pending, now, residents))
            && (MapsOk(maps, stores, outstanding) ==> MapsOk(maps, now, outstanding))
            && (Addressed(stores, hash) ==> Addressed(now, hash))
  {
    hide Needed, Listed, Waits, Resides, MappedFrom, Mapped;
    var now := Kept(stores, d, bytes);
    assert d in now[0].blobs;
    forall e: Digest ensures Stored(stores, e) ==> Stored(now, e) {
      if Stored(stores, e) {
        var s :| 0 <= s < |stores| && e in stores[s].blobs;
        assert e in now[s].blobs;
      }
    }
    forall e: Digest | Stored(now, e) ensures e == d || Stored(stores, e) {
      var s :| 0 <= s < |now| && e in now[s].blobs;
      assert e != d ==> e in stores[s].blobs;
    }
  }

  // ---- Removing and rewriting records ----

  lemma {:induction false} ListedLess(recs: Records, key: Key, d: Digest)
    ensures Listed(recs - {key}, d) ==> Listed(recs, d)
    ensures Listed(recs, d) ==> Listed(recs - {key}, d) || (key in recs && recs[key].Some? && Names(recs[key].value, d))
  {
    hide Names;
    var now := recs - {key};
    if Listed(recs, d) {
      var k :| k in recs && recs[k].Some? && Names(recs[k].value, d);
      if k != key {
        assert k in now && now[k] == recs[k];
      }
    }
  }

  /** Once a record is gone, only the blobs it named may be spare. */
  lemma {:induction false} RemovedHolds(recs: Records, key: Key, pending: Slots<Pending>, maps: Slots<Mapping>,
                                        stores: seq<Depot>,
                                        residents: Slots<Resident>, spare: set<Digest>)
    ensures NoDangling(recs, pending, stores, residents) ==> NoDangling(recs - {key}, pending, stores, residents)
    ensures NoLeak(recs, pending, maps, stores, {})
            && (key in recs && recs[key].Some? ==> forall d: Digest | Names(recs[key].value, d) :: d in spare) ==>
              NoLeak(recs - {key}, pending, maps, stores, spare)
  {
    hide Names, Listed, Waits, Mapped, Stored, Present;
    forall d: Digest ensures Listed(recs - {key}, d) ==> Listed(recs, d)
                     ensures Listed(recs, d) ==>
                               Listed(recs - {key}, d) || (key in recs && recs[key].Some? && Names(recs[key].value, d))
    {
      ListedLess(recs, key, d);
    }
  }

  lemma {:induction false} SameListed(recs: Records, key: Key, m: Meta, d: Digest)
    requires key in recs && recs[key].Some? && recs[key].value.layers == m.layers
    ensures Listed(recs, d) == Listed(recs[key := Some(m)], d)
  {
    ListedPut(recs, key, m, d);
    assert Names(m, d) == Names(recs[key].value, d);
    if Names(m, d) {
      assert Listed(recs, d);
    }
  }

  lemma {:induction false} SameFlat(keys: seq<Key>, recs: Records, residents: Slots<Resident>, key: Key, m: Meta)
    requires key in recs && recs[key].Some? && recs[key].value.layers == m.layers
    ensures Flat(keys, recs, residents) == Flat(keys, recs[key := Some(m)], residents)
  {
    hide Digests;
    if keys != [] {
      SameFlat(keys[..|keys| - 1], recs, residents, key, m);
    }
  }

  /** A record rewritten with the same layers changes nothing that depends on them. */
  lemma {:induction false} RewrittenHolds(recs: Records, key: Key, m: Meta, pending: Slots<Pending>,
                                          maps: Slots<Mapping>, stores: seq<Depot>, residents: Slots<Resident>,
                                          visible: seq<Digest>, keys: seq<Key>)
    requires key in recs && recs[key].Some? && recs[key].value.layers == m.layers
    ensures var now := recs[key := Some(m)];
            && (NoDangling(recs, pending, stores, residents) ==> NoDangling(now, pending, stores, residents))
            && (NoLeak(recs, pending, maps, stores, {}) ==> NoLeak(now, pending, maps, stores, {}))
            && (Shows(visible, keys, recs, pending, stores, residents) ==>
              Shows(visible, keys, now, pending, stores, residents))
  {
    hide Listed, Waits, Mapped, Stored, Present, Flat, Walk, Sorted, Distinct, HasResident;
    forall d: Digest ensures Listed(recs, d) == Listed(recs[key := Some(m)], d) {
      SameListed(recs, key, m, d);
    }
    SameFlat(keys, recs, residents, key, m);
  }

  /** A record put over anything, naming only what a resident image holds, leaves nothing dangling. */
  lemma {:induction false} ResidentHolds(recs: Records, key: Key, m: Meta, pending: Slots<Pending>,
                                         stores: seq<Depot>, residents: Slots<Resident>)
    requires forall d: Digest | Names(m, d) :: Resides(residents, d)
    ensures NoDangling(recs, pending, stores, residents) ==>
              NoDangling(recs[key := Some(m)], pending, stores, residents)
  {
    hide Names, Listed, Waits, Stored, Resides;
    forall d: Digest | Listed(recs[key := Some(m)], d) ensures Names(m, d) || Listed(recs, d) {
      ListedPut(recs, key, m, d);
    }
  }

  // ---- Mapping and unmapping ----

  /** The digest is mapped at this place. */
  predicate At(maps: Slots<Mapping>, d: Digest, p: Ptr) {
    exists i | 0 <= i < |maps| :: maps[i].Some? && maps[i].value.digest == d && maps[i].value.ptr == p
  }

  /** The mapping at this place is of this length. */
  predicate Long(maps: Slots<Mapping>, p: Ptr, length: nat) {
    exists i | 0 <= i < |maps| :: maps[i].Some? && maps[i].value.ptr == p && maps[i].value.length == length
  }

  /** The same blobs and stages, whatever is mapped. */
  ghost predicate SameContents(a: seq<Depot>, b: seq<Depot>) {
    |a| == |b| && forall s | 0 <= s < |a| :: a[s].blobs == b[s].blobs && a[s].staged == b[s].staged
  }

  lemma {:induction false} SameNeeds(a: seq<Depot>, b: seq<Depot>, recs: Records, pending: Slots<Pending>,
                                     maps: Slots<Mapping>,
                                     residents: Slots<Resident>, spare: set<Digest>, hash: seq<byte> -> Digest)
    requires SameContents(a, b)
    ensures NoLeak(recs, pending, maps, a, spare) == NoLeak(recs, pending, maps, b, spare)
    ensures NoDangling(recs, pending, a, residents) == NoDangling(recs, pending, b, residents)
    ensures Addressed(a, hash) ==> Addressed(b, hash)
  {
    hide Needed, Listed, Waits, Resides;
    forall d: Digest ensures Stored(a, d) == Stored(b, d) {
      if Stored(a, d) {
        var s :| 0 <= s < |a| && d in a[s].blobs;
        assert d in b[s].blobs;
      }
      if Stored(b, d) {
        var s :| 0 <= s < |b| && d in b[s].blobs;
        assert d in a[s].blobs;
      }
    }
  }

  /** Changing a slot changes only what its digests have mapped. */
  lemma {:induction false} SlotMapped(maps: Slots<Mapping>, i: nat, m: Option<Mapping>)
    requires i < |maps|
    ensures var now := maps[i := m];
            && (m.Some? ==> Mapped(now, m.value.digest) && At(now, m.value.digest, m.value.ptr))
            && (forall d: Digest | Mapped(maps, d) :: Mapped(now, d) || (maps[i].Some? && d == maps[i].value.digest))
            && (forall d: Digest | Mapped(now, d) :: Mapped(maps, d) || (m.Some? && d == m.value.digest))
            && (forall s: nat, d: Digest ::
              MappedFrom(now, s, d) ==>
                MappedFrom(maps, s, d) || (m.Some? && d == m.value.digest && m.value.store == Some(s)))
            && (forall s: nat, d: Digest ::
              MappedFrom(maps, s, d) ==>
                MappedFrom(now, s, d) || (maps[i].Some? && d == maps[i].value.digest && maps[i].value.store == Some(s)))
            && (m.Some? && m.value.store.Some? ==> MappedFrom(now, m.value.store.value, m.value.digest))
            && (forall d: Digest, p: Ptr | At(maps, d, p) ::
              At(now, d, p) || (maps[i].Some? && d == maps[i].value.digest && p == maps[i].value.ptr))
            && (m.Some? ==> Long(now, m.value.ptr, m.value.length))
            && (forall p: Ptr, l: nat | Long(maps, p, l) ::
              Long(now, p, l) || (maps[i].Some? && p == maps[i].value.ptr && l == maps[i].value.length))
  {
    var now := maps[i := m];
    if m.Some? {
      assert now[i] == m;
    }
    forall p: Ptr, l: nat | Long(maps, p, l) ensures Long(now, p, l)
      || (maps[i].Some? && p == maps[i].value.ptr && l == maps[i].value.length) {
      var j :| 0 <= j < |maps| && maps[j].Some? && maps[j].value.ptr == p && maps[j].value.length == l;
      assert j != i ==> now[j] == maps[j];
    }
    forall d: Digest | Mapped(maps, d) ensures Mapped(now, d) || (maps[i].Some? && d == maps[i].value.digest) {
      var j :| 0 <= j < |maps| && maps[j].Some? && maps[j].value.digest == d;
      assert j != i ==> now[j] == maps[j];
    }
    forall d: Digest | Mapped(now, d) ensures Mapped(maps, d) || (m.Some? && d == m.value.digest) {
      var j :| 0 <= j < |now| && now[j].Some? && now[j].value.digest == d;
      assert j != i ==> now[j] == maps[j];
    }
    forall s: nat, d: Digest | MappedFrom(now, s, d) ensures MappedFrom(maps, s, d)
      || (m.Some? && d == m.value.digest && m.value.store == Some(s)) {
      var j :| 0 <= j < |now| && now[j].Some? && now[j].value.digest == d && now[j].value.store == Some(s);
      assert j != i ==> now[j] == maps[j];
    }
    forall s: nat, d: Digest | MappedFrom(maps, s, d) ensures MappedFrom(now, s, d)
      || (maps[i].Some? && d == maps[i].value.digest && maps[i].value.store == Some(s)) {
      var j :| 0 <= j < |maps| && maps[j].Some? && maps[j].value.digest == d && maps[j].value.store == Some(s);
      assert j != i ==> now[j] == maps[j];
    }
    forall d: Digest, p: Ptr | At(maps, d, p) ensures At(now, d, p)
      || (maps[i].Some? && d == maps[i].value.digest && p == maps[i].value.ptr) {
      var j :| 0 <= j < |maps| && maps[j].Some? && maps[j].value.digest == d && maps[j].value.ptr == p;
      assert j != i ==> now[j] == maps[j];
    }
  }

  lemma {:induction false} SlotIs(maps: Slots<Mapping>, i: nat)
    requires i < |maps| && maps[i].Some?
    ensures Mapped(maps, maps[i].value.digest) && At(maps, maps[i].value.digest, maps[i].value.ptr)
    ensures maps[i].value.store.Some? ==> MappedFrom(maps, maps[i].value.store.value, maps[i].value.digest)
  {
  }

  /** One user more or less of a slot that stays in use. */
  lemma {:induction false} UsersChange(maps: Slots<Mapping>, i: nat, users: nat, stores: seq<Depot>,
                                       outstanding: multiset<Digest>, now: multiset<Digest>)
    requires MapsOk(maps, stores, outstanding) && i < |maps| && maps[i].Some? && users > 0
    requires now == outstanding[maps[i].value.digest := users]
    ensures MapsOk(maps[i := Some(maps[i].value.(users := users))], stores, now)
    ensures forall d: Digest :: Mapped(maps, d) == Mapped(maps[i := Some(maps[i].value.(users := users))], d)
    ensures forall d: Digest, p: Ptr :: At(maps, d, p) ==> At(maps[i := Some(maps[i].value.(users := users))], d, p)
    ensures forall p: Ptr, l: nat :: Long(maps, p, l) ==> Long(maps[i := Some(maps[i].value.(users := users))], p, l)
  {
    hide Mapped, MappedFrom, At, Long;
    SlotMapped(maps, i, Some(maps[i].value.(users := users)));
    SlotIs(maps, i);
  }

  /** The stores after one of them made a map of the blob; a resident image needs none. */
  function WithMap(stores: seq<Depot>, m: Mapping): seq<Depot>
    requires m.store.Some? ==> m.store.value < |stores|
  {
    if m.store.None? then stores
    else
      var s := m.store.value;
      stores[s := stores[s].(maps := stores[s].maps + multiset{m.digest})]
  }

  /** A slot taken for a map the store just made, or for a resident image. */
  ghost predicate TakesSlot(maps: Slots<Mapping>, i: nat, m: Mapping, stores: seq<Depot>, now: seq<Depot>) {
    && i < |maps| && maps[i].None? && !Mapped(maps, m.digest) && m.users == 1 && MappingOk(m, stores)
    && (forall j | 0 <= j < |maps| && maps[j].Some? :: maps[j].value.ptr != m.ptr)
    && now == WithMap(stores, m)
  }

  lemma {:induction false} OtherDigests(maps: Slots<Mapping>, d: Digest)
    requires !Mapped(maps, d)
    ensures forall j | 0 <= j < |maps| && maps[j].Some? :: maps[j].value.digest != d
    ensures forall s: nat :: !MappedFrom(maps, s, d)
  {
    forall s: nat ensures !MappedFrom(maps, s, d) {
      if MappedFrom(maps, s, d) {
        FromMapped(maps, s, d);
      }
    }
  }

  lemma {:induction false} SlotTakenBalance(maps: Slots<Mapping>, i: nat, m: Mapping, stores: seq<Depot>,
                                            now: seq<Depot>)
    requires TakesSlot(maps, i, m, stores, now) && MapsBalance(maps, stores)
    ensures MapsBalance(maps[i := Some(m)], now)
  {
    hide Mapped, MappedFrom, At;
    SlotMapped(maps, i, Some(m));
    OtherDigests(maps, m.digest);
  }

  lemma {:induction false} SlotTaken(maps: Slots<Mapping>, i: nat, m: Mapping, stores: seq<Depot>, now: seq<Depot>,
                                     outstanding: multiset<Digest>)
    requires MapsOk(maps, stores, outstanding) && TakesSlot(maps, i, m, stores, now)
    ensures MapsOk(maps[i := Some(m)], now, outstanding + multiset{m.digest}) && SameContents(stores, now)
    ensures forall d: Digest | Mapped(maps, d) :: Mapped(maps[i := Some(m)], d)
    ensures forall d: Digest, p: Ptr | At(maps, d, p) :: At(maps[i := Some(m)], d, p)
    ensures forall p: Ptr, l: nat | Long(maps, p, l) :: Long(maps[i := Some(m)], p, l)
  {
    hide Mapped, MappedFrom, At, Long, MapsBalance;
    SlotMapped(maps, i, Some(m));
    OtherDigests(maps, m.digest);
    SlotTakenBalance(maps, i, m, stores, now);
  }

  /** The stores after the last user of a slot has gone. */
  function Unmapped(stores: seq<Depot>, m: Mapping): seq<Depot>
    requires m.store.Some? ==> m.store.value < |stores|
  {
    if m.store.None? then stores
    else
      var s := m.store.value;
      stores[s := stores[s].(maps := stores[s].maps - multiset{m.digest})]
  }

  lemma {:induction false} SlotLeftBalance(maps: Slots<Mapping>, i: nat, stores: seq<Depot>)
    requires i < |maps| && maps[i].Some? && MappingOk(maps[i].value, stores) && MapsApart(maps)
             && MapsBalance(maps, stores)
    ensures MapsBalance(maps[i := None], Unmapped(stores, maps[i].value))
  {
    hide Mapped, MappedFrom, At;
    SlotMapped(maps, i, None);
    SlotIs(maps, i);
    var m, now := maps[i].value, maps[i := None];
    forall s: nat ensures !MappedFrom(now, s, m.digest) {
      NotElsewhere(maps, i, s);
    }
  }

  lemma {:induction false} NotElsewhere(maps: Slots<Mapping>, i: nat, s: nat)
    requires i < |maps| && maps[i].Some? && MapsApart(maps)
    ensures !MappedFrom(maps[i := None], s, maps[i].value.digest) && !Mapped(maps[i := None], maps[i].value.digest)
    ensures MappedFrom(maps, s, maps[i].value.digest) ==> maps[i].value.store == Some(s)
  {
    var now := maps[i := None];
    forall j | 0 <= j < |now| && now[j].Some? ensures now[j].value.digest != maps[i].value.digest {
      assert now[j] == maps[j];
    }
  }

  /** The last user of a slot goes, and the store's map with it. */
  lemma {:induction false} SlotLeft(maps: Slots<Mapping>, i: nat, stores: seq<Depot>, outstanding: multiset<Digest>,
                                    now: multiset<Digest>)
    requires MapsOk(maps, stores, outstanding) && i < |maps| && maps[i].Some?
             && now == outstanding[maps[i].value.digest := 0]
    ensures MappingOk(maps[i].value, stores)
    ensures MapsOk(maps[i := None], Unmapped(stores, maps[i].value), now)
            && SameContents(stores, Unmapped(stores, maps[i].value))
    ensures forall d: Digest | Mapped(maps, d) :: Mapped(maps[i := None], d) || d == maps[i].value.digest
    ensures forall d: Digest, p: Ptr | At(maps, d, p) :: At(maps[i := None], d, p) || d == maps[i].value.digest
  {
    hide Mapped, MappedFrom, At, MapsBalance;
    SlotMapped(maps, i, None);
    SlotLeftBalance(maps, i, stores);
  }

  lemma {:induction false} FromMapped(maps: Slots<Mapping>, s: nat, d: Digest)
    requires MappedFrom(maps, s, d)
    ensures Mapped(maps, d)
  {
    var i :| 0 <= i < |maps| && maps[i].Some? && maps[i].value.digest == d && maps[i].value.store == Some(s);
    assert maps[i].value.digest == d;
  }

  /** More mapped needs no less; less mapped leaves at most the digest spare. */
  lemma {:induction false} NeedsMapped(recs: Records, pending: Slots<Pending>, stores: seq<Depot>, a: Slots<Mapping>,
                                       b: Slots<Mapping>, spare: set<Digest>)
    requires forall d: Digest | Mapped(a, d) :: Mapped(b, d) || d in spare
    ensures NoLeak(recs, pending, a, stores, {}) ==> NoLeak(recs, pending, b, stores, spare)
  {
    hide Listed, Waits, Mapped, Stored;
  }

  /** What is still in use stays where it was. */
  ghost predicate Stays(a: Slots<Mapping>, b: Slots<Mapping>, outstanding: multiset<Digest>) {
    forall d: Digest, p: Ptr | At(a, d, p) && outstanding[d] > 0 :: At(b, d, p)
  }

  lemma {:induction false} StaysOn(a: Slots<Mapping>, b: Slots<Mapping>, c: Slots<Mapping>, x: multiset<Digest>,
                                   y: multiset<Digest>)
    requires Stays(a, b, x) && Stays(b, c, y) && y <= x
    ensures Stays(a, c, y)
  {
    hide At;
    forall d: Digest, p: Ptr | At(a, d, p) && y[d] > 0 ensures At(c, d, p) {
      assert x[d] >= y[d];
      assert At(b, d, p);
    }
  }

  lemma {:induction false} StaysAt(a: Slots<Mapping>, b: Slots<Mapping>, outstanding: multiset<Digest>, d: Digest,
                                   p: Ptr)
    requires Stays(a, b, outstanding) && At(a, d, p) && outstanding[d] > 0
    ensures At(b, d, p)
  {
    hide At;
  }

  lemma {:induction false} StaysSame(a: Slots<Mapping>, outstanding: multiset<Digest>)
    ensures Stays(a, a, outstanding)
  {
  }

  // ---- Room for more maps ----

  /** Every slot is taken. */
  predicate Full(maps: Slots<Mapping>) {
    forall i | 0 <= i < |maps| :: maps[i].Some?
  }

  function FreeCount(maps: Slots<Mapping>): nat {
    if maps == [] then 0 else FreeCount(maps[1..]) + if maps[0].None? then 1 else 0
  }

  lemma {:induction false} FreeNone(maps: Slots<Mapping>)
    ensures FreeCount(maps) == 0 <==> Full(maps)
  {
    if maps != [] {
      FreeNone(maps[1..]);
      assert forall i | 0 < i < |maps| :: maps[i] == maps[1..][i - 1];
      if Full(maps[1..]) && maps[0].Some? {
        forall i | 0 <= i < |maps| ensures maps[i].Some? {
          assert i > 0 ==> maps[i] == maps[1..][i - 1];
        }
      }
      if Full(maps) {
        forall i | 0 <= i < |maps[1..]| ensures maps[1..][i].Some? {
          assert maps[1..][i] == maps[i + 1];
        }
      }
    }
  }

  lemma {:induction false} FreeAt(maps: Slots<Mapping>, k: nat, m: Option<Mapping>)
    requires k < |maps|
    ensures FreeCount(maps[k := m])
            == FreeCount(maps) - (if maps[k].None? then 1 else 0) + (if m.None? then 1 else 0)
  {
    if k == 0 {
      assert maps[k := m][1..] == maps[1..];
    } else {
      assert maps[k := m][1..] == maps[1..][k - 1 := m];
      FreeAt(maps[1..], k - 1, m);
    }
  }

  /** The digest is mapped now, what was mapped still is, and a slot went exactly if it was not mapped before. */
  ghost predicate OneMore(a: Slots<Mapping>, b: Slots<Mapping>, d: Digest) {
    && (forall e: Digest :: Mapped(b, e) <==> Mapped(a, e) || e == d)
    && FreeCount(b) == FreeCount(a) - if Mapped(a, d) then 0 else 1
  }

  lemma {:induction false} SlotMore(maps: Slots<Mapping>, k: nat, m: Mapping)
    requires k < |maps| && (if maps[k].None? then !Mapped(maps, m.digest) else maps[k].value.digest == m.digest)
    ensures OneMore(maps, maps[k := Some(m)], m.digest)
  {
    hide FreeCount;
    var now := maps[k := Some(m)];
    FreeAt(maps, k, Some(m));
    assert now[k].value.digest == m.digest;
    forall e: Digest ensures Mapped(now, e) <==> Mapped(maps, e) || e == m.digest {
      if Mapped(maps, e) {
        var i :| 0 <= i < |maps| && maps[i].Some? && maps[i].value.digest == e;
        assert i != k ==> now[i] == maps[i];
      }
      if Mapped(now, e) {
        var i :| 0 <= i < |now| && now[i].Some? && now[i].value.digest == e;
        assert i != k ==> maps[i] == now[i];
      }
    }
  }

  /** The digests of these that have no map. */
  ghost function NotMapped(maps: Slots<Mapping>, ds: seq<Digest>): set<Digest> {
    set d | d in ds && !Mapped(maps, d)
  }

  /** Every layer is held or mapped, and there is a slot for each that is not mapped yet. */
  ghost predicate Loadable(maps: Slots<Mapping>, stores: seq<Depot>, residents: Slots<Resident>, ds: seq<Digest>) {
    && (forall d | d in ds :: Mapped(maps, d) || Present(stores, residents, d))
    && |NotMapped(maps, ds)| <= FreeCount(maps)
  }

  /** Part way through a load: the first `n` are mapped, and slots went only to digests not mapped before. */
  ghost predicate Loading(was: Slots<Mapping>, now: Slots<Mapping>, stores: seq<Depot>, residents: Slots<Resident>,
                          ds: seq<Digest>, n: nat)
    requires n <= |ds|
  {
    && (forall d: Digest | Mapped(was, d) :: Mapped(now, d))
    && (forall d: Digest | Mapped(now, d) :: Mapped(was, d) || Present(stores, residents, d))
    && (forall i | 0 <= i < n :: Mapped(now, ds[i]))
    && FreeCount(now) - |NotMapped(now, ds)| == FreeCount(was) - |NotMapped(was, ds)|
  }

  lemma {:induction false} LoadingMore(was: Slots<Mapping>, a: Slots<Mapping>, b: Slots<Mapping>, stores: seq<Depot>,
                                       residents: Slots<Resident>, ds: seq<Digest>, n: nat)
    requires n < |ds| && Loading(was, a, stores, residents, ds, n) && OneMore(a, b, ds[n])
    requires Mapped(a, ds[n]) || Present(stores, residents, ds[n])
    ensures Loading(was, b, stores, residents, ds, n + 1)
  {
    hide Mapped, Present, FreeCount;
    var x, y := NotMapped(a, ds), NotMapped(b, ds);
    if Mapped(a, ds[n]) {
      assert x == y;
    } else {
      assert y == x - {ds[n]} && ds[n] in x;
    }
  }

  /** A load that maps all was possible, and one that stops for a layer held nowhere or for want of a slot was not. */
  lemma {:induction false} LoadingEnds(was: Slots<Mapping>, now: Slots<Mapping>, stores: seq<Depot>,
                                       residents: Slots<Resident>, ds: seq<Digest>, n: nat)
    requires n <= |ds| && Loading(was, now, stores, residents, ds, n)
    ensures n == |ds| ==> Loadable(was, stores, residents, ds)
    ensures n < |ds| && !Mapped(now, ds[n]) && (!Present(stores, residents, ds[n]) || Full(now)) ==>
              !Loadable(was, stores, residents, ds)
  {
    hide Mapped, Present, FreeCount, Full;
    if n == |ds| {
      forall d | d in ds ensures Mapped(now, d) {
        var i :| 0 <= i < |ds| && ds[i] == d;
      }
      assert NotMapped(now, ds) == {};
    } else if !Mapped(now, ds[n]) && Full(now) {
      FreeNone(now);
      assert ds[n] in NotMapped(now, ds);
      SomeIn(NotMapped(now, ds), ds[n]);
    }
  }

  lemma {:induction false} SomeIn(all: set<Digest>, d: Digest)
    requires d in all
    ensures |all| > 0
  {
  }

  lemma {:induction false} LoadingNone(was: Slots<Mapping>, stores: seq<Depot>, residents: Slots<Resident>,
                                       ds: seq<Digest>)
    ensures Loading(was, was, stores, residents, ds, 0)
  {
  }

  // ---- Which entry a bare name finds ----

  /** A bare name finds the installed version of it that was committed last. */
  lemma {:induction false} LatestFound(keys: seq<Key>, recs: Records, residents: Slots<Resident>, log: seq<Key>,
                                       k: Key, j: Key)
    requires Listing(keys, recs, residents) && InOrder(recs, log) && IsLatest(recs, log, k)
    ensures IsNewest(keys, recs, residents, k.name, j) <==> j == k
  {
    hide Sorted, Distinct, ResidentMeta, ResidentOf, Before, HasResident, LastIn;
    assert k in keys;
    forall o | o in keys && o != k && o.name == k.name && Entry(recs, residents, o).Some?
      ensures Entry(recs, residents, o).value.installSeq < recs[k].value.installSeq
    {
      ResidentSeq(residents, o);
      if o in recs {
        assert LastIn(log, o) != LastIn(log, k);
      }
    }
    assert IsNewest(keys, recs, residents, k.name, k);
    if IsNewest(keys, recs, residents, k.name, j) {
      NewestUnique(keys, recs, residents, k.name, j, k);
    }
  }

  lemma {:induction false} ResidentSeq(residents: Slots<Resident>, k: Key)
    ensures ResidentOf(residents, k).Some? ==> ResidentMeta(ResidentOf(residents, k).value).installSeq == 0
  {
  }

  /** A readable record of a name. */
  ghost predicate RecordOf(recs: Records, name: string, o: Key) {
    o in recs && o.name == name && recs[o].Some?
  }

  /** A resident image of a name with no record of its own. */
  ghost predicate OnlyResident(recs: Records, residents: Slots<Resident>, name: string, r: Key) {
    r !in recs && r.name == name && HasResident(residents, r)
  }

  /** A record of the name sorts before every resident image of it that has no record. */
  ghost predicate SortsFirst(recs: Records, residents: Slots<Resident>, name: string, o: Key) {
    RecordOf(recs, name, o) && forall r | OnlyResident(recs, residents, name, r) :: Before(o, r)
  }

  /** A bare name finds an installed entry exactly when one of it has a sequence, or one sorts before every resident. */
  lemma {:induction false} InstalledBeatsResident(keys: seq<Key>, recs: Records, residents: Slots<Resident>,
                                                  name: string, k: Key)
    requires Listing(keys, recs, residents) && IsNewest(keys, recs, residents, name, k)
    ensures k in recs <==>
              || (exists o :: RecordOf(recs, name, o) && recs[o].value.installSeq > 0)
              || (exists o :: SortsFirst(recs, residents, name, o))
  {
    hide Sorted, Distinct, Before, ResidentOf, ResidentMeta, HasResident;
    forall r: Key ensures HasResident(residents, r) <==> ResidentOf(residents, r).Some? {
      ResidentOfIs(residents, r);
    }
    if k in recs {
      assert RecordOf(recs, name, k);
      if recs[k].value.installSeq == 0 {
        forall r | OnlyResident(recs, residents, name, r) ensures Before(k, r) {
          assert r in keys && Entry(recs, residents, r).Some?;
        }
        assert SortsFirst(recs, residents, name, k);
      }
    } else {
      ResidentSeq(residents, k);
      forall o | RecordOf(recs, name, o)
        ensures recs[o].value.installSeq == 0 && !SortsFirst(recs, residents, name, o)
      {
        assert o in keys && Entry(recs, residents, o) == recs[o];
        KeyOrder(k, o);
        assert OnlyResident(recs, residents, name, k);
      }
    }
  }

  /** A record read from the older format has no sequence, so a resident image that sorts first is found instead. */
  lemma {:induction false} OlderRecordLoses(d: Digest, e: Digest)
    ensures var o, r := Key("app", "2"), Key("app", "1");
            var recs: Records := map[o := Some(Meta(CLOCK_UNSET, 0, 0, 8, 0, 0, [Layer(8, d)], seq(64, _ => 0)))];
            var residents: Slots<Resident> := [Some(Resident(r, 0, 8, 0, e))];
            IsNewest([r, o], recs, residents, "app", r)
  {
    var o, r := Key("app", "2"), Key("app", "1");
    var residents: Slots<Resident> := [Some(Resident(r, 0, 8, 0, e))];
    assert TextBefore("1", "2");
    assert Before(r, o);
    assert ResidentOf(residents, r) == Some(Resident(r, 0, 8, 0, e));
  }

  // ---- When the cached listing goes stale ----

  lemma {:induction false} WalkOnly(flat: seq<Digest>, stores: seq<Depot>, residents: Slots<Resident>,
                                    acc: seq<Digest>, d: Digest)
    requires d in Walk(flat, stores, residents, acc)
    ensures d in acc || Present(stores, residents, d)
    decreases flat
  {
    hide Present;
    if flat != [] && d !in acc {
      if flat[0] in acc || !Present(stores, residents, flat[0]) {
        WalkOnly(flat[1..], stores, residents, acc, d);
      } else if |acc| != MAX_BLOBS {
        WalkOnly(flat[1..], stores, residents, acc + [flat[0]], d);
      }
    }
  }

  /** A walk only adds to what it has, and never past the limit. */
  lemma {:induction false} WalkGrows(flat: seq<Digest>, stores: seq<Depot>, residents: Slots<Resident>,
                                     acc: seq<Digest>)
    requires |acc| <= MAX_BLOBS
    ensures acc <= Walk(flat, stores, residents, acc) && |Walk(flat, stores, residents, acc)| <= MAX_BLOBS
    decreases flat
  {
    hide Present;
    if flat != [] {
      if flat[0] in acc || !Present(stores, residents, flat[0]) {
        WalkGrows(flat[1..], stores, residents, acc);
      } else if |acc| < MAX_BLOBS {
        WalkGrows(flat[1..], stores, residents, acc + [flat[0]]);
      }
    }
  }

  /** The first place of a digest. */
  ghost function FirstAt(flat: seq<Digest>, d: Digest): (i: nat)
    requires d in flat
    ensures i < |flat| && flat[i] == d && d !in flat[..i]
  {
    if flat[0] == d then 0
    else
      var i := FirstAt(flat[1..], d);
      assert flat[..i + 1] == [flat[0]] + flat[1..][..i];
      i + 1
  }

  /** A walk that reaches a digest before the list is full. */
  ghost predicate Reaches(flat: seq<Digest>, stores: seq<Depot>, residents: Slots<Resident>, d: Digest) {
    d in flat && |Walk(flat[..FirstAt(flat, d)], stores, residents, [])| < MAX_BLOBS
  }

  lemma {:induction false} KeptHas(stores: seq<Depot>, d: Digest, bytes: seq<byte>, e: Digest)
    requires stores != []
    ensures Stored(Kept(stores, d, bytes), e) <==> Stored(stores, e) || e == d
  {
    var now := Kept(stores, d, bytes);
    if Stored(stores, e) {
      var s :| 0 <= s < |stores| && e in stores[s].blobs;
      assert e in now[s].blobs;
    }
    if Stored(now, e) {
      var s :| 0 <= s < |now| && e in now[s].blobs;
      assert e != d ==> e in stores[s].blobs;
    }
    assert d in now[0].blobs;
  }

  /** Keeping a blob that was held nowhere changes what a listing shows exactly when the walk reaches its digest. */
  lemma {:induction false} KeptShows(flat: seq<Digest>, stores: seq<Depot>, residents: Slots<Resident>, d: Digest,
                                     bytes: seq<byte>)
    requires stores != [] && !Present(stores, residents, d)
    ensures Walk(flat, Kept(stores, d, bytes), residents, []) == Walk(flat, stores, residents, []) <==>
              !Reaches(flat, stores, residents, d)
  {
    hide Resides, Walk, Stored, FirstAt;
    var now := Kept(stores, d, bytes);
    forall e: Digest ensures Stored(now, e) <==> Stored(stores, e) || e == d {
      KeptHas(stores, d, bytes, e);
    }
    if d !in flat {
      WalkFrame(flat, now, stores, residents, []);
    } else {
      var i := FirstAt(flat, d);
      var acc := Walk(flat[..i], stores, residents, []);
      WalkFrame(flat[..i], now, stores, residents, []);
      WalkGrows(flat[..i], stores, residents, []);
      assert flat == flat[..i] + flat[i..];
      WalkConcat(flat[..i], flat[i..], stores, residents, []);
      WalkConcat(flat[..i], flat[i..], now, residents, []);
      if |acc| == MAX_BLOBS {
        WalkFull(flat[i..], stores, residents, acc);
        WalkFull(flat[i..], now, residents, acc);
      } else {
        KeptReached(flat, i, now, residents, acc);
        if d in Walk(flat, stores, residents, []) {
          WalkOnly(flat, stores, residents, [], d);
        }
        if d in acc {
          WalkOnly(flat[..i], stores, residents, [], d);
        }
      }
    }
  }

  lemma {:induction false} KeptReached(flat: seq<Digest>, i: nat, stores: seq<Depot>, residents: Slots<Resident>,
                                       acc: seq<Digest>)
    requires i < |flat| && Present(stores, residents, flat[i]) && |acc| < MAX_BLOBS
    ensures flat[i] in Walk(flat[i..], stores, residents, acc)
  {
    hide Present;
    var rest := flat[i..];
    assert rest[0] == flat[i];
    if flat[i] in acc {
      WalkGrows(rest, stores, residents, acc);
    } else {
      WalkGrows(rest[1..], stores, residents, acc + [flat[i]]);
      assert (acc + [flat[i]])[|acc|] == flat[i];
    }
  }
}
