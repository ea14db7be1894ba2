/** The registry's rules: staging, committing, mapping and freeing image layers. */
module Registry {
  import opened Bytes
  import opened RecordCodec
  import opened RegistryKeys
  import opened RegistryRules
  import Sha256

  function Hash(bytes: seq<byte>): Digest {
    Sha256.DigestOf(bytes)
  }

  /** No signature: zeros. */
  function Unsigned(): Signature {
    seq(64, _ => 0)
  }

  datatype Status =
    | Done
    | NoDevice
    | Invalid
    | Busy
    | BadState
    | NotFound
    | TooMany
    | TooBig
    | NoSpace
    | NoMemory
    | Denied
    | StoreError

  /** What a store's record read gives. */
  datatype Got = Found(rec: Option<Meta>) | Missing | Failed

  datatype Stage = Idle | Open(plain: bool, failed: bool, bytes: seq<byte>, key: Key, layer: nat)

  class Registry {
    /** The layers this build holds in an entry, and its map slots. */
    const max: nat
    const mapSlots: nat

    /** What the stores will answer: which of the calls to them fail, and how much of a write each takes. */
    const fails: nat -> bool
    const takes: nat -> nat

    /** There is no store. */
    ghost const bare: bool

    /** The store calls made so far. */
    var calls: nat

    var ready: bool
    var seqNo: uint32
    var order: uint32
    var stage: Stage
    var pending: Slots<Pending>
    var maps: Slots<Mapping>
    var residents: Slots<Resident>
    var visibleValid: bool
    var visible: seq<Digest>

    /** The stores, the first of them holding the records. */
    var stores: seq<Depot>
    var recs: Records

    /** A listing was short or a store call failed since the registry started. */
    ghost var short: bool

    /** Layer mappings handed out and not returned. */
    ghost var outstanding: multiset<Digest>

    /** The cached listing was read whole while nothing dangled, from these keys. */
    ghost var exact: bool
    ghost var shown: seq<Key>

    /** The entries committed so far, the last of them last. */
    ghost var log: seq<Key>

    /** No commit's sequence wrapped, and no start or signing missed a record it could not read. */
    ghost var orderly: bool

    ghost predicate Sizes()
      reads this`pending, this`maps, this`stores, this`recs
    {
      && 1 <= max <= ABS_MAX_LAYERS && |pending| == 2 * max && |maps| == mapSlots && Rooted()
      && (forall k | k in recs && recs[k].Some? :: |recs[k].value.layers| <= max)
    }

    /** The open stage is the primary's, and until a write fails the hash has seen what the store has. */
    ghost predicate StageOk()
      reads this`stage, this`stores
    {
      match stage
      case Idle => stores == [] || stores[0].staged.None?
      case Open(plain, failed, bytes, _, layer) =>
        && stores != [] && stores[0].staged.Some? && layer < max && (plain ==> layer == 0)
        && (!failed ==> stores[0].staged.value == Staged(bytes, false))
    }

    /** Before it is started the registry holds nothing. */
    ghost predicate Quiet()
      reads this`ready, this`pending, this`maps, this`stage, this`visibleValid
    {
      !ready ==>
        && (forall i | 0 <= i < |pending| :: pending[i].None?)
        && (forall i | 0 <= i < |maps| :: maps[i].None?)
        && stage.Idle? && !visibleValid
    }

    /** Records are in the first store. */
    ghost predicate Rooted()
      reads this`stores, this`recs
    {
      bare == (stores == []) && (bare ==> recs == map[])
    }

    /** Later commits have greater sequences, and once started the counter is past them all. */
    ghost predicate Ordered()
      reads this`orderly, this`recs, this`log, this`ready, this`seqNo
    {
      orderly ==> InOrder(recs, log) && (ready ==> Counted(recs, seqNo))
    }

    ghost predicate Cached()
      reads this`visibleValid, this`exact, this`visible, this`shown, this`recs, this`pending, this`stores,
        this`residents
    {
      visibleValid && exact ==> Shows(visible, shown, recs, pending, stores, residents)
    }

    /** While no listing was short, a cached one is exact. */
    ghost predicate Fresh()
      reads this`short, this`visibleValid, this`exact
    {
      !short && visibleValid ==> exact
    }

    /** What a step that commits this entry, or none, does to the counter and the log. */
    ghost predicate Tracks(done: Option<Key>, wasLog: seq<Key>, wasOrderly: bool, wasSeq: uint32, was: Records)
      reads this`log, this`orderly, this`seqNo, this`recs
    {
      match done
      case Some(k) =>
        && log == wasLog + [k] && orderly == (wasOrderly && seqNo != 0) && PutAs(was, k, recs, seqNo)
        && Advanced(was, wasSeq, seqNo)
      case None => log == wasLog && orderly == wasOrderly && Synced(was, wasSeq, seqNo)
    }

    /** Everything the registry keeps but that no blob leaks. */
    ghost predicate Whole()
      reads this`ready, this`seqNo, this`stage, this`pending, this`maps, this`residents, this`visibleValid,
        this`visible, this`stores, this`recs, this`outstanding, this`exact, this`shown, this`log, this`orderly
    {
      && Sizes() && PendingOk(pending, max) && ResidentsOk(residents) && PlacesOk(residents, maps)
      && MapsOk(maps, stores, outstanding) && StageOk() && Addressed(stores, Hash)
      && Quiet() && Cached() && Ordered()
    }

    ghost predicate Valid()
      reads this`ready, this`seqNo, this`stage, this`pending, this`maps, this`residents, this`visibleValid,
        this`visible, this`stores, this`recs, this`outstanding, this`exact, this`shown, this`log, this`orderly,
        this`short
    {
      Whole() && (ready && !short ==> NoLeak(recs, pending, maps, stores, {}))
    }

    /** A failed read, or a counter moved on, breaks nothing. */
    twostate lemma {:induction false} StillValid()
      requires old(Valid())
               && unchanged(`ready, `order, `stage, `pending, `maps, `residents, `visibleValid, `visible, `stores,
                 `recs)
      requires unchanged(`outstanding, `exact, `shown, `log, `orderly) && seqNo >= old(seqNo) && (old(short) ==> short)
      ensures Valid()
    {
      hide MapsOk, NoLeak, PlacesOk, InOrder, Addressed, Hash, Shows, PendingOk, ResidentsOk;
    }

    lemma {:induction false} Known()
      requires Valid()
      ensures Sizes() && ResidentsOk(residents) && bare == (stores == [])
    {
      hide MapsOk, NoLeak, PlacesOk, InOrder, Addressed, Hash, Shows, PendingOk, ResidentsOk;
    }

    /** Every digest listed or waiting is held somewhere. */
    ghost predicate Sound()
      reads this`recs, this`pending, this`stores, this`residents
    {
      NoDangling(recs, pending, stores, residents)
    }

    // ---- What the stores answer ----

    /** How many of the first calls failed. */
    ghost function Faults(n: nat): nat {
      if n == 0 then 0 else Faults(n - 1) + if fails(n - 1) then 1 else 0
    }

    lemma {:induction false} NeverFaulty(n: nat)
      requires forall i: nat :: !fails(i)
      ensures Faults(n) == 0
    {
      if n > 0 {
        NeverFaulty(n - 1);
      }
    }

    /** A call failed since, or the records do not fit a listing, or there is no store. */
    ghost predicate Excused(c: nat, was: Records)
      reads this`calls, this`recs
    {
      bare || Faults(c) < Faults(calls) || !Fits(was) || !Fits(recs)
    }

    /** What made a listing short, since the calls, the flag and the records were these. */
    ghost predicate Honest(c: nat, s: bool, was: Records)
      reads this`calls, this`recs, this`short
    {
      Faults(c) <= Faults(calls) && (s ==> short) && (short ==> s || Excused(c, was))
    }

    /** The same over the start, which lists the blobs of the stores as well. */
    ghost predicate HonestStart(c: nat, s: bool, crowded: bool)
      reads this`calls, this`recs, this`short
    {
      Faults(c) <= Faults(calls) && (s ==> short) && (short ==> s || crowded || Excused(c, recs))
    }

    /** No listing was short, no call has failed since, there is a store, and the records fit a listing. */
    ghost predicate Smooth(c: nat, s: bool, was: Records)
      reads this`calls
    {
      !s && !bare && Fits(was) && Faults(c) == Faults(calls)
    }

    /** One call was made since. */
    ghost predicate Answered(c: nat)
      reads this`calls
    {
      calls == c + 1 && Faults(calls) == Faults(c) + if fails(c) then 1 else 0
    }

    /** No call has come to be unmade. */
    ghost predicate Asked(c: nat)
      reads this`calls
    {
      Faults(c) <= Faults(calls)
    }

    /** One call to a store. */
    method Ask() returns (failed: bool)
      modifies this`calls
      ensures calls == old(calls) + 1 && failed == fails(old(calls))
      ensures Faults(calls) == Faults(old(calls)) + if failed then 1 else 0
    {
      failed := fails(calls);
      calls := calls + 1;
    }

    method GetRecord(key: Key) returns (r: Got)
      requires Rooted()
      modifies this`short, this`calls
      ensures Honest(old(calls), old(short), recs)
      ensures r.Found? ==> key in recs && r.rec == recs[key]
      ensures r.Missing? ==> key !in recs
      ensures r.Failed? ==> short
      ensures !r.Failed? ==> short == old(short)
    {
      hide Fits, Registry.Faults, Counted;
      if stores != [] {
        var failed := Ask();
        if failed {
          short := true;
          return Failed;
        }
      }
      r := if key in recs then Found(recs[key]) else Missing;
    }

    /** How many records there are, and up to the limit of their keys, in any order; -1 when it fails. */
    method ListRecords() returns (n: int, keys: seq<Key>)
      requires Rooted()
      modifies this`short, this`calls
      ensures n == -1 || n == |recs|
      ensures n == -1 <==> stores == [] || fails(old(calls))
      ensures n == -1 || n > MAX_ENTRIES ==> short
      ensures 0 <= n <= MAX_ENTRIES ==> short == old(short)
      ensures Honest(old(calls), old(short), old(recs))
      ensures n >= 0 ==>
                |keys| == (if n > MAX_ENTRIES then MAX_ENTRIES else n) && Distinct(keys)
                  && forall k | k in keys :: k in recs
      ensures 0 <= n <= MAX_ENTRIES ==> forall k :: k in keys <==> k in recs
    {
      if stores == [] {
        short := true;
        return -1, [];
      }
      var failed := Ask();
      if failed {
        short := true;
        return -1, [];
      }
      n := |recs|;
      keys := PickKeys(recs.Keys, if n > MAX_ENTRIES then MAX_ENTRIES else n);
      if n > MAX_ENTRIES {
        short := true;
      }
    }

    // ---- Reading entries ----

    method ResidentFind(key: Key) returns (r: Option<Resident>)
      ensures r == ResidentOf(residents, key)
    {
      for i := 0 to |residents|
        invariant ResidentOf(residents, key) == ResidentOf(residents[i..], key)
      {
        if residents[i].Some? && residents[i].value.key == key {
          return residents[i];
        }
        assert residents[i..][1..] == residents[i + 1..];
      }
      r := None;
    }

    method ResidentByDigest(d: Digest) returns (r: Option<Resident>)
      ensures r.Some? <==> Resides(residents, d)
      ensures r.Some? ==> r in residents && r.value.digest == d
    {
      for i := 0 to |residents|
        invariant forall j | 0 <= j < i :: !(residents[j].Some? && residents[j].value.digest == d)
      {
        if residents[i].Some? && residents[i].value.digest == d {
          return residents[i];
        }
      }
      r := None;
    }

    /** An installed entry wins over a resident image of the same ref. */
    method ReadMeta(key: Key) returns (m: Option<Meta>)
      requires Rooted()
      modifies this`short, this`calls
      ensures Honest(old(calls), old(short), old(recs))
      ensures !short ==> m == Entry(recs, residents, key)
      ensures m.Some? ==> (key in recs && m == recs[key])
                          || (ResidentOf(residents, key).Some?
                          && m.value == ResidentMeta(ResidentOf(residents, key).value))
    {
      var r := ResidentFind(key);
      var got := GetRecord(key);
      match got
      case Found(rec) => m := rec;
      case Missing => m := if r.Some? then Some(ResidentMeta(r.value)) else None;
      case Failed => m := if r.Some? then Some(ResidentMeta(r.value)) else None;
    }

    /** Every entry's key, sorted; -1 when the records cannot be listed. */
    method ListKeys() returns (n: int, keys: seq<Key>)
      requires Sizes() && ResidentsOk(residents)
      modifies this`short, this`calls
      ensures Honest(old(calls), old(short), old(recs))
      ensures n == -1 || n == |keys|
      ensures n == -1 <==> stores == [] || fails(old(calls))
      ensures n == -1 ==> short
      ensures n >= 0 ==>
                Sorted(keys) && Distinct(keys) && forall k | k in keys :: k in recs || HasResident(residents, k)
      ensures !short ==> Listing(keys, recs, residents)
    {
      hide Sorted, Before, Registry.Faults, Fits, Counted;
      keys := [];
      n, keys := ListRecords();
      if n < 0 { return; }
      ghost var listed := keys;
      for i := 0 to MAX_RESIDENT
        invariant |keys| <= MAX_ENTRIES + i && Distinct(keys) && |listed| <= |keys| && keys[..|listed|] == listed
        invariant forall k | k in keys :: k in recs || HasResident(residents, k)
        invariant forall k | k in listed :: k in keys
        invariant forall j | 0 <= j < i && residents[j].Some? :: residents[j].value.key in keys
      {
        if residents[i].Some? && residents[i].value.key !in keys {
          assert HasResident(residents, residents[i].value.key);
          ghost var had := keys;
          keys := keys + [residents[i].value.key];
          assert forall k | k in had :: k in keys;
        }
      }
      ghost var all := keys;
      keys := SortedKeys(keys);
      Rearranged(all, keys);
      n := |keys|;
    }

    // ---- Freeing ----

    /** The digests a store record lists; false when the set may be short. */
    method ListedDigests() returns (ok: bool, refs: seq<Digest>)
      requires Rooted()
      modifies this`short, this`calls
      ensures Honest(old(calls), old(short), old(recs))
      ensures !ok ==> short
      ensures ok ==> forall d: Digest :: d in refs <==> Listed(recs, d)
    {
      refs := [];
      if stores == [] {
        return true, refs;
      }
      var n, keys := ListRecords();
      if n < 0 || n > MAX_ENTRIES {
        return false, refs;
      }
      for i := 0 to n
        invariant |refs| <= MAX_BLOBS && Apart(refs)
        invariant Honest(old(calls), old(short), recs)
        invariant forall d: Digest :: d in refs <==> ListedBy(keys[..i], recs, d)
      {
        ListedBySnoc(keys, i, recs);
        var got := GetRecord(keys[i]);
        if got.Failed? {
          return false, refs;
        }
        if got.Found? && got.rec.Some? {
          var fits;
          fits, refs := AddDigests(refs, got.rec.value);
          if !fits {
            TooManyListed(keys, i, recs, refs);
            short := true;
            return false, refs;
          }
        }
      }
      ok := true;
      assert keys[..n] == keys;
      ListedByAll(keys, recs);
    }

    /** Something waits for the blob or maps it. */
    method Held(d: Digest) returns (b: bool)
      ensures b == (Waits(pending, d) || Mapped(maps, d))
    {
      for i := 0 to |pending|
        invariant forall j | 0 <= j < i :: !(pending[j].Some? && pending[j].value.digest == d)
      {
        if pending[i].Some? && pending[i].value.digest == d {
          return true;
        }
      }
      for i := 0 to |maps|
        invariant forall j | 0 <= j < i :: !(maps[j].Some? && maps[j].value.digest == d)
      {
        if maps[i].Some? && maps[i].value.digest == d {
          return true;
        }
      }
      b := false;
    }

    /** The one place a blob is dropped: nothing lists it, waits for it or maps it. */
    method DropBlob(s: nat, d: Digest)
      requires s < |stores|
      requires !Listed(recs, d) && !Waits(pending, d) && !Mapped(maps, d)
      requires stores[s].maps[d] == 0
      modifies this`stores, this`short, this`calls
      ensures Honest(old(calls), old(short), old(recs))
      ensures stores == old(stores) || stores == old(stores)[s := old(stores)[s].(blobs := old(stores)[s].blobs - {d})]
      ensures !short ==> d !in stores[s].blobs
    {
      var failed := Ask();
      if failed {
        short := true;
      } else {
        stores := stores[s := stores[s].(blobs := stores[s].blobs - {d})];
      }
    }

    /** The stores hold none of `d`, unless a drop failed. */
    method DropEverywhere(d: Digest, ghost ds: set<Digest>)
      requires d in ds && !Needed(recs, pending, maps, d) && MapsOk(maps, stores, outstanding)
      modifies this`stores, this`short, this`calls
      ensures Honest(old(calls), old(short), old(recs))
      ensures Freed(old(stores), stores, ds, recs, pending, maps) && MapsOk(maps, stores, outstanding)
      ensures !short ==> !Stored(stores, d)
    {
      hide Freed, MapsOk, Listed, Waits, Mapped, Registry.Faults, Fits, Counted;
      ghost var was := stores;
      FreedNothing(was, ds, recs, pending, maps);
      for i := 0 to |stores|
        invariant |stores| == |was| && Honest(old(calls), old(short), recs)
        invariant Freed(was, stores, ds, recs, pending, maps) && MapsOk(maps, stores, outstanding)
        invariant !short ==> forall s | 0 <= s < i :: d !in stores[s].blobs
      {
        if d in stores[i].blobs {
          ghost var before := stores;
          UnmappedFree(maps, stores, outstanding, i, d);
          DropBlob(i, d);
          if stores != before {
            DropFreed(before, i, d, ds, recs, pending, maps);
            FreedMore(was, before, stores, ds, ds, recs, pending, maps);
            FreedMaps(before, stores, ds, recs, pending, maps, outstanding);
          }
        }
      }
    }

    /** Frees each of `ds` that nothing needs; a listing that may be short frees nothing. */
    method DropAllIfFree(ds: seq<Digest>)
      requires Rooted() && MapsOk(maps, stores, outstanding)
      modifies this`stores, this`short, this`calls
      ensures Honest(old(calls), old(short), old(recs))
      ensures Freed(old(stores), stores, Set(ds), recs, pending, maps) && MapsOk(maps, stores, outstanding)
      ensures !short ==> forall d | d in ds :: Stored(stores, d) ==> Needed(recs, pending, maps, d)
    {
      hide Freed, MapsOk, Listed, Waits, Mapped, Stored, Registry.Faults, Fits, Counted;
      ghost var was := stores;
      FreedNothing(was, Set(ds), recs, pending, maps);
      if ds == [] { return; }
      var ok, refs := ListedDigests();
      if !ok { return; }
      for i := 0 to |ds|
        invariant Honest(old(calls), old(short), recs)
        invariant Freed(was, stores, Set(ds), recs, pending, maps) && MapsOk(maps, stores, outstanding)
        invariant !short ==> forall j | 0 <= j < i :: Stored(stores, ds[j]) ==> Needed(recs, pending, maps, ds[j])
      {
        var held := Held(ds[i]);
        if ds[i] !in refs && !held {
          ghost var before := stores;
          DropEverywhere(ds[i], Set(ds));
          FreedMore(was, before, stores, Set(ds), Set(ds), recs, pending, maps);
          FreedKeeps(before, stores, Set(ds), recs, pending, maps, residents);
        }
      }
    }

    /** Frees the spare blobs that nothing needs, so that nothing leaks. */
    method Free(ds: seq<Digest>)
      requires Whole() && (!short ==> NoLeak(recs, pending, maps, stores, Set(ds)))
      modifies this`stores, this`short, this`calls
      ensures Whole() && (!short ==> NoLeak(recs, pending, maps, stores, {}))
      ensures Honest(old(calls), old(short), old(recs))
      ensures old(Sound()) ==> Sound()
      ensures Freed(old(stores), stores, Set(ds), recs, pending, maps)
    {
      hide Freed, MapsOk, NoLeak, NoDangling, Needed, Stored, PlacesOk, PendingOk, ResidentsOk, InOrder, Shows,
        Addressed, Hash, Registry.Faults, Fits, Counted;
      ghost var was := stores;
      DropAllIfFree(ds);
      FreedKeeps(was, stores, Set(ds), recs, pending, maps, residents);
      FreedAddressed(was, stores, Set(ds), recs, pending, maps, Hash);
      FreedStage(was, stores, Set(ds));
      if visibleValid && exact {
        ShowsSound(visible, shown, recs, pending, was, residents);
        StillShows(visible, shown, recs, residents, pending, pending, was, stores);
      }
      if !short {
        FreedAll(was, stores, Set(ds), recs, pending, maps, Set(ds));
      }
    }

    lemma {:induction false} FreedStage(was: seq<Depot>, now: seq<Depot>, ds: set<Digest>)
      requires Freed(was, now, ds, recs, pending, maps)
      ensures |now| == |was| && (was != [] ==> now != [] && now[0].staged == was[0].staged)
    {
      hide Needed;
    }

    // ---- Starting ----

    /** The digests a store holds, up to the limit; none when it fails. */
    method ListBlobs(s: nat) returns (list: seq<Digest>)
      requires s < |stores|
      modifies this`short, this`calls
      ensures HonestStart(old(calls), old(short), |old(stores)[s].blobs| > MAX_BLOBS)
      ensures forall d | d in list :: d in stores[s].blobs
      ensures !short ==> forall d | d in stores[s].blobs :: d in list
    {
      var failed := Ask();
      if failed {
        short := true;
        return [];
      }
      var n := |stores[s].blobs|;
      list := PickDigests(stores[s].blobs.Keys, if n > MAX_BLOBS then MAX_BLOBS else n);
      if n > MAX_BLOBS {
        short := true;
      }
    }

    /** Frees what a store holds and no record lists. */
    method ReclaimStore(s: nat, refs: seq<Digest>, ghost all: set<Digest>)
      requires s < |stores| && MapsOk(maps, stores, outstanding)
      requires forall d: Digest :: d in refs <==> Needed(recs, pending, maps, d)
      requires forall d: Digest | Stored(stores, d) :: d in all
      modifies this`stores, this`short, this`calls
      ensures HonestStart(old(calls), old(short), |old(stores)[s].blobs| > MAX_BLOBS)
      ensures Freed(old(stores), stores, all, recs, pending, maps) && MapsOk(maps, stores, outstanding)
      ensures forall d: Digest | Stored(stores, d) :: d in all
      ensures |stores| == |old(stores)| && forall t | 0 <= t < |stores| && t != s :: stores[t] == old(stores)[t]
      ensures !short ==> forall d | d in stores[s].blobs :: d in refs
    {
      hide Freed, MapsOk, Listed, Waits, Mapped, Stored, Registry.Faults, Fits, Counted;
      ghost var was := stores;
      FreedNothing(was, all, recs, pending, maps);
      var list := ListBlobs(s);
      forall d | d in list ensures d in all {
        StoredIn(was, s, d);
      }
      for b := 0 to |list|
        invariant |stores| == |was| && HonestStart(old(calls), old(short), |was[s].blobs| > MAX_BLOBS)
        invariant Freed(was, stores, all, recs, pending, maps) && MapsOk(maps, stores, outstanding)
        invariant forall t | 0 <= t < |stores| && t != s :: stores[t] == was[t]
        invariant !short ==> forall d | d in stores[s].blobs :: d in list
        invariant !short ==> forall j | 0 <= j < b :: list[j] in refs || list[j] !in stores[s].blobs
      {
        if list[b] !in refs {
          ghost var before := stores;
          UnmappedFree(maps, stores, outstanding, s, list[b]);
          DropBlob(s, list[b]);
          if stores != before {
            DropFreed(before, s, list[b], all, recs, pending, maps);
            FreedMore(was, before, stores, all, all, recs, pending, maps);
            FreedMaps(before, stores, all, recs, pending, maps, outstanding);
          }
        }
      }
      FreedKeeps(was, stores, all, recs, pending, maps, residents);
    }

    /** Frees what each store holds and no record lists. */
    method ReclaimStores(refs: seq<Digest>, ghost all: set<Digest>)
      requires MapsOk(maps, stores, outstanding)
      requires forall d: Digest :: d in refs <==> Needed(recs, pending, maps, d)
      requires forall d: Digest | Stored(stores, d) :: d in all
      modifies this`stores, this`short, this`calls
      ensures HonestStart(old(calls), old(short), Crowded(old(stores)))
      ensures Freed(old(stores), stores, all, recs, pending, maps) && MapsOk(maps, stores, outstanding)
      ensures !short ==> forall s | 0 <= s < |stores| :: forall d | d in stores[s].blobs :: d in refs
    {
      hide Freed, MapsOk, Stored, Needed, Registry.Faults, Fits, Crowded;
      ghost var was := stores;
      FreedNothing(was, all, recs, pending, maps);
      for i := 0 to |stores|
        modifies this`stores, this`short, this`calls
        invariant |stores| == |was| && HonestStart(old(calls), old(short), Crowded(was))
        invariant Freed(was, stores, all, recs, pending, maps) && MapsOk(maps, stores, outstanding)
        invariant forall d: Digest | Stored(stores, d) :: d in all
        invariant forall s | i <= s < |stores| :: stores[s] == was[s]
        invariant !short ==> forall s | 0 <= s < i :: forall d | d in stores[s].blobs :: d in refs
      {
        ghost var before := stores;
        CrowdedAt(was, i);
        ReclaimStore(i, refs, all);
        FreedMore(was, before, stores, all, all, recs, pending, maps);
      }
    }

    /** Frees every blob no entry lists, after a reset cut an install. */
    method Reclaim()
      requires Whole() && !ready
      modifies this`stores, this`short, this`calls, this`visibleValid
      ensures Whole() && (!short ==> NoLeak(recs, pending, maps, stores, {})) && !visibleValid
      ensures HonestStart(old(calls), old(short), Crowded(old(stores)))
      ensures old(Sound()) ==> Sound()
      ensures Freed(old(stores), stores, AllStored(old(stores)), recs, pending, maps)
    {
      hide Freed, MapsOk, NoLeak, NoDangling, Stored, PlacesOk, PendingOk, ResidentsOk, InOrder, Shows, Addressed,
        Hash, AllStored, Listed, Registry.Faults, Fits, Counted, Crowded;
      visibleValid := false;
      ghost var was, all := stores, AllStored(stores);
      FreedNothing(was, all, recs, pending, maps);
      NothingHeld();
      var ok, refs := ListedDigests();
      if ok {
        ReclaimStores(refs, all);
        FreedKeeps(was, stores, all, recs, pending, maps, residents);
        FreedAddressed(was, stores, all, recs, pending, maps, Hash);
        FreedStage(was, stores, all);
        if !short {
          NoneSpare(refs);
        }
      }
    }

    lemma {:induction false} NothingHeld()
      requires Quiet() && !ready
      ensures forall d: Digest :: !Waits(pending, d) && !Mapped(maps, d)
    {
    }

    lemma {:induction false} NoneSpare(refs: seq<Digest>)
      requires forall d: Digest :: d in refs <==> Needed(recs, pending, maps, d)
      requires forall s | 0 <= s < |stores| :: forall d | d in stores[s].blobs :: d in refs
      ensures NoLeak(recs, pending, maps, stores, {})
    {
      hide Needed;
    }

    /** Starts the registry before its first use: the sequence follows every entry, and nothing leaks. */
    method EnsureReady()
      requires Valid()
      modifies this`ready, this`seqNo, this`stores, this`short, this`calls, this`visibleValid, this`orderly
      ensures Valid() && ready
      ensures old(Sound()) ==> Sound()
      ensures old(ready) ==>
                stores == old(stores) && short == old(short) && visibleValid == old(visibleValid)
                  && seqNo == old(seqNo) && orderly == old(orderly) && calls == old(calls)
      ensures !old(ready) ==> Freed(old(stores), stores, AllStored(old(stores)), recs, pending, maps)
      ensures !old(ready) ==> Reached(recs, seqNo)
      ensures !old(ready) ==> !visibleValid && HonestStart(old(calls), false, Crowded(old(stores)))
      ensures !short ==> orderly == old(orderly)
      ensures !old(ready) && !short ==> Counted(recs, seqNo)
    {
      hide Freed, MapsOk, NoLeak, NoDangling, PlacesOk, PendingOk, ResidentsOk, InOrder, Shows, Addressed, Hash,
        AllStored, Reached, Registry.Faults, Fits, Counted, Registry.Cached, Registry.StageOk, Registry.Sizes, Crowded;
      if !ready {
        short := false;
        ReadSequence();
        Reclaim();
        ready := true;
      }
    }

    /** The counter as the entries leave it. */
    method ReadSequence()
      requires Whole() && !ready
      modifies this`seqNo, this`short, this`calls, this`orderly
      ensures Whole()
      ensures Honest(old(calls), old(short), old(recs))
      ensures Reached(recs, seqNo)
      ensures !short ==> orderly == old(orderly) && Counted(recs, seqNo)
      ensures orderly ==> Counted(recs, seqNo)
    {
      hide MapsOk, PlacesOk, PendingOk, Shows, Addressed, Hash, InOrder, ResidentsOk, Reached, Registry.Faults, Fits,
        Counted;
      ScanSequence();
      if short {
        orderly := false;
      }
    }

    /** The greatest sequence of any entry that could be read. */
    method ScanSequence()
      requires Sizes() && ResidentsOk(residents)
      modifies this`seqNo, this`short, this`calls
      ensures Honest(old(calls), old(short), old(recs))
      ensures Reached(recs, seqNo)
      ensures !short ==> Counted(recs, seqNo)
    {
      hide Sorted, Distinct, ResidentMeta, Reached, ResidentsOk, Registry.Faults, Fits;
      seqNo := 0;
      ReachedNone(recs);
      var n, keys := ListKeys();
      for i := 0 to |keys|
        modifies this`seqNo, this`short, this`calls
        invariant Honest(old(calls), old(short), recs) && Reached(recs, seqNo)
        invariant !short ==> Listing(keys, recs, residents)
        invariant !short ==>
                    forall j | 0 <= j < i && keys[j] in recs && recs[keys[j]].Some? ::
                      recs[keys[j]].value.installSeq <= seqNo
      {
        var m := ReadMeta(keys[i]);
        if m.Some? && m.value.installSeq > seqNo {
          ResidentSeq(residents, keys[i]);
          ReachedBy(recs, keys[i]);
          seqNo := m.value.installSeq;
        }
      }
    }

    // ---- Waiting layers ----

    /** The slot for a layer: its own, else the first unused, else the one taken longest ago. */
    method SlotFor(key: Key, index: nat) returns (k: nat)
      requires |pending| > 0
      ensures k < |pending|
      ensures forall i | 0 <= i < |pending| && i != k && pending[i].Some? && PendingOk(pending, max) ::
                pending[i].value.key != key || pending[i].value.index != index
      ensures pending[k].Some? && !(pending[k].value.key == key && pending[k].value.index == index) ==>
                forall i | 0 <= i < |pending| :: pending[i].Some? && pending[k].value.order <= pending[i].value.order
    {
      var slot, oldest := -1, -1;
      for i := 0 to |pending|
        invariant -1 <= slot < i && -1 <= oldest < i
        invariant slot >= 0 ==> pending[slot].None?
        invariant forall j | 0 <= j < i && pending[j].Some? ::
                    pending[j].value.key != key || pending[j].value.index != index
        invariant slot < 0 ==> forall j | 0 <= j < i :: pending[j].Some?
        invariant oldest >= 0 ==> pending[oldest].Some?
        invariant forall j | 0 <= j < i && pending[j].Some? ::
                    oldest >= 0 && pending[oldest].value.order <= pending[j].value.order
      {
        if pending[i].Some? && pending[i].value.key == key && pending[i].value.index == index {
          return i;
        }
        if pending[i].None? && slot < 0 {
          slot := i;
        }
        if pending[i].Some? && (oldest < 0 || pending[i].value.order < pending[oldest].value.order) {
          oldest := i;
        }
      }
      assert slot < 0 ==> pending[0].Some?;
      k := if slot < 0 then oldest else slot;
    }

    /** Fills a slot with a layer held somewhere; only what it replaced may then be spare. */
    method FillSlot(k: nat, p: Pending, ghost spare: set<Digest>)
      requires Whole() && k < |pending| && p.index < max && Present(stores, residents, p.digest)
      requires forall i | 0 <= i < |pending| && i != k && pending[i].Some? ::
                 pending[i].value.key != p.key || pending[i].value.index != p.index
      requires var had := pending[k];
               spare == if had.Some? && had.value.digest != p.digest then {had.value.digest} else {}
      requires ready && (!short ==> NoLeak(recs, pending, maps, stores, {p.digest}))
      modifies this`pending
      ensures Whole() && (!short ==> NoLeak(recs, pending, maps, stores, spare))
      ensures old(Sound()) ==> Sound()
      ensures pending == old(pending)[k := Some(p)]
    {
      hide MapsOk, NoLeak, NoDangling, Needed, Stored, PlacesOk, ResidentsOk, Registry.Ordered, Addressed, Hash, Shows,
        Waits, Present;
      ghost var was := pending;
      SlotKeeps(was, k, p, recs, maps, stores, residents, spare);
      pending := pending[k := Some(p)];
      if visibleValid && exact {
        ShowsSound(visible, shown, recs, was, stores, residents);
        StillShows(visible, shown, recs, residents, was, pending, stores, stores);
      }
    }

    lemma {:induction false} StillHeld(were: seq<Depot>, ds: set<Digest>, d: Digest)
      requires Freed(were, stores, ds, recs, pending, maps) && Waits(pending, d) && Present(were, residents, d)
      ensures Present(stores, residents, d)
    {
      hide Freed, Waits, Stored, Resides, Listed, Mapped;
      FreedKeeps(were, stores, ds, recs, pending, maps, residents);
    }

    /** Records the layer before freeing what its slot held. */
    method PendingAdd(key: Key, index: nat, d: Digest, length: uint32) returns (ghost at: nat)
      requires Whole() && ready && index < max && Present(stores, residents, d)
      requires !short ==> NoLeak(recs, pending, maps, stores, {d})
      modifies this`pending, this`order, this`stores, this`short, this`calls
      ensures Valid() && Waits(pending, d) && WaitsAs(pending, key, index, d, length)
              && Present(stores, residents, d)
      ensures order == (old(order) + 1) % 0x1_0000_0000
      ensures Honest(old(calls), old(short), recs)
      ensures old(Sound()) ==> Sound()
      ensures at < |pending| == |old(pending)|
              && pending == old(pending)[at := Some(Pending(key, index, d, length, order))]
    {
      hide MapsOk, NoLeak, Registry.Sound, Stored, PlacesOk, ResidentsOk, Registry.Ordered, Addressed, Hash, Shows,
        Waits, WaitsAs, Freed, Registry.Cached, Registry.StageOk, Present, Fits, Registry.Faults, Counted;
      var k := SlotFor(key, index);
      at := k;
      var had := pending[k];
      order := (order + 1) % 0x1_0000_0000;
      var p := Pending(key, index, d, length, order);
      var replaced := had.Some? && had.value.digest != d;
      ghost var spare := if replaced then {had.value.digest} else {};
      FillSlot(k, p, spare);
      WaitsAt(pending, k);
      if replaced {
        assert Set([had.value.digest]) == spare;
        ghost var were := stores;
        Free([had.value.digest]);
        StillHeld(were, spare, d);
      }
    }

    method PendingFind(key: Key, index: nat) returns (r: Option<Pending>)
      ensures r.Some? ==> r in pending && r.value.key == key && r.value.index == index
      ensures r.Some? ==> r.value.length == LengthAt(pending, key, index)
      ensures r.None? <==> Lacks(pending, key, index)
    {
      for i := 0 to |pending|
        invariant forall j | 0 <= j < i && pending[j].Some? ::
                    pending[j].value.key != key || pending[j].value.index != index
        invariant LengthAt(pending, key, index) == LengthAt(pending[i..], key, index)
      {
        if pending[i].Some? && pending[i].value.key == key && pending[i].value.index == index {
          return pending[i];
        }
        assert pending[i..][1..] == pending[i + 1..];
      }
      r := None;
    }

    // ---- Committing ----

    /** The waiting layers of an entry, from the base up, and the sum of their lengths. */
    method Gather(key: Key, count: nat) returns (rc: Status, layers: seq<Layer>, size: uint32)
      ensures rc == if Fitting(pending, key, count) then Done
                    else if FirstMissing(pending, key, count) then NotFound else TooBig
      ensures rc == Done ==> |layers| == count && Gathered(pending, key, layers) && size == Total(layers)
    {
      hide Lacks, LengthAt, Gathered, Total;
      layers, size := [], 0;
      NoneGathered(pending, key);
      for i := 0 to count
        invariant |layers| == i && Gathered(pending, key, layers) && size == Total(layers)
        invariant Fitting(pending, key, i) && size == WaitingSum(pending, key, i)
      {
        var p := PendingFind(key, i);
        if p.None? {
          return NotFound, layers, size;
        }
        GatherMore(pending, key, layers, p);
        layers := layers + [Layer(p.value.length, p.value.digest)];
        if size + p.value.length >= 0x1_0000_0000 {
          PastLimit(pending, key, i, count);
          return TooBig, layers, size;
        }
        size := size + p.value.length;
      }
      rc := Done;
    }

    /** Empties the entry's slots; every layer past its count is freed, with room for all of them. */
    method ClearSlots(key: Key, count: nat, replaced: seq<Digest>) returns (freed: seq<Digest>)
      requires PendingOk(pending, max) && count <= max && |replaced| <= max && |pending| == 2 * max && count > 0
      modifies this`pending
      ensures pending == Cleared(old(pending), key)
      ensures |freed| <= 2 * max - count && forall d | d in replaced :: d in freed
      ensures forall i | 0 <= i < |pending| && Excess(old(pending)[i], key, count) ::
                old(pending)[i].value.digest in freed
    {
      hide Cleared;
      ghost var was := pending;
      ghost var seen: set<int> := {};
      freed := replaced;
      for i := 0 to |pending|
        invariant |pending| == |was|
        invariant forall j | 0 <= j < i :: pending[j] == Cleared(was, key)[j]
        invariant forall j | i <= j < |was| :: pending[j] == was[j]
        invariant forall x | x in seen :: count <= x < max
        invariant forall j | i <= j < |was| && Excess(was[j], key, count) :: was[j].value.index !in seen
        invariant |freed| == |replaced| + |seen|
        invariant forall d | d in replaced :: d in freed
        invariant forall j | 0 <= j < i && Excess(was[j], key, count) :: was[j].value.digest in freed
      {
        var p := pending[i];
        if p.Some? && p.value.key == key {
          Within(seen, count, max);
          if p.value.index >= count && |freed| < 2 * max {
            seen := seen + {p.value.index};
            freed := freed + [p.value.digest];
          }
          pending := pending[i := None];
        }
      }
      Within(seen, count, max);
    }

    /** The counter, brought up to the greatest sequence of any record, and no further. */
    method SyncSeq()
      requires Sizes()
      modifies this`seqNo, this`short, this`calls
      ensures Honest(old(calls), old(short), old(recs))
      ensures seqNo >= old(seqNo) && Synced(recs, old(seqNo), seqNo)
      ensures !short ==> Counted(recs, seqNo)
    {
      hide ResidentMeta, Reached, Registry.Faults, Fits;
      var n, keys := ListRecords();
      for i := 0 to |keys|
        modifies this`seqNo, this`short, this`calls
        invariant Honest(old(calls), old(short), recs)
        invariant !short ==> forall k :: k in keys <==> k in recs
        invariant seqNo >= old(seqNo) && Synced(recs, old(seqNo), seqNo)
        invariant !short ==> forall j | 0 <= j < i && recs[keys[j]].Some? :: recs[keys[j]].value.installSeq <= seqNo
      {
        var m := ReadMeta(keys[i]);
        if m.Some? && m.value.installSeq > seqNo {
          ResidentSeq(residents, keys[i]);
          ReachedBy(recs, keys[i]);
          seqNo := m.value.installSeq;
        }
      }
    }

    /** Whether the record was put, whole or not at all. */
    method PutRecord(key: Key, m: Meta) returns (ok: bool)
      requires stores != []
      modifies this`recs, this`calls
      ensures Answered(old(calls)) && ok == !fails(old(calls))
      ensures recs == if ok then old(recs)[key := Some(m)] else old(recs)
    {
      var failed := Ask();
      ok := !failed;
      if ok {
        recs := recs[key := Some(m)];
      }
    }

    /** What follows once the record is put: its slots are emptied and what it replaced is freed. */
    method Settle(key: Key, m: Meta, replaced: seq<Digest>, ghost before: Records)
      requires Sizes() && ready && stores != [] && recs == before[key := Some(m)] && 0 < |m.layers| <= max
               && |replaced| <= max
      requires PendingOk(pending, max) && ResidentsOk(residents) && PlacesOk(residents, maps)
      requires MapsOk(maps, stores, outstanding) && StageOk() && Addressed(stores, Hash) && !visibleValid
      requires Ordered() && Gathered(pending, key, m.layers)
      requires !short ==> NoLeak(before, pending, maps, stores, {})
      requires !short && key in before && before[key].Some? ==>
                 forall d: Digest | Names(before[key].value, d) :: d in replaced
      modifies this`pending, this`stores, this`short, this`calls
      ensures Valid() && pending == Cleared(old(pending), key)
      ensures Honest(old(calls), old(short), old(recs))
      ensures old(NoDangling(before, pending, stores, residents)) ==> Sound()
    {
      hide MapsOk, NoLeak, NoDangling, Needed, Stored, PlacesOk, ResidentsOk, InOrder, Addressed, Hash, Shows, Waits,
        Freed,
        PendingOk, Gathered, Names, Listed, Cleared, Excess, Registry.Faults, Fits, Counted;
      ghost var was := pending;
      var freed := ClearSlots(key, |m.layers|, replaced);
      ClearedOk(was, key, max);
      if !short {
        CommitSpare(before, was, maps, stores, key, m, max, Set(freed));
      }
      if NoDangling(before, was, stores, residents) {
        CommitSound(before, was, stores, residents, key, m);
      }
      Free(freed);
    }

    /** Makes a record just put the newest, and settles what waited for it and what it replaced. */
    method Promote(key: Key, m: Meta, had: Option<Meta>, ghost before: Records)
      requires Sizes() && ready && stores != [] && recs == before[key := Some(m)] && 0 < |m.layers| <= max
      requires PendingOk(pending, max) && ResidentsOk(residents) && PlacesOk(residents, maps)
      requires MapsOk(maps, stores, outstanding) && StageOk() && Addressed(stores, Hash)
      requires (orderly ==> InOrder(before, log) && Counted(before, seqNo)) && Gathered(pending, key, m.layers)
      requires m.installSeq == (seqNo + 1) % 0x1_0000_0000
      requires !short ==> NoLeak(before, pending, maps, stores, {}) && had == Entry(before, residents, key)
      requires had.Some? ==> |had.value.layers| <= max
      modifies this`pending, this`stores, this`short, this`calls, this`seqNo, this`visibleValid, this`log, this`orderly
      ensures Valid() && pending == Cleared(old(pending), key) && seqNo == m.installSeq
      ensures Honest(old(calls), old(short), old(recs))
      ensures old(NoDangling(before, pending, stores, residents)) ==> Sound()
      ensures log == old(log) + [key] && orderly == (old(orderly) && seqNo != 0) && !visibleValid
    {
      hide Registry.Valid, MapsOk, NoLeak, NoDangling, PlacesOk, InOrder, Addressed, Hash, Gathered, Names, Cleared,
        PendingOk, ResidentsOk, Entry, Digests, Counted, Fits, Registry.Faults;
      orderly := orderly && m.installSeq != 0;
      if orderly {
        CommitInOrder(before, log, seqNo, key, m);
      }
      log := log + [key];
      seqNo := m.installSeq;
      visibleValid := false;
      var replaced := if had.Some? then Digests(had.value.layers) else [];
      if !short {
        ReplacedAll(before, residents, key, had);
      }
      Settle(key, m, replaced, before);
    }

    /** Puts the record of a commit and, once it is put, settles what follows. */
    method Install(key: Key, m: Meta, had: Option<Meta>) returns (ok: bool)
      requires Valid() && ready && stores != [] && 0 < |m.layers| <= max && Gathered(pending, key, m.layers)
      requires m.installSeq == (seqNo + 1) % 0x1_0000_0000
      requires !short ==> had == Entry(recs, residents, key)
      requires had.Some? ==> |had.value.layers| <= max
      modifies this`recs, this`pending, this`stores, this`short, this`calls, this`seqNo, this`visibleValid, this`log,
        this`orderly
      ensures Valid()
      ensures old(Sound()) ==> Sound()
      ensures Honest(old(calls), old(short), old(recs))
      ensures ok == !fails(old(calls)) && (ok || Faults(old(calls)) < Faults(calls))
      ensures !ok ==>
                && recs == old(recs) && pending == old(pending) && stores == old(stores)
                && visibleValid == old(visibleValid) && log == old(log) && orderly == old(orderly)
                && seqNo == old(seqNo)
      ensures ok ==>
                && recs == old(recs)[key := Some(m)] && pending == Cleared(old(pending), key) && seqNo == m.installSeq
                && log == old(log) + [key] && orderly == (old(orderly) && seqNo != 0) && !visibleValid
    {
      hide MapsOk, NoLeak, NoDangling, PlacesOk, InOrder, Addressed, Hash, Shows, Gathered, Cleared, PendingOk,
        ResidentsOk, ResidentOf, Entry, Registry.Faults, Fits, Counted;
      ok := PutRecord(key, m);
      if ok {
        Promote(key, m, had, old(recs));
      }
    }

    method RecordCount() returns (n: int)
      requires Sizes()
      modifies this`short, this`calls
      ensures Honest(old(calls), old(short), old(recs))
      ensures n == -1 || n == |recs|
      ensures n == -1 ==> short
    {
      if stores == [] { return 0; }
      var keys;
      n, keys := ListRecords();
    }

    /** A record of these layers under the next sequence. */
    method Draft(layers: seq<Layer>, size: uint32, now: Option<int64>, created: Option<int64>) returns (m: Meta)
      requires Sizes()
      modifies this`short, this`calls, this`seqNo
      ensures Honest(old(calls), old(short), recs)
      ensures seqNo >= old(seqNo) && Synced(recs, old(seqNo), seqNo) && (!short ==> Counted(recs, seqNo))
      ensures m == Meta(if now.Some? then 0 else CLOCK_UNSET, 0, (seqNo + 1) % 0x1_0000_0000, size,
                        if now.Some? then now.value else 0, if created.Some? then created.value else 0, layers,
                        Unsigned())
    {
      hide Registry.Sizes, Counted, Synced, Registry.Faults, Fits;
      SyncSeq();
      m := Meta(if now.Some? then 0 else CLOCK_UNSET, 0, (seqNo + 1) % 0x1_0000_0000, size,
                if now.Some? then now.value else 0, if created.Some? then created.value else 0, layers, Unsigned());
    }

    /** The record a commit would put, if it may be put at all. */
    method Prepare(key: Key, count: nat, now: Option<int64>, created: Option<int64>)
      returns (rc: Status, m: Meta, had: Option<Meta>)
      requires Valid() && ready
      modifies this`short, this`calls, this`seqNo
      ensures Valid()
      ensures Honest(old(calls), old(short), old(recs))
      ensures seqNo >= old(seqNo) && Synced(recs, old(seqNo), seqNo)
      ensures rc == Done ==>
                && stores != [] && |m.layers| == count && 0 < count <= max && Gathered(pending, key, m.layers)
                && m.size == Total(m.layers)
                && m.installed == (if now.Some? then now.value else 0)
                && m.created == (if created.Some? then created.value else 0)
                && m.installSeq == (seqNo + 1) % 0x1_0000_0000
                && m.flags == (if now.Some? then 0 else CLOCK_UNSET) && m.keyId == 0 && m.signature == Unsigned()
      ensures rc == Done && !short && had.None? ==> |recs| < MAX_ENTRIES
      ensures rc == Done && !short ==> Counted(recs, seqNo)
      ensures !short && rc == Done ==> had == Entry(recs, residents, key)
      ensures had.Some? ==> |had.value.layers| <= max
      ensures Refused(rc, pending, key, count, max)
      ensures rc == NoSpace ==> |recs| >= MAX_ENTRIES
      ensures Smooth(old(calls), old(short), recs) ==>
                && (rc == Done <==> Committable(pending, recs, residents, key, count, max))
                && (rc == NoSpace <==> 0 < count <= max && Fitting(pending, key, count) && rc != Done)
    {
      hide Registry.Valid, Fitting, FirstMissing, Gathered, Total, ResidentOf, Lacks, Entry, ResidentsOk, Synced,
        Unsigned, Registry.Faults, Fits, Counted, Registry.Sizes;
      Known();
      SyncedSame(recs, seqNo);
      m, had := Meta(0, 0, 0, 0, 0, 0, [], seq(64, _ => 0)), None;
      if count == 0 {
        rc := Invalid;
      } else if count > max {
        rc := TooMany;
      } else {
        var layers, size;
        rc, layers, size := Gather(key, count);
        if rc == Done {
          rc, had := Admit(key);
          if rc == Done {
            m := Draft(layers, size, now, created);
            if stores == [] {
              rc := NoDevice;
            }
          }
        }
      }
      StillValid();
    }

    /** The entry a commit replaces; a new one is refused once the records fill a listing. */
    method Admit(key: Key) returns (rc: Status, had: Option<Meta>)
      requires Sizes()
      modifies this`short, this`calls
      ensures Honest(old(calls), old(short), old(recs))
      ensures !short ==> had == Entry(recs, residents, key)
      ensures had.Some? ==> |had.value.layers| <= max
      ensures rc == Done || rc == NoSpace
      ensures rc == NoSpace ==> had.None? && |recs| >= MAX_ENTRIES
      ensures rc == Done && !short && had.None? ==> |recs| < MAX_ENTRIES
      ensures !short ==> (rc == Done <==> Entry(recs, residents, key).Some? || |recs| < MAX_ENTRIES)
    {
      hide ResidentOf, Registry.Faults, Fits, Counted;
      had := ReadMeta(key);
      rc := Done;
      if had.None? {
        var n := RecordCount();
        if n >= MAX_ENTRIES {
          rc := NoSpace;
        }
      }
    }

    /** Installs the waiting layers of an entry as its record. */
    method CommitLocked(key: Key, count: nat, now: Option<int64>, created: Option<int64>) returns (rc: Status)
      requires Valid() && ready
      modifies this`recs, this`pending, this`stores, this`short, this`calls, this`seqNo, this`visibleValid, this`log,
        this`orderly
      ensures Valid()
      ensures old(Sound()) ==> Sound()
      ensures Honest(old(calls), old(short), old(recs))
      ensures rc != Done ==>
                recs == old(recs) && pending == old(pending) && stores == old(stores)
                  && visibleValid == old(visibleValid)
      ensures rc == Done ==>
                && key in recs && recs[key].Some? && recs == old(recs)[key := recs[key]]
                && pending == Cleared(old(pending), key)
                && var m := recs[key].value;
                   && |m.layers| == count && Gathered(old(pending), key, m.layers) && m.size == Total(m.layers)
                   && m.installed == (if now.Some? then now.value else 0)
                   && m.created == (if created.Some? then created.value else 0)
                   && m.installSeq == seqNo
                   && m.flags == (if now.Some? then 0 else CLOCK_UNSET) && m.keyId == 0 && m.signature == Unsigned()
      ensures rc == Done && !short && Entry(old(recs), residents, key).None? ==> |old(recs)| < MAX_ENTRIES
      ensures rc == Done && !short && seqNo > 0 ==>
                forall k | k in recs && k != key && recs[k].Some? ::
                  recs[k].value.installSeq < recs[key].value.installSeq
      ensures Tracks(if rc == Done then Some(key) else None, old(log), old(orderly), old(seqNo), old(recs))
      ensures rc == Done ==> !visibleValid
      ensures rc == NoSpace ==> |recs| >= MAX_ENTRIES
      ensures Refused(rc, old(pending), key, count, max)
      ensures Smooth(old(calls), old(short), old(recs)) ==>
                (rc == Done <==> Committable(old(pending), old(recs), residents, key, count, max))
    {
      hide Registry.Valid, Registry.Sound, Fitting, FirstMissing, Committable, Gathered, Cleared, Total, Lacks,
        ResidentOf, Entry, Synced, Registry.Faults, Fits;
      var m, had;
      rc, m, had := Prepare(key, count, now, created);
      if rc == Done {
        assert Advanced(recs, old(seqNo), (seqNo + 1) % 0x1_0000_0000);
        var ok := Install(key, m, had);
        rc := if ok then Done else StoreError;
      }
    }

    // ---- Staging ----

    /** The open stage changes; blobs and maps do not. */
    method SetStaged(staged: Option<Staged>)
      requires Whole() && stores != []
      modifies this`stores
      ensures SameBlobs(old(stores), stores) && stores == old(stores)[0 := old(stores)[0].(staged := staged)]
      ensures MapsOk(maps, stores, outstanding) && Addressed(stores, Hash) && Cached()
      ensures old(Sound()) == Sound()
      ensures NoLeak(recs, pending, maps, stores, {}) == old(NoLeak(recs, pending, maps, stores, {}))
    {
      hide MapsOk, NoLeak, NoDangling, PlacesOk, InOrder, Addressed, Hash, Shows, PendingOk, ResidentsOk;
      ghost var was := stores;
      stores := stores[0 := stores[0].(staged := staged)];
      SameHolds(was, stores, recs, pending, maps, residents, outstanding, {}, Hash);
      if visibleValid && exact {
        ShowsSound(visible, shown, recs, pending, was, residents);
        StillShows(visible, shown, recs, residents, pending, pending, was, stores);
      }
    }

    /** A stage the registry may be in while the first store holds this open. */
    ghost predicate Staging(now: Stage, staged: Option<Staged>)
      reads this`ready
    {
      match now
      case Idle => staged.None?
      case Open(plain, failed, bytes, _, layer) =>
        && ready && staged.Some? && layer < max && (plain ==> layer == 0)
        && (!failed ==> staged.value == Staged(bytes, false))
    }

    /** The open stage changes, here and in the store. */
    method Restage(now: Stage, staged: Option<Staged>)
      requires Valid() && stores != [] && Staging(now, staged)
      modifies this`stores, this`stage
      ensures Valid() && stage == now && SameBlobs(old(stores), stores) && |stores| == |old(stores)|
      ensures stores[0].staged == staged
      ensures old(Sound()) ==> Sound()
    {
      hide MapsOk, NoLeak, NoDangling, PlacesOk, InOrder, Addressed, Hash, Shows, PendingOk, ResidentsOk, Counted,
        Registry.Cached;
      SetStaged(staged);
      stage := now;
    }

    lemma {:induction false} StageThere()
      requires Valid()
      ensures stage.Open? ==> stores != [] && Staging(stage, stores[0].staged)
    {
      hide NoLeak, PlacesOk, PendingOk, InOrder, Addressed, Hash, Shows, ResidentsOk, MapsOk, Counted;
    }

    /** Ends the open stage without keeping anything. */
    method AbortStage()
      requires Valid() && stage.Open?
      modifies this`stores, this`stage
      ensures Valid() && stage == Idle && SameBlobs(old(stores), stores) && |stores| == |old(stores)|
      ensures old(Sound()) ==> Sound()
    {
      hide Registry.Valid, Registry.Sound, SameBlobs;
      StageThere();
      Restage(Idle, None);
    }

    /** The store takes some of the bytes, and the hash exactly those; the first failure sticks. */
    method StageWriteLocked(buf: seq<byte>) returns (n: int)
      requires Valid() && stage.Open?
      modifies this`stores, this`stage, this`calls
      ensures Valid() && stage.Open? && SameBlobs(old(stores), stores) && Asked(old(calls))
      ensures old(Sound()) ==> Sound()
      ensures old(stage).failed ==> n < 0 && stage == old(stage)
      ensures !old(stage).failed && n < 0 ==> stage == old(stage).(failed := true)
      ensures !old(stage).failed && n >= 0 ==> n <= |buf| && stage == old(stage).(bytes := old(stage).bytes + buf[..n])
      ensures !old(stage).failed ==> n == if fails(old(calls)) then -1 else Least(takes(old(calls)), |buf|)
      ensures !old(stage).failed && n < 0 ==> Faults(old(calls)) < Faults(calls)
    {
      hide Registry.Valid, Registry.Sound, Registry.Faults, Fits, Counted;
      StageThere();
      if stage.failed {
        n := -1;
      } else {
        var taken := takes(calls);
        var failed := Ask();
        if failed {
          n := -1;
          var torn: seq<byte> := *;
          Restage(stage.(failed := true), Some(Staged(torn, true)));
        } else {
          n := Least(taken, |buf|);
          var bytes := stage.bytes + buf[..n];
          Restage(stage.(bytes := bytes), Some(Staged(bytes, false)));
        }
      }
    }

    /** Opens a stage for a layer and takes its first bytes. */
    method StageStart(key: Key, layer: nat, plain: bool, buf: seq<byte>) returns (rc: Status, n: int)
      requires Valid() && stage.Idle? && stores != [] && layer < max && ready && (plain ==> layer == 0)
      modifies this`stores, this`stage, this`calls
      ensures Valid() && SameBlobs(old(stores), stores) && Asked(old(calls))
      ensures old(Sound()) ==> Sound()
      ensures rc == Done ==> 0 <= n <= |buf| && stage == Open(plain, false, buf[..n], key, layer)
      ensures rc != Done ==> stage.Idle?
      ensures rc == if fails(old(calls)) || fails(old(calls) + 1) then StoreError else Done
      ensures rc == Done ==> n == Least(takes(old(calls) + 1), |buf|)
      ensures rc != Done ==> Faults(old(calls)) < Faults(calls)
    {
      hide Registry.Valid, Registry.Sound, Registry.Faults, Fits, Counted;
      var failed := Ask();
      rc, n := StoreError, -1;
      if !failed {
        Restage(Open(plain, false, [], key, layer), Some(Staged([], false)));
        n := StageWriteLocked(buf);
        if n < 0 {
          AbortStage();
        } else {
          rc := Done;
        }
      }
    }

    /** Keeps the stage's bytes under their hash, if the store does. */
    method KeepStage() returns (kept: bool, d: Digest)
      requires Valid() && ready && stage.Open? && !stage.failed
      modifies this`stores, this`stage, this`calls
      ensures Answered(old(calls)) && kept == !fails(old(calls)) && |stores| == |old(stores)|
      ensures Whole() && stage == Idle && d == Hash(old(stage).bytes)
      ensures kept ==> Stored(stores, d) && (!short ==> NoLeak(recs, pending, maps, stores, {d}))
      ensures !kept ==> Valid() && SameBlobs(old(stores), stores)
      ensures old(Sound()) ==> Sound()
    {
      hide MapsOk, NoLeak, NoDangling, PlacesOk, InOrder, Addressed, Shows, PendingOk, ResidentsOk, Sha256.DigestOf,
        Registry.Faults, Fits, Counted;
      var bytes := stage.bytes;
      d := Hash(bytes);
      var failed := Ask();
      kept := !failed;
      if kept {
        ghost var was := stores;
        stores := Kept(stores, d, bytes);
        KeptHolds(was, d, bytes, recs, pending, maps, residents, outstanding, Hash);
        if visibleValid && exact {
          ShowsSound(visible, shown, recs, pending, was, residents);
          StillShows(visible, shown, recs, residents, pending, pending, was, stores);
        }
        stage := Idle;
      } else {
        AbortStage();
      }
    }

    lemma {:induction false} OneSlot(at: nat)
      requires PendingOk(pending, max) && at < |pending| && pending[at].Some?
      ensures forall i | 0 <= i < |pending| && i != at && pending[i].Some? ::
                pending[i].value.key != pending[at].value.key || pending[i].value.index != pending[at].value.index
    {
    }

    /** Keeps the stage's bytes and makes them wait as the layer they are for. */
    method AwaitStage() returns (kept: bool, ghost at: nat)
      requires Valid() && ready && stage.Open? && !stage.failed
      modifies this`stores, this`stage, this`pending, this`order, this`short, this`calls
      ensures Valid() && stage.Idle?
      ensures old(Sound()) ==> Sound()
      ensures Honest(old(calls), old(short), recs) && kept == !fails(old(calls))
      ensures !kept ==> Faults(old(calls)) < Faults(calls)
      ensures !kept ==> pending == old(pending)
      ensures kept ==>
                var d, s := Hash(old(stage).bytes), old(stage);
                && Present(stores, residents, d) && at < |pending|
                && WaitsAs(pending, s.key, s.layer, d, |s.bytes| % 0x1_0000_0000)
                && pending[at].Some? && pending[at].value.key == s.key && pending[at].value.index == s.layer
                && pending[at].value.digest == d
    {
      hide Registry.Valid, Registry.Sound, Hash, Present, WaitsAs, Stored, Waits, NoLeak, SameBlobs, Registry.Faults,
        Fits,
        Resides;
      var s := stage;
      at := 0;
      StageThere();
      var d;
      kept, d := KeepStage();
      if kept {
        StoredHeld(d);
        at := PendingAdd(s.key, s.layer, d, |s.bytes| % 0x1_0000_0000);
      }
    }

    lemma {:induction false} StoredHeld(d: Digest)
      requires Stored(stores, d)
      ensures Present(stores, residents, d)
    {
    }

    /** Ends a stage: its bytes wait under their hash, and on the plain route are committed. */
    method StageFinishLocked(now: Option<int64>) returns (rc: Status)
      requires Valid() && ready && stage.Open?
      modifies this`stores, this`stage, this`pending, this`order, this`short, this`calls, this`recs, this`seqNo,
        this`visibleValid, this`log, this`orderly
      ensures Valid() && stage.Idle?
      ensures old(Sound()) ==> Sound()
      ensures Honest(old(calls), old(short), old(recs)) && (visibleValid ==> old(visibleValid))
      ensures old(stage).failed || old(stage).bytes == [] ==>
                rc != Done && SameBlobs(old(stores), stores) && pending == old(pending)
      ensures rc == Done ==>
                var d, s := Hash(old(stage).bytes), old(stage);
                if s.plain then s.key in recs && recs[s.key].Some? && Digests(recs[s.key].value.layers) == [d]
                else WaitsAs(pending, s.key, s.layer, d, |s.bytes| % 0x1_0000_0000) && Present(stores, residents, d)
      ensures rc != Done || !old(stage).plain ==> recs == old(recs) && visibleValid == old(visibleValid)
      ensures Tracks(if rc == Done && old(stage).plain then Some(old(stage).key) else None, old(log), old(orderly),
                     old(seqNo), old(recs))
      ensures old(stage).failed ==> rc == StoreError
      ensures !old(stage).failed && old(stage).bytes == [] ==> rc == Invalid
      ensures !old(stage).failed && old(stage).bytes != [] && !old(stage).plain ==>
                rc == if fails(old(calls)) then StoreError else Done
      ensures !old(stage).failed && !old(stage).plain && rc == StoreError ==> Faults(old(calls)) < Faults(calls)
      ensures !old(stage).failed && old(stage).bytes != [] && old(stage).plain
              && Smooth(old(calls), old(short), old(recs)) ==>
                (rc == Done <==> Entry(old(recs), residents, old(stage).key).Some? || |old(recs)| < MAX_ENTRIES)
    {
      hide Committable, Entry, Registry.Valid, Registry.Sound, Hash, Present, WaitsAs, SameBlobs, Registry.Faults,
        Fits, Cleared, Gathered, Total, Advanced, Digests, Reached;
      var s := stage;
      StageThere();
      rc := if s.failed then StoreError else Invalid;
      if s.failed || s.bytes == [] {
        AbortStage();
      } else {
        var kept;
        ghost var at;
        kept, at := AwaitStage();
        rc := if kept then Done else StoreError;
        if kept && s.plain {
          ghost var waiting := pending;
          Slotted();
          OneSlot(at);
          OneFitting(waiting, at, s.key, recs, residents, max);
          rc := CommitLocked(s.key, 1, now, None);
          if rc == Done {
            PlainLayer(waiting, at, s.key, recs[s.key].value, Hash(s.bytes));
          }
        }
      }
    }

    lemma {:induction false} Slotted()
      requires Valid()
      ensures PendingOk(pending, max)
    {
      hide NoLeak, PlacesOk, PendingOk, InOrder, Addressed, Hash, Shows, ResidentsOk, MapsOk, Counted;
    }

    // ---- Resolving ----

    /** Finds the entry a key names; one with no version takes the newest entry of that name. */
    method Resolve(want: Key) returns (found: bool, key: Key, m: Meta, ghost keys: seq<Key>)
      requires Sizes() && ResidentsOk(residents)
      modifies this`short, this`calls
      ensures Honest(old(calls), old(short), old(recs))
      ensures found ==> FromEntry(recs, residents, key, m) && key.name == want.name
      ensures !short && want.version != "" ==> found == Entry(recs, residents, want).Some? && key == want
      ensures !short && found ==> Entry(recs, residents, key) == Some(m)
      ensures !short ==> (found <==> Findable(want, recs, residents))
      ensures !short && found ==> IsFound(want, key, keys, recs, residents)
      ensures !short && want.version == "" ==>
                && Listing(keys, recs, residents)
                && (found ==> IsNewest(keys, recs, residents, want.name, key))
                && (!found ==> forall k | k in keys && k.name == want.name :: Entry(recs, residents, k).None?)
    {
      hide ResidentsOk, Findable, IsFound, Sorted, Distinct, Before, Entry, FromEntry, Listing, IsNewest,
        ResidentMeta, Registry.Faults, Fits, Counted;
      found, key, m, keys := false, want, Meta(0, 0, 0, 0, 0, 0, [], seq(64, _ => 0)), [];
      if want.version != "" {
        var got := ReadMeta(want);
        ReadFrom(want, got);
        if got.Some? {
          found, m := true, got.value;
        }
        ExactIff(want);
      } else {
        var n, list := ListKeys();
        keys := list;
        if n >= 0 {
          found, key, m := Newest(list, want);
          if !short {
            FoundIff(want, found, key, keys);
          }
        }
      }
    }

    lemma {:induction false} ExactIff(want: Key)
      requires want.version != ""
      ensures Findable(want, recs, residents) <==> Entry(recs, residents, want).Some?
      ensures forall keys :: IsFound(want, want, keys, recs, residents)
    {
      hide Entry;
    }

    lemma {:induction false} FoundIff(want: Key, found: bool, key: Key, keys: seq<Key>)
      requires want.version == "" && Listing(keys, recs, residents)
      requires found ==> IsNewest(keys, recs, residents, want.name, key)
      requires !found ==> forall k | k in keys && k.name == want.name :: Entry(recs, residents, k).None?
      ensures found <==> Findable(want, recs, residents)
      ensures found ==> IsFound(want, key, keys, recs, residents)
    {
      hide Entry, Listing;
      forall k | Entry(recs, residents, k).Some? ensures k in keys {
        EntryListed(keys, recs, residents, k);
      }
    }

    lemma {:induction false} ReadFrom(key: Key, got: Option<Meta>)
      requires got.Some? ==> (key in recs && got == recs[key])
                             || (ResidentOf(residents, key).Some?
                             && got.value == ResidentMeta(ResidentOf(residents, key).value))
      ensures got.Some? ==> FromEntry(recs, residents, key, got.value)
    {
    }

    /** Scans a sorted listing for the newest entry of a name. */
    method Newest(keys: seq<Key>, want: Key) returns (found: bool, key: Key, m: Meta)
      requires Sizes() && Sorted(keys) && Distinct(keys)
      modifies this`short, this`calls
      ensures Honest(old(calls), old(short), old(recs))
      ensures found ==> FromEntry(recs, residents, key, m) && key.name == want.name
      ensures !short && found ==>
                Entry(recs, residents, key) == Some(m) && IsNewest(keys, recs, residents, want.name, key)
      ensures !short && !found ==> forall k | k in keys && k.name == want.name :: Entry(recs, residents, k).None?
    {
      hide Sorted, Distinct, Before, Entry, FromEntry, ResidentMeta, Registry.Faults, Fits, Counted;
      found, key, m := false, want, Meta(0, 0, 0, 0, 0, 0, [], seq(64, _ => 0));
      for i := 0 to |keys|
        invariant Honest(old(calls), old(short), recs)
        invariant found ==> FromEntry(recs, residents, key, m) && key.name == want.name
        invariant !short && found ==>
                    Entry(recs, residents, key) == Some(m) && IsNewest(keys[..i], recs, residents, want.name, key)
        invariant !short && !found ==>
                    forall k | k in keys[..i] && k.name == want.name :: Entry(recs, residents, k).None?
      {
        assert keys[..i + 1] == keys[..i] + [keys[i]];
        if keys[i].name == want.name {
          var got := ReadMeta(keys[i]);
          ReadFrom(keys[i], got);
          if !short && found {
            SortedAfter(keys, i, key);
          }
          if got.Some? && (!found || got.value.installSeq > m.installSeq) {
            found, key, m := true, keys[i], got.value;
          }
        }
      }
      assert keys[..|keys|] == keys;
    }

    // ---- Removing and signing ----

    method DeleteRecord(key: Key) returns (ok: bool)
      modifies this`recs, this`calls
      ensures Answered(old(calls)) && ok == (!fails(old(calls)) && key in old(recs))
      ensures ok ==> key in old(recs) && recs == old(recs) - {key}
      ensures !ok ==> recs == old(recs)
    {
      var failed := Ask();
      ok := !failed && key in recs;
      if ok {
        recs := recs - {key};
      }
    }

    /** Removes the entry a key names and frees the blobs only it needed; a seeded entry stays. */
    method Remove(want: Key) returns (rc: Status, ghost key: Key, ghost keys: seq<Key>)
      requires Valid() && ready
      modifies this`recs, this`stores, this`short, this`calls, this`visibleValid
      ensures Valid()
      ensures old(Sound()) ==> Sound()
      ensures Honest(old(calls), old(short), old(recs))
      ensures rc != Done ==> recs == old(recs) && stores == old(stores) && visibleValid == old(visibleValid)
      ensures rc == Done ==> key in old(recs) && key.name == want.name && recs == old(recs) - {key} && !visibleValid
      ensures !short && (rc == Done || rc == Denied) ==>
                && IsFound(want, key, keys, old(recs), residents)
                && Entry(old(recs), residents, key).Some?
                && (rc == Denied <==> Entry(old(recs), residents, key).value.flags % 2 == 1)
      ensures Smooth(old(calls), old(short), old(recs)) ==>
                if !Findable(want, old(recs), residents) then rc == NotFound
                else
                  && IsFound(want, key, keys, old(recs), residents) && Entry(old(recs), residents, key).Some?
                  && rc == if Entry(old(recs), residents, key).value.flags % 2 == 1 then Denied else Done
    {
      hide Registry.Valid, Findable, IsFound, Registry.Sizes, ResidentOf, Listing, IsNewest, FromEntry, Entry,
        Registry.Faults, Fits, Counted;
      Known();
      rc, key, keys := NoDevice, want, [];
      if stores != [] {
        var found, k, m;
        found, k, m, keys := Resolve(want);
        key := k;
        StillValid();
        if !found {
          rc := NotFound;
        } else if m.flags % 2 == 1 {
          rc := Denied;
        } else {
          if !short {
            Unseeded(k, m);
          }
          rc := RemoveEntry(k, m);
        }
      }
    }

    /** An image only the firmware has counts as seeded. */
    lemma {:induction false} Unseeded(key: Key, m: Meta)
      requires Entry(recs, residents, key) == Some(m) && m.flags % 2 == 0
      ensures key in recs
    {
      hide ResidentOf;
    }

    method RemoveEntry(key: Key, m: Meta) returns (rc: Status)
      requires Valid() && ready && stores != [] && (!short ==> Entry(recs, residents, key) == Some(m))
      modifies this`recs, this`stores, this`short, this`calls, this`visibleValid
      ensures Valid()
      ensures old(Sound()) ==> Sound()
      ensures Honest(old(calls), old(short), old(recs))
      ensures rc == if key in old(recs) && !fails(old(calls)) then Done else StoreError
      ensures rc == StoreError && key in old(recs) ==> Faults(old(calls)) < Faults(calls)
      ensures rc == Done ==> key in old(recs) && recs == old(recs) - {key} && !visibleValid
      ensures rc != Done ==> recs == old(recs) && stores == old(stores) && visibleValid == old(visibleValid)
    {
      hide MapsOk, NoLeak, NoDangling, PlacesOk, Addressed, Hash, Shows, PendingOk, ResidentsOk, Names, Freed, InOrder,
        ResidentOf, Registry.Faults, Fits, Counted;
      var ok := DeleteRecord(key);
      if ok {
        visibleValid := false;
        AllNamed(m);
        RemovedHolds(old(recs), key, pending, maps, stores, residents, Set(Digests(m.layers)));
        RemovedInOrder(old(recs), log, seqNo, key);
        Free(Digests(m.layers));
        rc := Done;
      } else {
        rc := StoreError;
      }
    }

    /** The ref has a resident image and no installed entry. */
    method ResidentOnly(key: Key) returns (b: bool)
      requires Sizes()
      modifies this`short, this`calls
      ensures Honest(old(calls), old(short), old(recs))
      ensures !short ==> b == (ResidentOf(residents, key).Some? && key !in recs)
    {
      var r := ResidentFind(key);
      if r.None? { return false; }
      var got := GetRecord(key);
      b := !got.Found?;
    }

    /** Puts a record back with the same layers under the same sequence. */
    method Rewrite(key: Key, ghost m: Meta, now: Meta) returns (ok: bool)
      requires Valid() && ready && stores != [] && FromEntry(recs, residents, key, m)
      requires !short ==> key in recs && recs[key] == Some(m)
      requires now.layers == m.layers && now.installSeq == m.installSeq
      modifies this`recs, this`calls, this`exact, this`orderly
      ensures Valid() && Answered(old(calls)) && ok == !fails(old(calls))
      ensures old(Sound()) ==> Sound()
      ensures recs == if ok then old(recs)[key := Some(now)] else old(recs)
      ensures !short ==> exact == old(exact) && orderly == old(orderly)
    {
      hide MapsOk, NoLeak, NoDangling, PlacesOk, Addressed, Hash, PendingOk, ResidentsOk, Shows, ResidentOf,
        ResidentMeta, InOrder, Counted, Registry.StageOk, Registry.Quiet, Registry.Faults, Fits;
      RewriteFits(key, m);
      ok := PutRecord(key, now);
      if ok {
        ghost var was := old(recs);
        if key in was && was[key] == Some(m) {
          RewrittenHolds(was, key, now, pending, maps, stores, residents, visible, shown);
          RewrittenInOrder(was, log, seqNo, key, now);
        } else {
          ResidentNames(key, m, now);
          ResidentHolds(was, key, now, pending, stores, residents);
          exact, orderly := false, false;
        }
      }
    }

    lemma {:induction false} RewriteFits(key: Key, m: Meta)
      requires Sizes() && FromEntry(recs, residents, key, m)
      ensures |m.layers| <= max
    {
    }

    lemma {:induction false} ResidentNames(key: Key, m: Meta, now: Meta)
      requires now.layers == m.layers && ResidentOf(residents, key).Some?
               && m == ResidentMeta(ResidentOf(residents, key).value)
      ensures forall d: Digest | Names(now, d) :: Resides(residents, d)
    {
      ResidentOfIs(residents, key);
    }

    /** Signs the installed entry a key names. */
    method SetSignature(want: Key, keyId: uint32, sig: Signature) returns (rc: Status, ghost key: Key,
                        ghost keys: seq<Key>)
      requires Valid() && ready
      modifies this`recs, this`short, this`calls, this`exact, this`orderly
      ensures Valid()
      ensures old(Sound()) ==> Sound()
      ensures Honest(old(calls), old(short), old(recs))
      ensures !short && rc == Done ==>
                && IsFound(want, key, keys, old(recs), residents) && key in old(recs) && old(recs)[key].Some?
                && var m := old(recs)[key].value;
                   recs == old(recs)[key := Some(m.(keyId := keyId, signature := sig, flags := Flagged(m.flags, 2)))]
      ensures !short && rc == Denied ==> IsFound(want, key, keys, old(recs), residents) && key !in recs
      ensures rc != Done ==> recs == old(recs)
      ensures Smooth(old(calls), old(short), old(recs)) ==>
                if !Findable(want, old(recs), residents) then rc == NotFound
                else
                  && IsFound(want, key, keys, old(recs), residents)
                  && rc == if key in old(recs) then Done else Denied
      ensures !short ==> exact == old(exact) && orderly == old(orderly)
    {
      hide Registry.Valid, Findable, IsFound, Registry.Sizes, ResidentOf, Listing, IsNewest, FromEntry, Flagged,
        Entry, Fits, Registry.Faults, Counted;
      Known();
      var found, k, m;
      found, k, m, keys := Resolve(want);
      key := k;
      rc := NotFound;
      if found {
        var resident := ResidentOnly(k);
        if !short {
          Installed(k, m, resident);
        }
        if resident {
          rc := Denied;
        } else if stores == [] {
          rc := NoDevice;
        } else {
          StillValid();
          var ok := Rewrite(k, m, m.(keyId := keyId, signature := sig, flags := Flagged(m.flags, 2)));
          rc := if ok then Done else StoreError;
          return;
        }
      }
      StillValid();
    }

    lemma {:induction false} Installed(key: Key, m: Meta, resident: bool)
      requires Entry(recs, residents, key) == Some(m) && resident == (ResidentOf(residents, key).Some? && key !in recs)
      ensures !resident ==> key in recs && recs[key] == Some(m)
    {
    }

    /** Marks the installed entry a key names as carried by the firmware. */
    method MarkSeeded(want: Key) returns (ghost key: Key, ghost keys: seq<Key>)
      requires Valid() && ready
      modifies this`recs, this`short, this`calls, this`exact, this`orderly
      ensures Valid()
      ensures old(Sound()) ==> Sound()
      ensures Honest(old(calls), old(short), old(recs))
      ensures Smooth(old(calls), old(short), old(recs)) ==>
                if !Findable(want, old(recs), residents) then recs == old(recs)
                else
                  && IsFound(want, key, keys, old(recs), residents) && Entry(old(recs), residents, key).Some?
                  && var m := Entry(old(recs), residents, key).value;
                     recs == if key in old(recs) && m.flags % 2 == 0
                             then old(recs)[key := Some(m.(flags := Flagged(m.flags, 1)))] else old(recs)
      ensures recs != old(recs) && !short ==>
                && IsFound(want, key, keys, old(recs), residents) && key in old(recs) && old(recs)[key].Some?
                && old(recs)[key].value.flags % 2 == 0
                && var m := old(recs)[key].value; recs == old(recs)[key := Some(m.(flags := Flagged(m.flags, 1)))]
      ensures !short ==> exact == old(exact) && orderly == old(orderly)
    {
      hide Registry.Valid, Findable, IsFound, Registry.Sizes, ResidentOf, Listing, IsNewest, FromEntry, Flagged,
        Entry, Fits, Registry.Faults, Counted;
      Known();
      var found, k, m;
      found, k, m, keys := Resolve(want);
      key := k;
      if found {
        var resident := ResidentOnly(k);
        if !short {
          Installed(k, m, resident);
        }
        if !resident && m.flags % 2 == 0 && stores != [] {
          StillValid();
          var ok := Rewrite(k, m, m.(flags := Flagged(m.flags, 1)));
          return;
        }
      }
      StillValid();
    }

    // ---- Mapping ----

    method StoreHolding(d: Digest) returns (s: int)
      ensures -1 <= s < |stores|
      ensures s >= 0 ==> d in stores[s].blobs
      ensures s < 0 <==> !Stored(stores, d)
    {
      for i := 0 to |stores|
        invariant forall j | 0 <= j < i :: d !in stores[j].blobs
      {
        if d in stores[i].blobs {
          return i;
        }
      }
      s := -1;
    }

    method MapSlotOf(d: Digest) returns (k: int)
      ensures -1 <= k < |maps|
      ensures k >= 0 ==> maps[k].Some? && maps[k].value.digest == d
      ensures k < 0 <==> !Mapped(maps, d)
    {
      for i := 0 to |maps|
        invariant forall j | 0 <= j < i :: !(maps[j].Some? && maps[j].value.digest == d)
      {
        if maps[i].Some? && maps[i].value.digest == d {
          return i;
        }
      }
      k := -1;
    }

    method FreeMapSlot() returns (k: int)
      ensures -1 <= k < |maps|
      ensures k >= 0 ==> maps[k].None?
      ensures k < 0 <==> Full(maps)
    {
      for i := 0 to |maps|
        invariant forall j | 0 <= j < i :: maps[j].Some?
      {
        if maps[i].None? {
          return i;
        }
      }
      k := -1;
    }

    /** Gives a free slot to a blob nothing maps yet. */
    method TakeSlot(k: nat, m: Mapping)
      requires Valid() && ready && k < |maps| && maps[k].None? && !Mapped(maps, m.digest) && m.users == 1
               && MappingOk(m, stores)
      requires m.ptr.InFirmware? ==>
                 exists i | 0 <= i < |residents| ::
                   residents[i].Some? && residents[i].value.addr == m.ptr.addr && residents[i].value.digest == m.digest
      modifies this`maps, this`stores, this`outstanding
      ensures Valid() && At(maps, m.digest, m.ptr) && Long(maps, m.ptr, m.length)
              && outstanding == old(outstanding) + multiset{m.digest}
      ensures SameContents(old(stores), stores)
      ensures old(Sound()) ==> Sound()
      ensures StillMapped(old(maps), maps) && OneMore(old(maps), maps, m.digest)
    {
      hide OneMore, MapsOk, NoLeak, NoDangling, PendingOk, ResidentsOk, InOrder, Addressed, Hash, Shows, Mapped, At,
        Long, TakesSlot, SameContents, PlacesOk, Registry.Ordered;
      ghost var was, slots := stores, maps;
      NewPlace(m);
      stores := WithMap(stores, m);
      maps := maps[k := Some(m)];
      outstanding := outstanding + multiset{m.digest};
      TakesIt(slots, k, m, was, stores);
      SlotTaken(slots, k, m, was, stores, old(outstanding));
      SlotMapped(slots, k, Some(m));
      SlotMore(slots, k, m);
      PlacesTaken(slots, k, m);
      SameThere(was, stores);
      SameNeeds(was, stores, recs, pending, maps, residents, {}, Hash);
      NeedsMapped(recs, pending, was, slots, maps, {});
      if visibleValid && exact {
        ShowsSound(visible, shown, recs, pending, was, residents);
        StillShows(visible, shown, recs, residents, pending, pending, was, stores);
      }
    }

    lemma {:induction false} TakesIt(slots: Slots<Mapping>, k: nat, m: Mapping, was: seq<Depot>, now: seq<Depot>)
      requires k < |slots| && slots[k].None? && !Mapped(slots, m.digest) && m.users == 1 && MappingOk(m, was)
      requires forall j | 0 <= j < |slots| && slots[j].Some? :: slots[j].value.ptr != m.ptr
      requires now == WithMap(was, m)
      ensures TakesSlot(slots, k, m, was, now)
    {
    }

    /** No slot is at the place of a blob nothing maps. */
    lemma {:induction false} NewPlace(m: Mapping)
      requires MapsOk(maps, stores, outstanding) && PlacesOk(residents, maps) && !Mapped(maps, m.digest)
               && MappingOk(m, stores)
      requires m.ptr.InFirmware? ==>
                 exists i | 0 <= i < |residents| ::
                   residents[i].Some? && residents[i].value.addr == m.ptr.addr && residents[i].value.digest == m.digest
      ensures forall j | 0 <= j < |maps| && maps[j].Some? :: maps[j].value.ptr != m.ptr
    {
      OtherDigests(maps, m.digest);
    }

    lemma {:induction false} PlacesTaken(slots: Slots<Mapping>, k: nat, m: Mapping)
      requires PlacesOk(residents, slots) && k < |slots|
      requires m.ptr.InFirmware? ==>
                 exists i | 0 <= i < |residents| ::
                   residents[i].Some? && residents[i].value.addr == m.ptr.addr && residents[i].value.digest == m.digest
      ensures PlacesOk(residents, slots[k := Some(m)])
    {
    }

    lemma {:induction false} SameThere(a: seq<Depot>, b: seq<Depot>)
      requires SameContents(a, b)
      ensures |a| == |b| && (a != [] ==> a[0].staged == b[0].staged)
    {
    }

    /** One more user of a mapped blob, or a map of it. */
    method MapBlob(d: Digest) returns (rc: Status, ptr: Ptr, length: nat)
      requires Valid() && ready
      modifies this`maps, this`stores, this`outstanding, this`calls
      ensures Valid() && Asked(old(calls))
      ensures old(Sound()) ==> Sound()
      ensures rc == Done ==>
                At(maps, d, ptr) && Long(maps, ptr, length) && outstanding == old(outstanding) + multiset{d}
      ensures rc != Done ==> maps == old(maps) && stores == old(stores) && outstanding == old(outstanding)
      ensures rc == (if Mapped(old(maps), d) then Done
                     else if !Present(old(stores), residents, d) then NotFound
                     else if Full(old(maps)) then NoMemory
                     else if !Resides(residents, d) && fails(old(calls)) then StoreError
                     else Done)
      ensures Faults(calls) == Faults(old(calls)) + if rc == StoreError then 1 else 0
      ensures rc == Done ==> OneMore(old(maps), maps, d)
      ensures SameContents(old(stores), stores)
      ensures StillMapped(old(maps), maps)
    {
      hide Full, OneMore, Registry.Valid, Mapped, At, Long, Resides, Stored, Registry.Faults, Fits, Counted;
      ptr, length := InFirmware(0), 0;
      var r := ResidentByDigest(d);
      var k := MapSlotOf(d);
      if k >= 0 {
        ptr, length := maps[k].value.ptr, maps[k].value.length;
        AddUser(k);
        return Done, ptr, length;
      }
      var free := FreeMapSlot();
      if r.Some? {
        if free < 0 { return NoMemory, ptr, length; }
        ptr, length := InFirmware(r.value.addr), r.value.length;
        TakeSlot(free, Mapping(d, ptr, length, None, 1));
        return Done, ptr, length;
      }
      var s := StoreHolding(d);
      if s < 0 { return NotFound, ptr, length; }
      if free < 0 { return NoMemory, ptr, length; }
      var failed := Ask();
      if failed { return StoreError, ptr, length; }
      ptr, length := InStore(s, d), |stores[s].blobs[d]|;
      TakeSlot(free, Mapping(d, ptr, length, Some(s), 1));
      rc := Done;
    }

    method AddUser(k: nat)
      requires Valid() && k < |maps| && maps[k].Some?
      modifies this`maps, this`outstanding
      ensures Valid() && At(maps, old(maps)[k].value.digest, old(maps)[k].value.ptr)
              && Long(maps, old(maps)[k].value.ptr, old(maps)[k].value.length)
      ensures outstanding == old(outstanding) + multiset{old(maps)[k].value.digest}
      ensures old(Sound()) ==> Sound()
      ensures StillMapped(old(maps), maps) && OneMore(old(maps), maps, old(maps)[k].value.digest)
    {
      hide NoLeak, NoDangling, PendingOk, ResidentsOk, InOrder, Addressed, Hash, Shows, Mapped, At, Long, MapsBalance,
        MapsApart, MappingOk, OneMore;
      ghost var slots := maps;
      var m := maps[k].value;
      ghost var now := outstanding + multiset{m.digest};
      assert now == outstanding[m.digest := m.users + 1];
      UsersChange(maps, k, m.users + 1, stores, outstanding, now);
      SlotMapped(maps, k, Some(m.(users := m.users + 1)));
      SlotMore(maps, k, m.(users := m.users + 1));
      maps := maps[k := Some(m.(users := m.users + 1))];
      outstanding := now;
      NeedsMapped(recs, pending, stores, slots, maps, {});
    }

    method SlotAt(ptr: Ptr) returns (k: int)
      ensures -1 <= k < |maps|
      ensures k >= 0 ==> maps[k].Some? && maps[k].value.ptr == ptr
      ensures k < 0 <==> forall d: Digest :: !At(maps, d, ptr)
    {
      for i := 0 to |maps|
        invariant forall j | 0 <= j < i :: !(maps[j].Some? && maps[j].value.ptr == ptr)
      {
        if maps[i].Some? && maps[i].value.ptr == ptr {
          assert At(maps, maps[i].value.digest, ptr);
          return i;
        }
      }
      k := -1;
    }

    lemma {:induction false} OnePlace(k: nat, d: Digest)
      requires MapsApart(maps) && k < |maps| && maps[k].Some? && At(maps, d, maps[k].value.ptr)
      ensures d == maps[k].value.digest
    {
    }

    /** One user fewer of the blob at a place; the last one unmaps it, and it is freed if nothing else needs it. */
    method UnmapPtr(ptr: Ptr)
      requires Valid()
      modifies this`maps, this`stores, this`outstanding, this`short, this`calls
      ensures Valid()
      ensures old(Sound()) ==> Sound()
      ensures Honest(old(calls), old(short), old(recs))
      ensures (forall d: Digest :: !At(old(maps), d, ptr)) ==>
                maps == old(maps) && stores == old(stores) && outstanding == old(outstanding)
      ensures forall d: Digest | At(old(maps), d, ptr) :: outstanding == old(outstanding) - multiset{d}
      ensures OneFewer(old(maps), ptr, old(outstanding), outstanding)
      ensures Stays(old(maps), maps, outstanding)
    {
      hide Registry.Valid, At, Registry.Faults, Fits, Counted;
      var k := SlotAt(ptr);
      NoMapsYet();
      if k >= 0 {
        if maps[k].value.users > 1 {
          LoseUser(k);
        } else {
          LeaveSlot(k);
        }
      }
    }

    method LoseUser(k: nat)
      requires Valid() && k < |maps| && maps[k].Some? && maps[k].value.users > 1
      modifies this`maps, this`outstanding
      ensures Valid()
      ensures old(Sound()) ==> Sound()
      ensures forall d: Digest | At(old(maps), d, old(maps)[k].value.ptr) ::
                outstanding == old(outstanding) - multiset{d}
      ensures forall e: Digest, p: Ptr | At(old(maps), e, p) :: At(maps, e, p)
    {
      hide NoLeak, NoDangling, PendingOk, ResidentsOk, InOrder, Addressed, Hash, Shows, Mapped, At, MapsBalance,
        MapsApart, MappingOk;
      ghost var slots := maps;
      var m := maps[k].value;
      forall d: Digest | At(maps, d, m.ptr) ensures d == m.digest {
        OnePlace(k, d);
      }
      ghost var now := outstanding - multiset{m.digest};
      assert now == outstanding[m.digest := m.users - 1];
      UsersChange(maps, k, m.users - 1, stores, outstanding, now);
      maps := maps[k := Some(m.(users := m.users - 1))];
      outstanding := now;
      NeedsMapped(recs, pending, stores, slots, maps, {});
    }

    method LeaveSlot(k: nat)
      requires Valid() && ready && k < |maps| && maps[k].Some? && maps[k].value.users <= 1
      modifies this`maps, this`stores, this`outstanding, this`short, this`calls
      ensures Valid()
      ensures old(Sound()) ==> Sound()
      ensures Honest(old(calls), old(short), old(recs))
      ensures forall d: Digest | At(old(maps), d, old(maps)[k].value.ptr) ::
                outstanding == old(outstanding) - multiset{d}
      ensures Stays(old(maps), maps, outstanding)
    {
      hide NoLeak, At, Stays, Registry.Whole, Registry.Sound, Freed, Registry.Faults, Fits, Counted;
      var d := Vacate(k);
      assert Set([d]) == {d};
      Free([d]);
    }

    /** Empties the slot of a last user, so its blob may be spare. */
    method Vacate(k: nat) returns (d: Digest)
      requires Valid() && ready && k < |maps| && maps[k].Some? && maps[k].value.users <= 1
      modifies this`maps, this`stores, this`outstanding
      ensures Whole() && (!short ==> NoLeak(recs, pending, maps, stores, {d}))
      ensures old(Sound()) ==> Sound()
      ensures forall d: Digest | At(old(maps), d, old(maps)[k].value.ptr) ::
                outstanding == old(outstanding) - multiset{d}
      ensures Stays(old(maps), maps, outstanding)
    {
      hide NoLeak, NoDangling, PendingOk, ResidentsOk, InOrder, Addressed, Hash, Shows, Mapped, At, MapsBalance,
        MapsApart, MappingOk,
        SameContents, Unmapped;
      ghost var slots, was := maps, stores;
      var m := maps[k].value;
      d := m.digest;
      forall d: Digest | At(maps, d, m.ptr) ensures d == m.digest {
        OnePlace(k, d);
      }
      ghost var now := outstanding - multiset{m.digest};
      assert now == outstanding[m.digest := 0];
      SlotLeft(maps, k, stores, outstanding, now);
      InStoreRange(m);
      stores := Unmapped(stores, m);
      maps := maps[k := None];
      outstanding := now;
      SameThere(was, stores);
      SameNeeds(was, stores, recs, pending, maps, residents, {m.digest}, Hash);
      NeedsMapped(recs, pending, was, slots, maps, {m.digest});
      if visibleValid && exact {
        ShowsSound(visible, shown, recs, pending, was, residents);
        StillShows(visible, shown, recs, residents, pending, pending, was, stores);
      }
    }

    lemma {:induction false} InStoreRange(m: Mapping)
      requires MappingOk(m, stores)
      ensures m.store.Some? ==> m.store.value < |stores|
    {
    }

    lemma {:induction false} NoMapsYet()
      requires Valid()
      ensures ready || forall i | 0 <= i < |maps| :: maps[i].None?
    {
      hide NoLeak, PendingOk, ResidentsOk, InOrder, Addressed, Hash, Shows, MapsOk, PlacesOk;
    }

    /** Returns layers: each place loses one user, and `ds` are the digests there. */
    method UnmapLayers(ptrs: seq<Ptr>, ghost ds: seq<Digest>)
      requires Valid() && |ds| == |ptrs| && multiset(ds) <= outstanding
      requires forall i | 0 <= i < |ptrs| :: At(maps, ds[i], ptrs[i])
      modifies this`maps, this`stores, this`outstanding, this`short, this`calls
      ensures Valid()
      ensures old(Sound()) ==> Sound()
      ensures Honest(old(calls), old(short), old(recs))
      ensures outstanding == old(outstanding) - multiset(ds)
      ensures Stays(old(maps), maps, outstanding)
    {
      hide Registry.Valid, At, Registry.Sound, Stays, With, Registry.Faults, Fits, Counted;
      ghost var base := outstanding - multiset(ds);
      WithAll(base, ds, outstanding);
      StaysSame(maps, outstanding);
      for i := 0 to |ptrs|
        invariant Valid() && (old(Sound()) ==> Sound()) && Honest(old(calls), old(short), recs)
        invariant outstanding == With(base, ds, i, |ds|)
        invariant Stays(old(maps), maps, outstanding)
      {
        ghost var slots, had := maps, outstanding;
        WithFewer(base, ds, i);
        StaysAt(old(maps), maps, outstanding, ds[i], ptrs[i]);
        UnmapPtr(ptrs[i]);
        StaysOn(old(maps), slots, maps, had, outstanding);
      }
      WithNone(base, ds, |ds|);
    }

    /** Maps an entry's layers, topmost first; one that fails part way gives back what it had mapped. */
    method MapLayers(want: Key) returns (rc: Status, ptrs: seq<Ptr>, lens: seq<nat>, key: Key, m: Meta,
                     ghost keys: seq<Key>)
      requires Valid() && ready
      modifies this`maps, this`stores, this`outstanding, this`short, this`calls
      ensures Valid()
      ensures old(Sound()) ==> Sound()
      ensures Honest(old(calls), old(short), old(recs))
      ensures rc == Done ==>
                && TopDown(maps, m.layers, ptrs, lens) && outstanding == old(outstanding) + multiset(Digests(m.layers))
      ensures rc == Done && !short ==>
                Entry(recs, residents, key) == Some(m) && IsFound(want, key, keys, recs, residents)
      ensures rc != Done ==> outstanding == old(outstanding)
      ensures Smooth(old(calls), old(short), old(recs)) ==>
                if !Findable(want, recs, residents) then rc == NotFound
                else
                  && Entry(recs, residents, key) == Some(m) && IsFound(want, key, keys, recs, residents)
                  && (rc == Done <==> Loadable(old(maps), old(stores), residents, Turned(m.layers)))
    {
      hide Findable, Loadable, Turned, Registry.Valid, At, Long, Registry.Sound, Entry, Listing, IsNewest, FromEntry,
        ResidentOf, TopDown, Registry.Faults, Fits, Counted;
      Known();
      var found;
      found, key, m, keys := Resolve(want);
      StillValid();
      ptrs, lens := [], [];
      rc := NotFound;
      if found {
        rc, ptrs, lens := MapAll(m);
      }
    }

    /** Maps layers from the topmost down until one fails. */
    method MapSome(m: Meta) returns (rc: Status, ptrs: seq<Ptr>, lens: seq<nat>)
      requires Valid() && ready
      modifies this`maps, this`stores, this`outstanding, this`calls
      ensures Valid() && Asked(old(calls))
      ensures old(Sound()) ==> Sound()
      ensures |ptrs| <= |m.layers| && (rc == Done ==> |ptrs| == |m.layers|)
      ensures outstanding == With(old(outstanding), Turned(m.layers), 0, |ptrs|)
      ensures Placed(maps, Turned(m.layers), ptrs, lens)
      ensures rc == Done ==> Loadable(old(maps), old(stores), residents, Turned(m.layers))
      ensures rc != Done && Faults(calls) == Faults(old(calls)) ==>
                !Loadable(old(maps), old(stores), residents, Turned(m.layers))
      ensures rc == StoreError ==> Faults(calls) > Faults(old(calls))
    {
      hide Registry.Valid, At, Long, Registry.Sound, SameContents, Present, Mapped, With, Placed, StillMapped,
        Registry.Faults, Fits, Counted, Loading, Loadable, OneMore, Full, Resides;
      ghost var ds := Turned(m.layers);
      var n := |m.layers|;
      ptrs, lens, rc := [], [], Done;
      WithNone(outstanding, ds, 0);
      PlacedNone(maps, ds);
      LoadingNone(maps, stores, residents, ds);
      SameSelf(stores);
      while |ptrs| < n && rc == Done
        invariant |ptrs| <= n && SameContents(old(stores), stores)
        invariant Loading(old(maps), maps, old(stores), residents, ds, |ptrs|)
        invariant rc == Done ==> Faults(calls) == Faults(old(calls))
        invariant rc == StoreError ==> Faults(calls) > Faults(old(calls))
        invariant rc != Done && rc != StoreError ==> !Loadable(old(maps), old(stores), residents, ds)
        invariant Valid() && (old(Sound()) ==> Sound()) && Asked(old(calls))
        invariant outstanding == With(old(outstanding), ds, 0, |ptrs|)
        invariant Placed(maps, ds, ptrs, lens)
        decreases n - |ptrs|, rc == Done
      {
        var p, l;
        ghost var slots, were := maps, stores;
        rc, p, l := MapBlob(m.layers[n - 1 - |ptrs|].digest);
        SameHeld(old(stores), were, stores, residents, ds[|ptrs|]);
        LoadingEnds(old(maps), slots, old(stores), residents, ds, |ptrs|);
        if rc == Done {
          LoadingMore(old(maps), slots, maps, old(stores), residents, ds, |ptrs|);
          WithMore(old(outstanding), ds, |ptrs|);
          PlacedMore(slots, maps, ds, ptrs, lens, p, l);
          ptrs, lens := ptrs + [p], lens + [l];
        }
      }
      LoadingEnds(old(maps), maps, old(stores), residents, ds, |ptrs|);
    }

    lemma {:induction false} SameHeld(a: seq<Depot>, b: seq<Depot>, c: seq<Depot>, residents: Slots<Resident>,
                                      d: Digest)
      requires SameContents(a, b) && SameContents(b, c)
      ensures SameContents(a, c) && Present(a, residents, d) == Present(b, residents, d)
    {
    }

    method MapAll(m: Meta) returns (rc: Status, ptrs: seq<Ptr>, lens: seq<nat>)
      requires Valid() && ready
      modifies this`maps, this`stores, this`outstanding, this`short, this`calls
      ensures Valid()
      ensures old(Sound()) ==> Sound()
      ensures Honest(old(calls), old(short), old(recs))
      ensures rc == Done ==>
                && short == old(short)
                && TopDown(maps, m.layers, ptrs, lens) && outstanding == old(outstanding) + multiset(Digests(m.layers))
      ensures rc != Done ==> outstanding == old(outstanding)
      ensures rc == Done ==> Loadable(old(maps), old(stores), residents, Turned(m.layers))
      ensures rc != Done && Faults(calls) == Faults(old(calls)) ==>
                !Loadable(old(maps), old(stores), residents, Turned(m.layers))
    {
      hide Registry.Valid, At, Long, Registry.Sound, Digests, With, Stays, Placed, Turned, TopDown, Registry.Faults,
        Fits, Counted, Loadable;
      ghost var ds := Turned(m.layers);
      rc, ptrs, lens := MapSome(m);
      ghost var n := |ptrs|;
      WithTaken(old(outstanding), ds, n);
      PlacedAt(maps, ds, ptrs, lens, n);
      if rc != Done {
        UnmapLayers(ptrs, ds[..n]);
        ptrs, lens := [], [];
      } else {
        assert ds[..n] == ds;
        TurnedSame(m.layers);
        PlacedTurned(maps, m.layers, ptrs, lens);
      }
    }

    // ---- The visible blobs ----

    method BlobPresent(d: Digest) returns (b: bool)
      ensures b == Present(stores, residents, d)
    {
      hide Resides, Stored;
      var r := ResidentByDigest(d);
      var s := StoreHolding(d);
      b := r.Some? || s >= 0;
    }

    /** Adds an entry's digests that are held and not yet listed, until the list is full. */
    method AddVisible(had: seq<Digest>, m: Meta) returns (full: bool, list: seq<Digest>)
      requires |had| <= MAX_BLOBS
      ensures list == Walk(Digests(m.layers), stores, residents, had) && |list| <= MAX_BLOBS
      ensures full ==> |list| == MAX_BLOBS
    {
      hide Present, Walk;
      var ds := Digests(m.layers);
      list := had;
      WalkNone(stores, residents, had);
      assert ds[..0] == [];
      for l := 0 to |ds|
        invariant list == Walk(ds[..l], stores, residents, had) && |list| <= MAX_BLOBS
      {
        assert ds[..l + 1] == ds[..l] + [ds[l]];
        WalkConcat(ds[..l], [ds[l]], stores, residents, had);
        WalkOne(ds[l], stores, residents, list);
        var here := BlobPresent(ds[l]);
        if ds[l] !in list && here {
          if |list| == MAX_BLOBS {
            assert ds == ds[..l] + ds[l..];
            WalkConcat(ds[..l], ds[l..], stores, residents, had);
            WalkFull(ds[l..], stores, residents, list);
            return true, list;
          }
          list := list + [ds[l]];
        }
      }
      assert ds[..|ds|] == ds;
      full := false;
    }

    /** Every distinct digest an entry names and something holds. */
    method VisibleBlobs() returns (list: seq<Digest>, ghost keys: seq<Key>)
      requires Sizes() && ResidentsOk(residents)
      modifies this`short, this`calls
      ensures Honest(old(calls), old(short), old(recs))
      ensures !short ==>
                Listing(keys, recs, residents) && list == Walk(Flat(keys, recs, residents), stores, residents, [])
      ensures stores == [] || fails(old(calls)) ==> list == []
    {
      hide Present, Walk, Sorted, Distinct, Listing, Flat, Entry, ResidentOf, ResidentMeta, Digests, Registry.Faults,
        Fits, Counted;
      list := [];
      var n, all := ListKeys();
      keys := all;
      if n < 0 { return; }
      WalkNone(stores, residents, []);
      FlatNone(recs, residents);
      assert all[..0] == [];
      for i := 0 to n
        invariant Honest(old(calls), old(short), recs)
        invariant |list| <= MAX_BLOBS && (!short ==> Listing(keys, recs, residents))
        invariant !short ==> list == Walk(Flat(all[..i], recs, residents), stores, residents, [])
      {
        FlatMore(all, i, recs, residents);
        var m := ReadMeta(all[i]);
        if m.Some? {
          WalkConcat(Flat(all[..i], recs, residents), Digests(m.value.layers), stores, residents, []);
          var full;
          full, list := AddVisible(list, m.value);
          if full {
            if !short {
              FullForAll(all, i + 1, list);
            }
            return;
          }
        } else {
          ghost var flat := Flat(all[..i], recs, residents);
          assert flat + [] == flat;
        }
      }
      assert all[..n] == all;
    }

    lemma {:induction false} FullForAll(keys: seq<Key>, i: nat, list: seq<Digest>)
      requires i <= |keys| && |list| == MAX_BLOBS
      requires list == Walk(Flat(keys[..i], recs, residents), stores, residents, [])
      ensures list == Walk(Flat(keys, recs, residents), stores, residents, [])
      decreases |keys| - i
    {
      hide Walk, Flat, Entry;
      if i < |keys| {
        FlatMore(keys, i, recs, residents);
        var e := Entry(recs, residents, keys[i]);
        var more := if e.Some? then Digests(e.value.layers) else [];
        WalkConcat(Flat(keys[..i], recs, residents), more, stores, residents, []);
        WalkFull(more, stores, residents, list);
        FullForAll(keys, i + 1, list);
      } else {
        assert keys[..i] == keys;
      }
    }

    /** The blob at a place in the listing; a walk starts at 0 and reads the list it built there. */
    method BlobAt(n: nat) returns (r: Option<Digest>)
      requires Valid() && ready
      modifies this`short, this`calls, this`visible, this`visibleValid, this`exact, this`shown
      ensures Valid() && visibleValid
      ensures Honest(old(calls), old(short), old(recs))
      ensures r == if n < |visible| then Some(visible[n]) else None
      ensures n > 0 && old(visibleValid) ==> visible == old(visible) && exact == old(exact)
      ensures exact ==> Shows(visible, shown, recs, pending, stores, residents)
      ensures old(visibleValid) && old(exact) && exact ==> visible == old(visible)
      ensures old(Sound()) && old(Fresh()) ==> Fresh()
      ensures (n == 0 || !old(visibleValid)) && !Excused(old(calls), recs) ==>
                && Listing(shown, recs, residents)
                && visible == Walk(Flat(shown, recs, residents), stores, residents, [])
      ensures (n == 0 || !old(visibleValid)) && (stores == [] || fails(old(calls))) ==> visible == [] && r == None
    {
      hide Registry.Valid, Shows, NoDangling, Listing, Walk, Flat, Registry.Faults, Fits, Counted;
      if n == 0 || !visibleValid {
        Refresh();
      } else {
        CacheShows();
      }
      r := if n < |visible| then Some(visible[n]) else None;
    }

    lemma {:induction false} CacheShows()
      requires Valid()
      ensures visibleValid && exact ==> Shows(visible, shown, recs, pending, stores, residents)
    {
      hide MapsOk, NoLeak, NoDangling, PlacesOk, PendingOk, InOrder, Addressed, Hash, Shows, ResidentsOk;
    }

    twostate lemma {:induction false} Relisted()
      requires old(Valid()) && ready
               && unchanged(`ready, `seqNo, `order, `stage, `pending, `maps, `residents, `stores, `recs)
      requires unchanged(`outstanding, `log, `orderly) && (old(short) ==> short)
      requires visibleValid && exact ==> Shows(visible, shown, recs, pending, stores, residents)
      ensures Valid()
    {
      hide MapsOk, NoLeak, PlacesOk, InOrder, Addressed, Hash, Shows, PendingOk, ResidentsOk;
    }

    /** The visible blobs, and whether they were read whole just now. */
    method ReadVisible() returns (list: seq<Digest>, ghost keys: seq<Key>, ghost whole: bool)
      requires Sizes() && ResidentsOk(residents)
      modifies this`short, this`calls
      ensures Honest(old(calls), old(short), recs)
      ensures whole ==>
                Listing(keys, recs, residents) && list == Walk(Flat(keys, recs, residents), stores, residents, [])
      ensures (!short ==> whole) && (!Excused(old(calls), recs) ==> whole)
      ensures stores == [] || fails(old(calls)) ==> list == []
    {
      hide Listing, Walk, Flat, Registry.Faults, Fits, Registry.Sizes, ResidentsOk;
      ghost var before := short;
      short := false;
      list, keys := VisibleBlobs();
      whole := !short;
      short := short || before;
    }

    /** Caches a listing; it is exact when it was read whole and nothing dangled. */
    method Cache(list: seq<Digest>, ghost keys: seq<Key>, ghost whole: bool)
      requires Valid() && ready
      requires whole ==>
                 Listing(keys, recs, residents) && list == Walk(Flat(keys, recs, residents), stores, residents, [])
      modifies this`visible, this`visibleValid, this`exact, this`shown
      ensures Valid() && visibleValid && visible == list && shown == keys && exact == (whole && Sound())
      ensures exact ==> Shows(visible, shown, recs, pending, stores, residents)
      ensures old(visibleValid) && old(exact) && exact ==> visible == old(visible)
    {
      hide Registry.Valid, NoDangling, Shows, Listing, Walk, Flat;
      CacheShows();
      exact := whole && Sound();
      if exact {
        ShowsNow(list, keys, recs, pending, stores, residents);
        if old(visibleValid) && old(exact) {
          ShowsOne(visible, shown, list, keys, recs, pending, stores, residents);
        }
      }
      visible, shown, visibleValid := list, keys, true;
      Relisted();
    }

    /** Reads the listing again; one that cannot be read is cached as empty. */
    method Refresh()
      requires Valid() && ready
      modifies this`short, this`calls, this`visible, this`visibleValid, this`exact, this`shown
      ensures Valid() && visibleValid
      ensures Honest(old(calls), old(short), old(recs))
      ensures exact ==> Shows(visible, shown, recs, pending, stores, residents)
      ensures old(visibleValid) && old(exact) && exact ==> visible == old(visible)
      ensures old(Sound()) && !short ==> exact
      ensures !Excused(old(calls), recs) ==>
                && Listing(shown, recs, residents)
                && visible == Walk(Flat(shown, recs, residents), stores, residents, [])
      ensures stores == [] || fails(old(calls)) ==> visible == []
    {
      hide Registry.Valid, Registry.Sound, Shows, Listing, Walk, Flat, Registry.Faults, Fits, Registry.Excused,
        Registry.Sizes, ResidentsOk;
      Known();
      var list;
      ghost var keys, whole;
      list, keys, whole := ReadVisible();
      StillValid();
      Cache(list, keys, whole);
    }

    // ---- Linking a layer already held ----

    /** The length of a blob an entry names, and how many entries name it. */
    method BlobLookup(d: Digest) returns (found: bool, length: uint32, entries: nat, ghost keys: seq<Key>)
      requires Sizes() && ResidentsOk(residents)
      modifies this`short, this`calls
      ensures Honest(old(calls), old(short), old(recs))
      ensures found == (entries > 0 && Present(stores, residents, d))
      ensures entries > 0 ==> exists k, m :: FromEntry(recs, residents, k, m) && Layer(length, d) in m.layers
      ensures !short ==> Listing(keys, recs, residents) && entries == Naming(keys, recs, residents, d)
    {
      hide Sorted, Distinct, Listing, Entry, ResidentOf, ResidentMeta, FromEntry, Resides, Stored, ResidentsOk,
        Naming, Names, Registry.Faults, Fits, Counted;
      length, entries, found := 0, 0, false;
      var n, all := ListKeys();
      keys := all;
      ghost var whose, meta := Key("", ""), Meta(0, 0, 0, 0, 0, 0, [], seq(64, _ => 0));
      if n >= 0 {
        NamingNone(recs, residents, d);
        assert all[..0] == [];
        for i := 0 to n
          invariant Honest(old(calls), old(short), recs)
          invariant entries > 0 ==> FromEntry(recs, residents, whose, meta) && Layer(length, d) in meta.layers
          invariant !short ==> Listing(keys, recs, residents) && entries == Naming(all[..i], recs, residents, d)
        {
          NamingMore(all, i, recs, residents, d);
          var m := ReadMeta(all[i]);
          ReadFrom(all[i], m);
          if m.Some? {
            var l := LayerOf(m.value, d);
            if l >= 0 {
              length, entries := m.value.layers[l].length, entries + 1;
              whose, meta := all[i], m.value;
              assert m.value.layers[l] == Layer(length, d);
            }
          }
        }
        assert all[..n] == all;
      }
      var here := BlobPresent(d);
      found := entries > 0 && here;
    }

    /** Makes a blob some entry already has wait as a layer of another. */
    method LinkLayer(key: Key, layer: nat, d: Digest) returns (rc: Status, ghost length: uint32, ghost keys: seq<Key>)
      requires Valid() && ready
      modifies this`pending, this`order, this`stores, this`short, this`calls
      ensures Valid()
      ensures old(Sound()) ==> Sound()
      ensures Honest(old(calls), old(short), old(recs))
      ensures rc == Invalid <==> layer >= max
      ensures rc == Done ==>
                && WaitsAs(pending, key, layer, d, length) && Present(old(stores), residents, d)
                && exists k, m :: FromEntry(recs, residents, k, m) && Layer(length, d) in m.layers
      ensures rc != Done ==> pending == old(pending) && stores == old(stores)
      ensures rc == NotFound && !short ==>
                !Present(stores, residents, d)
                  || (Listing(keys, recs, residents) && Naming(keys, recs, residents, d) == 0)
      ensures Smooth(old(calls), old(short), old(recs)) ==>
                rc == (if layer >= max then Invalid
                       else if Present(old(stores), residents, d) && NamedBy(recs, residents, d) then Done
                       else NotFound)
    {
      hide NamedBy, MapsOk, NoLeak, NoDangling, PlacesOk, PendingOk, InOrder, Addressed, Hash, Shows, ResidentsOk,
        FromEntry, Waits, WaitsAs, Present, Listing, Naming, Registry.Faults, Fits, Counted;
      length, keys := 0, [];
      if layer >= max {
        rc := Invalid;
        return;
      }
      var found, len, entries;
      found, len, entries, keys := BlobLookup(d);
      length := len;
      if !short {
        NamingIsNamed(keys, recs, residents, d);
      }
      if !found {
        rc := NotFound;
        return;
      }
      if !short {
        SpareMore(recs, pending, maps, stores, d);
      }
      ghost var at := PendingAdd(key, layer, d, len);
      rc := Done;
    }

    // ---- Resident images ----

    method ResidentSlot(key: Key) returns (k: int)
      requires ResidentsOk(residents)
      ensures -1 <= k < |residents|
      ensures k >= 0 ==> residents[k].None? || residents[k].value.key == key
      ensures k >= 0 ==>
                forall i | 0 <= i < |residents| && i != k && residents[i].Some? :: residents[i].value.key != key
      ensures k < 0 <==> NoResidentSlot(residents, key)
    {
      for i := 0 to |residents|
        invariant forall j | 0 <= j < i :: !(residents[j].Some? && residents[j].value.key == key)
      {
        if residents[i].Some? && residents[i].value.key == key {
          return i;
        }
      }
      for i := 0 to |residents|
        invariant forall j | 0 <= j < i :: residents[j].Some?
      {
        if residents[i].None? {
          return i;
        }
      }
      k := -1;
    }

    /** Registers an image the firmware carries; what it replaces must be held elsewhere or needed by nothing. */
    method AddResident(r: Resident) returns (rc: Status)
      requires Valid()
      requires forall i | 0 <= i < |residents| && residents[i].Some? && residents[i].value.addr == r.addr ::
                 residents[i].value.digest == r.digest
      requires forall i | 0 <= i < |maps| && maps[i].Some? && maps[i].value.ptr == InFirmware(r.addr) ::
                 maps[i].value.digest == r.digest
      modifies this`residents, this`visibleValid
      ensures Valid()
      ensures rc == if NoResidentSlot(old(residents), r.key) then NoSpace else Done
      ensures rc == NoSpace ==> residents == old(residents) && visibleValid == old(visibleValid)
      ensures rc == Done ==>
                && Resides(residents, r.digest) && !visibleValid
                && exists k | 0 <= k < MAX_RESIDENT ::
                     && residents == old(residents)[k := Some(r)]
                     && (old(residents)[k].Some? ==> old(residents)[k].value.key == r.key)
                     && (old(Sound()) ==> (Sound() <==> !Lost(old(residents)[k], recs, pending, stores, residents)))
    {
      hide MapsOk, NoLeak, PendingOk, InOrder, Addressed, Hash, Shows, Listed, Waits, Stored;
      var k := ResidentSlot(r.key);
      if k < 0 { return NoSpace; }
      ghost var was := residents;
      residents := residents[k := Some(r)];
      visibleValid := false;
      ResidentSet(was, k, r);
      rc := Done;
    }

    lemma {:induction false} ResidentSet(was: Slots<Resident>, k: nat, r: Resident)
      requires k < |was|
      ensures Resides(was[k := Some(r)], r.digest)
      ensures forall d: Digest | Resides(was, d) ::
                Resides(was[k := Some(r)], d) || (was[k].Some? && was[k].value.digest == d)
      ensures forall d: Digest | Resides(was[k := Some(r)], d) :: Resides(was, d) || d == r.digest
    {
      var now := was[k := Some(r)];
      assert now[k].value.digest == r.digest;
      forall d: Digest | Resides(was, d) ensures Resides(now, d) || (was[k].Some? && was[k].value.digest == d) {
        var i :| 0 <= i < |was| && was[i].Some? && was[i].value.digest == d;
        assert i != k ==> now[i] == was[i];
      }
      forall d: Digest | Resides(now, d) ensures Resides(was, d) || d == r.digest {
        var i :| 0 <= i < |now| && now[i].Some? && now[i].value.digest == d;
        assert i != k ==> now[i] == was[i];
      }
    }

    /** Forgets the firmware's images; nothing dangles exactly when the stores hold all that is needed. */
    method ClearResident()
      requires Valid()
      modifies this`residents, this`visibleValid
      ensures Valid() && !visibleValid && (forall i | 0 <= i < |residents| :: residents[i].None?)
      ensures Sound() <==> forall d: Digest | Listed(recs, d) || Waits(pending, d) :: Stored(stores, d)
    {
      hide MapsOk, NoLeak, PendingOk, InOrder, Addressed, Hash, Shows, Listed, Waits, Stored;
      residents := seq(MAX_RESIDENT, _ => None);
      visibleValid := false;
    }

    // ---- Stopping ----

    /** Gives every map back to its store. */
    method UnmapAll()
      requires MapsOk(maps, stores, outstanding)
      modifies this`maps, this`stores, this`outstanding
      ensures |maps| == |old(maps)| && forall i | 0 <= i < |maps| :: maps[i].None?
      ensures MapsOk(maps, stores, outstanding) && SameContents(old(stores), stores) && outstanding == multiset{}
      ensures forall s | 0 <= s < |stores| :: stores[s].maps == multiset{}
    {
      hide MapsOk, Mapped, At, SameContents, Unmapped, MappingOk;
      ghost var was := stores;
      SameSelf(was);
      for i := 0 to |maps|
        invariant |maps| == |old(maps)| && (forall j | 0 <= j < i :: maps[j].None?)
        invariant MapsOk(maps, stores, outstanding) && SameContents(was, stores)
      {
        if maps[i].Some? {
          var m := maps[i].value;
          ghost var before := stores;
          SlotLeft(maps, i, stores, outstanding, outstanding[m.digest := 0]);
          InStoreRange(m);
          stores := Unmapped(stores, m);
          maps := maps[i := None];
          outstanding := outstanding[m.digest := 0];
          SameOn(was, before, stores);
        }
      }
      NothingOut();
    }

    lemma {:induction false} NothingOut()
      requires MapsOk(maps, stores, outstanding) && forall i | 0 <= i < |maps| :: maps[i].None?
      ensures outstanding == multiset{} && forall s | 0 <= s < |stores| :: stores[s].maps == multiset{}
    {
      forall d: Digest ensures outstanding[d] == 0 && !Mapped(maps, d) {
      }
      forall s | 0 <= s < |stores| ensures stores[s].maps == multiset{} {
        forall d: Digest ensures stores[s].maps[d] == 0 {
          assert !MappedFrom(maps, s, d);
        }
      }
    }

    /** Stops the registry: nothing is staged, waiting or mapped. */
    method Deinit()
      requires Valid()
      modifies this`ready, this`stage, this`maps, this`pending, this`stores, this`outstanding, this`visibleValid
      ensures Valid() && !ready && outstanding == (if old(ready) then multiset{} else old(outstanding))
      ensures visibleValid ==> old(visibleValid)
      ensures old(Sound()) ==> Sound()
    {
      hide Registry.Valid, Registry.Sound, SameBlobs;
      if !ready { return; }
      if stage.Open? {
        AbortStage();
      }
      Forget();
    }

    method Forget()
      requires Valid() && ready && stage == Idle
      modifies this`ready, this`maps, this`pending, this`stores, this`outstanding, this`visibleValid
      ensures Valid() && !ready && outstanding == multiset{} && !visibleValid
      ensures old(Sound()) ==> Sound()
    {
      hide NoLeak, NoDangling, PlacesOk, PendingOk, InOrder, Addressed, Hash, Shows, ResidentsOk, MapsOk, SameContents;
      ghost var was, waited := stores, pending;
      UnmapAll();
      SameThere(was, stores);
      SameNeeds(was, stores, recs, pending, maps, residents, {}, Hash);
      pending := seq(|pending|, _ => None);
      visibleValid, ready := false, false;
      Emptied(waited, old(maps));
    }

    lemma {:induction false} Emptied(waited: Slots<Pending>, slots: Slots<Mapping>)
      requires PlacesOk(residents, slots)
      requires |pending| == |waited| && (forall i | 0 <= i < |pending| :: pending[i].None?)
               && (forall i | 0 <= i < |maps| :: maps[i].None?)
      ensures PendingOk(pending, max) && PlacesOk(residents, maps)
      ensures NoDangling(recs, waited, stores, residents) ==> NoDangling(recs, pending, stores, residents)
    {
      hide Listed, Present;
    }

    /** A reset: what the registry kept in memory is gone, the stores and the firmware's images are not. */
    method Cut()
      requires Valid()
      modifies this`ready, this`stage, this`maps, this`pending, this`stores, this`outstanding, this`visibleValid
      ensures Valid() && !ready && outstanding == multiset{} && !visibleValid
      ensures |stores| == |old(stores)| && forall s | 0 <= s < |stores| :: stores[s].blobs == old(stores)[s].blobs
      ensures old(Sound()) ==> Sound()
    {
      hide Registry.Valid, Registry.Sound;
      stores := Rebooted(stores);
      maps := seq(|maps|, _ => None);
      pending := seq(|pending|, _ => None);
      stage, outstanding, visibleValid, ready := Idle, multiset{}, false, false;
      CutValid();
    }

    twostate lemma {:induction false} CutValid()
      requires old(Valid()) && stores == Rebooted(old(stores)) && |maps| == |old(maps)| && |pending| == |old(pending)|
      requires (forall i | 0 <= i < |maps| :: maps[i].None?) && (forall i | 0 <= i < |pending| :: pending[i].None?)
      requires stage == Idle && outstanding == multiset{} && !visibleValid && !ready
      requires unchanged(`seqNo, `order, `residents, `recs, `log, `orderly)
      ensures Valid() && (old(Sound()) ==> Sound())
    {
      hide NoLeak, NoDangling, PlacesOk, PendingOk, InOrder, Addressed, Hash, Shows, ResidentsOk, MapsOk, Rebooted;
      CutHolds(old(stores), old(pending));
      Emptied(old(pending), old(maps));
    }

    lemma {:induction false} CutHolds(was: seq<Depot>, waited: Slots<Pending>)
      requires |stores| == |was| && outstanding == multiset{} && (forall i | 0 <= i < |maps| :: maps[i].None?)
      requires forall s | 0 <= s < |stores| :: stores[s].blobs == was[s].blobs && stores[s].maps == multiset{}
      ensures MapsOk(maps, stores, outstanding)
      ensures Addressed(was, Hash) ==> Addressed(stores, Hash)
      ensures NoDangling(recs, waited, was, residents) ==> NoDangling(recs, waited, stores, residents)
    {
      hide Listed, Waits, Resides, Sha256.DigestOf;
      forall d: Digest ensures Stored(was, d) == Stored(stores, d) {
        if Stored(was, d) {
          var s :| 0 <= s < |was| && d in was[s].blobs;
          assert d in stores[s].blobs;
        }
        if Stored(stores, d) {
          var s :| 0 <= s < |stores| && d in stores[s].blobs;
          assert d in was[s].blobs;
        }
      }
    }

    // ---- Whole runs ----

    constructor (max: nat, mapSlots: nat, stores: seq<Depot>, recs: Records, fails: nat -> bool, takes: nat -> nat)
      requires 1 <= max <= ABS_MAX_LAYERS && (stores == [] ==> recs == map[])
      requires forall k | k in recs && recs[k].Some? :: |recs[k].value.layers| <= max
      requires Addressed(stores, Hash)
               && forall s | 0 <= s < |stores| :: stores[s].maps == multiset{} && stores[s].staged == None
      ensures Valid() && !ready && this.stores == stores && this.recs == recs && this.max == max
              && this.mapSlots == mapSlots && this.fails == fails && this.takes == takes
      ensures orderly && log == [] && !short && calls == 0 && seqNo == 0 && stage == Idle
      ensures (forall i | 0 <= i < |residents| :: residents[i].None?) && bare == (stores == [])
    {
      this.max, this.mapSlots, this.stores, this.recs := max, mapSlots, stores, recs;
      ready, seqNo, order, stage, visibleValid, visible := false, 0, 0, Idle, false, [];
      pending, maps, residents := seq(2 * max, _ => None), seq(mapSlots, _ => None), seq(MAX_RESIDENT, _ => None);
      this.fails, this.takes, bare, calls := fails, takes, stores == [], 0;
      short, outstanding, exact, shown, log, orderly := false, multiset{}, false, [], [], true;
      new;
      hide Hash, Addressed;
      NoMaps();
    }

    lemma {:induction false} NoMaps()
      requires outstanding == multiset{} && (forall i | 0 <= i < |maps| :: maps[i].None?)
      requires forall s | 0 <= s < |stores| :: stores[s].maps == multiset{}
      ensures MapsOk(maps, stores, outstanding)
    {
    }

    /** A write to a layer, in the state the caller says it is in. */
    method WriteLayer(w: Write, now: Option<int64>) returns (rc: Status)
      requires Valid() && ready
      modifies this`stores, this`stage, this`pending, this`order, this`short, this`calls, this`recs, this`seqNo,
        this`visibleValid, this`log, this`orderly
      ensures Valid()
      ensures old(Sound()) ==> Sound()
      ensures Honest(old(calls), old(short), old(recs)) && (visibleValid ==> old(visibleValid))
      ensures old(stores) == [] ==> rc == NoDevice
      ensures old(stores) != [] ==>
                var c := old(calls) + if w.Start? then 1 else 0;
                Writes(max, w, old(stage), rc, stage, fails(old(calls)) || fails(c), takes(c))
      ensures w.Finish? && old(stage).Open? && !old(stage).failed && old(stage).bytes != [] && old(stage).plain
              && Smooth(old(calls), old(short), old(recs)) ==>
                (rc == Done <==> Entry(old(recs), residents, old(stage).key).Some? || |old(recs)| < MAX_ENTRIES)
      ensures rc == StoreError ==>
                || (old(stage).Open? && (old(stage).failed || (w.Finish? && old(stage).plain)))
                || Faults(old(calls)) < Faults(calls)
      ensures w.Finish? && old(stage).Open? && (old(stage).failed || old(stage).bytes == []) ==>
                rc != Done && pending == old(pending)
      ensures w.Finish? && rc == Done ==>
                && old(stage).Open? && stage == Idle
                && var d, s := Hash(old(stage).bytes), old(stage);
                   if s.plain then s.key in recs && recs[s.key].Some? && Digests(recs[s.key].value.layers) == [d]
                   else WaitsAs(pending, s.key, s.layer, d, |s.bytes| % 0x1_0000_0000) && Present(stores, residents, d)
      ensures w.Abort? && rc == Done ==>
                stage == Idle && SameBlobs(old(stores), stores) && pending == old(pending) && recs == old(recs)
      ensures Tracks(WriteCommits(w, old(stage), rc), old(log), old(orderly), old(seqNo), old(recs))
      ensures WriteCommits(w, old(stage), rc).None? ==> recs == old(recs) && visibleValid == old(visibleValid)
    {
      hide Entry, Registry.Valid, Registry.Sound, SameBlobs, WaitsAs, Digests, Hash, Registry.Faults, Fits, Present,
        Advanced, Reached;
      Known();
      StageThere();
      if stores == [] { return NoDevice; }
      match w
      case Start(key, layer, plain, buf) =>
        if buf == [] { return Invalid; }
        if stage.Open? { return Busy; }
        if layer >= max || (plain && layer != 0) { return Invalid; }
        var n;
        rc, n := StageStart(key, layer, plain, buf);
      case Continue(buf) =>
        if stage.Idle? { return BadState; }
        if buf == [] { return Invalid; }
        var n := StageWriteLocked(buf);
        rc := if n < 0 then StoreError else Done;
      case Finish =>
        if stage.Idle? { return BadState; }
        rc := StageFinishLocked(now);
      case Abort =>
        if stage.Idle? { return BadState; }
        AbortStage();
        rc := Done;
    }

    /** A whole layer written while no call fails: it is held, and only the stage, the slots and the stores moved. */
    method PutLayer(key: Key, bytes: seq<byte>)
      requires Valid() && ready && stage == Idle && stores != [] && max > 0 && bytes != [] && !short && Fits(recs)
      requires forall i: nat :: !fails(i) && takes(i) >= |bytes|
      modifies this`stores, this`stage, this`pending, this`order, this`short, this`calls, this`recs, this`seqNo,
        this`visibleValid, this`log, this`orderly
      ensures Valid() && !short && recs == old(recs) && visibleValid == old(visibleValid)
      ensures Present(stores, residents, Hash(bytes))
    {
      hide Registry.Valid, Hash, Present, Fits, Registry.Faults, WaitsAs, Registry.Sound, Synced, Advanced, SameBlobs;
      Known();
      ghost var c := calls;
      var rc := WriteLayer(Start(key, 0, false, bytes), None);
      assert bytes[..|bytes|] == bytes;
      NeverFaulty(c);
      NeverFaulty(calls);
      StageThere();
      rc := WriteLayer(Finish, None);
      NeverFaulty(calls);
    }

    ghost function Now(): Moment
      reads this`ready, this`short, this`seqNo, this`stage, this`pending, this`stores, this`recs, this`log, this`maps,
        this`residents, this`calls, this`outstanding
    {
      Moment(ready, short, seqNo, stage, pending, stores, recs, log, maps, residents, outstanding, Faults(calls))
    }

    /** A step that writes. */
    method ActPut(step: Step) returns (rc: Status)
      requires Valid() && ready && step.Put?
      modifies this
      ensures Valid() && ready && residents == old(residents)
      ensures old(Sound()) ==> Sound()
      ensures Honest(old(calls), old(short), old(recs))
      ensures Follows(old(Now()), step, rc, Now()) && Handles(old(Now()), step, rc, Now())
      ensures Smooth(old(calls), old(short), old(recs)) ==> Owes(max, old(Now()), step, rc, Now())
      ensures !short ==> orderly == (old(orderly) && (Commits(step, old(stage), rc).Some? ==> seqNo != 0))
      ensures old(Sound()) && old(Fresh()) ==> Fresh()
    {
      hide Registry.Valid, Registry.Sound, Registry.Faults, Fits, Listing, IsNewest, Entry, Present, WaitsAs, Digests,
        Hash, Advanced, Reached, SameBlobs, PutAs, OwesPut, Writes, Follows, Commits, WriteCommits,
        Synced;
      Known();
      rc := WriteLayer(step.w, step.now);
      FollowsPut(old(Now()), step, rc, Now());
      if Smooth(old(calls), old(short), old(recs)) {
        ghost var c := old(calls) + if step.w.Start? then 1 else 0;
        OwesWritten(max, old(Now()), step.w, rc, Now(), fails(old(calls)) || fails(c), takes(c));
      }
    }

    /** A step that commits. */
    method ActCommit(step: Step) returns (rc: Status)
      requires Valid() && ready && step.Commit?
      modifies this
      ensures Valid() && ready && residents == old(residents)
      ensures old(Sound()) ==> Sound()
      ensures Honest(old(calls), old(short), old(recs))
      ensures Follows(old(Now()), step, rc, Now()) && Handles(old(Now()), step, rc, Now())
      ensures Smooth(old(calls), old(short), old(recs)) ==> Owes(max, old(Now()), step, rc, Now())
      ensures !short ==> orderly == (old(orderly) && (Commits(step, old(stage), rc).Some? ==> seqNo != 0))
      ensures old(Sound()) && old(Fresh()) ==> Fresh()
    {
      hide Registry.Valid, Registry.Sound, Registry.Faults, Fits, Entry, Gathered, Cleared, Advanced, Reached, Lacks,
        Total, PutAs, Committable, Refused;
      rc := CommitLocked(step.key, step.count, step.now, step.created);
    }

    /** A step that signs or marks. */
    method ActMark(step: Step) returns (rc: Status)
      requires Valid() && ready && (step.Sign? || step.Seed?)
      modifies this
      ensures Valid() && ready && residents == old(residents)
      ensures old(Sound()) ==> Sound()
      ensures Honest(old(calls), old(short), old(recs))
      ensures Follows(old(Now()), step, rc, Now()) && Handles(old(Now()), step, rc, Now())
      ensures Smooth(old(calls), old(short), old(recs)) ==> Owes(max, old(Now()), step, rc, Now())
      ensures !short ==> orderly == (old(orderly) && (Commits(step, old(stage), rc).Some? ==> seqNo != 0))
      ensures old(Sound()) && old(Fresh()) ==> Fresh()
    {
      hide Entry, Findable, Registry.Valid, Registry.Sound, Registry.Faults, Fits, IsFound, Flagged, RewrittenAt,
        Reached, Follows, Commits, Registry.Excused;
      ghost var k, keys;
      if step.Sign? {
        rc, k, keys := SetSignature(step.key, step.keyId, step.sig);
        if rc == Done && !short {
          FoundName(step.key, k, keys, old(recs), residents);
          Resigned(old(recs), k, step.keyId, step.sig, recs);
        }
      } else {
        k, keys := MarkSeeded(step.key);
        if recs != old(recs) && !short {
          FoundName(step.key, k, keys, old(recs), residents);
          Reseeded(old(recs), k, recs);
        }
        rc := Done;
      }
      FollowsOther(old(Now()), step, rc, Now());
    }

    /** A step that links or drops. */
    method ActEntry(step: Step) returns (rc: Status)
      requires Valid() && ready && (step.Link? || step.Drop?)
      modifies this
      ensures Valid() && ready && residents == old(residents)
      ensures old(Sound()) ==> Sound()
      ensures Honest(old(calls), old(short), old(recs))
      ensures Follows(old(Now()), step, rc, Now()) && Handles(old(Now()), step, rc, Now())
      ensures Smooth(old(calls), old(short), old(recs)) ==> Owes(max, old(Now()), step, rc, Now())
      ensures !short ==> orderly == (old(orderly) && (Commits(step, old(stage), rc).Some? ==> seqNo != 0))
      ensures old(Sound()) && old(Fresh()) ==> Fresh()
    {
      hide Owes, NamedBy, Findable, Registry.Valid, Registry.Sound, Registry.Faults, Fits, Listing, WaitsAs, Naming,
        Present, IsNewest, Entry, FromEntry, IsFound, Reached, Follows, Commits, Registry.Excused;
      ghost var k, keys;
      if step.Link? {
        ghost var length;
        rc, length, keys := LinkLayer(step.key, step.layer, step.digest);
        FollowsLink(old(Now()), step, rc, Now(), length);
        OwesLink(max, old(Now()), step, rc, Now());
      } else {
        rc, k, keys := Remove(step.key);
        FollowsDrop(old(Now()), step, rc, Now(), k);
        OwesDrop(max, old(Now()), step, rc, Now(), k, keys);
      }
    }

    /** A step that lists or maps. */
    method ActBlobs(step: Step) returns (rc: Status)
      requires Valid() && ready && (step.Look? || step.Load?)
      modifies this
      ensures Valid() && ready && residents == old(residents)
      ensures old(Sound()) ==> Sound()
      ensures Honest(old(calls), old(short), old(recs))
      ensures Follows(old(Now()), step, rc, Now()) && Handles(old(Now()), step, rc, Now())
      ensures Smooth(old(calls), old(short), old(recs)) ==> Owes(max, old(Now()), step, rc, Now())
      ensures !short ==> orderly == (old(orderly) && (Commits(step, old(stage), rc).Some? ==> seqNo != 0))
      ensures old(Sound()) && old(Fresh()) ==> Fresh()
    {
      hide Owes, Findable, Loadable, Turned, Registry.Valid, Registry.Sound, Registry.Faults, Fits, Shows, Listing,
        Present, IsNewest, Entry, IsFound, TopDown, Walk, Flat, Reached, Follows, Commits, Registry.Excused, Digests;
      rc := Done;
      if step.Look? {
        var r := BlobAt(step.n);
        OwesLook(max, old(Now()), step, rc, Now());
      } else {
        ghost var keys;
        var ptrs, lens, m, found;
        rc, ptrs, lens, found, m, keys := MapLayers(step.key);
        OwesLoad(max, old(Now()), step, rc, Now(), found, keys, m);
      }
      FollowsPlain(old(Now()), step, rc, Now());
    }

    /** A step of a started registry. */
    method Act(step: Step) returns (rc: Status)
      requires Valid() && ready && step.Starts()
      modifies this
      ensures Valid() && ready && residents == old(residents)
      ensures old(Sound()) ==> Sound()
      ensures Honest(old(calls), old(short), old(recs))
      ensures Follows(old(Now()), step, rc, Now()) && Handles(old(Now()), step, rc, Now())
      ensures Smooth(old(calls), old(short), old(recs)) ==> Owes(max, old(Now()), step, rc, Now())
      ensures !short ==> orderly == (old(orderly) && (Commits(step, old(stage), rc).Some? ==> seqNo != 0))
      ensures old(Sound()) && old(Fresh()) ==> Fresh()
    {
      hide Owes, Handles, Registry.Valid, Registry.Sound, Registry.Faults, Fits, Follows, Commits;
      if step.Put? {
        rc := ActPut(step);
      } else if step.Commit? {
        rc := ActCommit(step);
      } else if step.Sign? || step.Seed? {
        rc := ActMark(step);
      } else if step.Link? || step.Drop? {
        rc := ActEntry(step);
      } else {
        rc := ActBlobs(step);
      }
    }

    /** An image registered unless its place holds another digest, which no firmware has. */
    method AddImage(r: Resident) returns (rc: Status)
      requires Valid()
      modifies this`residents, this`visibleValid
      ensures Valid() && (visibleValid ==> old(visibleValid))
      ensures rc == (if !PlaceFits(old(residents), maps, r) then Invalid
                     else if NoResidentSlot(old(residents), r.key) then NoSpace
                     else Done)
      ensures if rc == Done then Registered(old(residents), r, residents) else residents == old(residents)
    {
      hide Registry.Valid, Registry.Sound, PlaceFits, Lost, Resides;
      Known();
      rc := Invalid;
      if PlaceFits(residents, maps, r) {
        FitsThen(residents, maps, r);
        rc := AddResident(r);
      }
    }

    /** A step on the firmware's images. */
    method RestImages(step: Step) returns (rc: Status)
      requires Valid() && (step.AddImage? || step.ClearImages?)
      modifies this
      ensures Valid()
      ensures Honest(old(calls), old(short), old(recs))
      ensures Follows(old(Now()), step, rc, Now()) && Handles(old(Now()), step, rc, Now())
      ensures !short ==> orderly == (old(orderly) && (Commits(step, old(stage), rc).Some? ==> seqNo != 0))
      ensures old(Sound()) && old(Fresh()) ==> Fresh()
    {
      hide Registry.Valid, Registry.Sound, Registry.Faults, Fits, PlaceFits, Listed, Waits, Stored, Resides, Follows,
        Commits, Registry.Excused, Registered, NoResidentSlot;
      rc := Done;
      if step.AddImage? {
        rc := AddImage(step.image);
      } else {
        ClearResident();
      }
      FollowsPlain(old(Now()), step, rc, Now());
    }

    /** A step that gives a map back. */
    method RestUnload(step: Step) returns (rc: Status)
      requires Valid() && step.Unload?
      modifies this`maps, this`stores, this`outstanding, this`short, this`calls
      ensures Valid()
      ensures old(Sound()) ==> Sound()
      ensures Honest(old(calls), old(short), old(recs))
      ensures Follows(old(Now()), step, rc, Now()) && Handles(old(Now()), step, rc, Now())
      ensures !short ==> orderly == (old(orderly) && (Commits(step, old(stage), rc).Some? ==> seqNo != 0))
      ensures old(Sound()) && old(Fresh()) ==> Fresh()
    {
      hide Registry.Valid, Registry.Sound, Registry.Faults, Fits, Stays, At, Follows, Commits, Registry.Excused,
        Handles, OneFewer;
      rc := Done;
      UnmapPtr(step.ptr);
      FollowsPlain(old(Now()), step, rc, Now());
      HandlesUnload(old(Now()), step, rc, Now());
    }

    /** A stop or a reset. */
    method RestStop(step: Step) returns (rc: Status)
      requires Valid() && (step.Stop? || step.Reset?)
      modifies this
      ensures Valid()
      ensures old(Sound()) ==> Sound()
      ensures Honest(old(calls), old(short), old(recs))
      ensures Follows(old(Now()), step, rc, Now()) && Handles(old(Now()), step, rc, Now())
      ensures !short ==> orderly == (old(orderly) && (Commits(step, old(stage), rc).Some? ==> seqNo != 0))
      ensures old(Sound()) && old(Fresh()) ==> Fresh()
    {
      hide Registry.Valid, Registry.Sound, Registry.Faults, Fits, Follows, Commits, Registry.Excused;
      rc := Done;
      if step.Stop? {
        Deinit();
      } else {
        Cut();
      }
      FollowsPlain(old(Now()), step, rc, Now());
    }

    /** One step of a run; everything but unloading, residents, stopping and a reset starts the registry first. */
    method Do(step: Step) returns (rc: Status)
      requires Valid()
      modifies this
      ensures Valid()
      ensures old(Sound()) && !step.AddImage? && !step.ClearImages? ==> Sound()
      ensures Faults(old(calls)) <= Faults(calls)
      ensures short ==> old(short) || Excused(old(calls), old(recs)) || Crowded(old(stores))
      ensures Follows(old(Now()), step, rc, Now()) && Handles(old(Now()), step, rc, Now())
      ensures step.Starts() && Smoothly(old(Now()), Now()) ==> Owes(max, old(Now()), step, rc, Now())
      ensures !short ==> orderly == (old(orderly) && (Commits(step, old(stage), rc).Some? ==> seqNo != 0))
      ensures old(Sound()) && old(Fresh()) ==> Fresh()
    {
      hide Owes, Handles, Registry.Valid, Registry.Sound, Registry.Faults, Fits, Follows, Crowded, Freed, AllStored,
        Reached, Counted;
      if step.Starts() {
        NotShown();
        Known();
        EnsureReady();
        ghost var mid := Now();
        rc := Act(step);
        StartThen(old(Now()), mid, step, rc, Now());
        HandlesThen(old(Now()), mid, step, rc, Now());
        if Smoothly(old(Now()), Now()) {
          OwesStarted(max, old(Now()), mid, step, rc, Now());
        }
      } else {
        if step.AddImage? || step.ClearImages? {
          rc := RestImages(step);
        } else if step.Unload? {
          rc := RestUnload(step);
        } else {
          rc := RestStop(step);
        }
      }
    }

    lemma {:induction false} NotShown()
      requires Valid()
      ensures !ready ==> !visibleValid
    {
      hide NoLeak, PlacesOk, PendingOk, InOrder, Addressed, Hash, Shows, ResidentsOk, MapsOk, Counted;
    }

    /** A bare name finds the entry of it that was committed last. */
    lemma {:induction false} LatestResolved()
      requires Valid() && orderly
      ensures FindsLatest(recs, residents, log)
    {
      hide NoLeak, PlacesOk, PendingOk, Addressed, Hash, Shows, ResidentsOk, MapsOk, Counted, InOrder, IsLatest,
        Listing, IsNewest;
      forall k, keys | IsLatest(recs, log, k) && Listing(keys, recs, residents)
        ensures IsNewest(keys, recs, residents, k.name, k)
      {
        LatestFound(keys, recs, residents, log, k, k);
      }
    }

    /**
     * Every run, with stops and resets anywhere: what each step did; and nothing comes to dangle. While no call to a
     * store fails and everything fits a listing, nothing leaks, a cached listing is what would be read now, and a bare
     * name finds what the run last committed of it, unless the sequence could wrap.
     */
    method Run(steps: seq<Step>) returns (rcs: seq<Status>, ghost trace: seq<Moment>)
      requires Valid()
      modifies this
      ensures Valid()
      ensures |rcs| == |steps| && |trace| == |steps| + 1 && trace[0] == old(Now()) && trace[|steps|] == Now()
      ensures forall i | 0 <= i < |steps| :: Follows(trace[i], steps[i], rcs[i], trace[i + 1])
      ensures forall i | 0 <= i < |steps| :: Handles(trace[i], steps[i], rcs[i], trace[i + 1])
      ensures forall i | 0 <= i < |steps| && steps[i].Starts() && Smoothly(trace[i], trace[i + 1]) ::
                Owes(max, trace[i], steps[i], rcs[i], trace[i + 1])
      ensures old(Sound()) && ImagesKept(steps) ==> Sound()
      ensures old(Sound()) && old(Fresh()) && ImagesKept(steps) && !short && visibleValid ==>
                Shows(visible, shown, recs, pending, stores, residents)
      ensures !bare && Faults(calls) == Faults(old(calls)) && Roomy(trace) && !old(short) ==> Calm(trace)
      ensures ready && !short ==> NoLeak(recs, pending, maps, stores, {})
      ensures old(orderly) && Calm(trace) && Below(old(recs), old(seqNo), 0x1_0000_0000 - |steps|) ==> orderly
      ensures orderly ==> FindsLatest(recs, residents, log)
    {
      hide Registry.Valid, Registry.Sound, Registry.Faults, Fits, Follows, Crowded, Below, FindsLatest, NoLeak, Shows,
        Commits, Owes, Smoothly, Handles;
      rcs, trace := [], [Now()];
      for i := 0 to |steps|
        invariant Valid() && |rcs| == i && |trace| == i + 1 && trace[0] == old(Now()) && trace[i] == Now()
        invariant forall j | 0 <= j < i :: Follows(trace[j], steps[j], rcs[j], trace[j + 1])
        invariant forall j | 0 <= j < i :: Handles(trace[j], steps[j], rcs[j], trace[j + 1])
        invariant forall j | 0 <= j < i && steps[j].Starts() && Smoothly(trace[j], trace[j + 1]) ::
                    Owes(max, trace[j], steps[j], rcs[j], trace[j + 1])
        invariant old(Sound()) && ImagesKept(steps[..i]) ==> Sound()
        invariant old(Sound()) && old(Fresh()) && ImagesKept(steps[..i]) ==> Fresh()
        invariant Faults(old(calls)) <= Faults(calls)
        invariant !bare && Faults(calls) == Faults(old(calls)) && Roomy(trace) && !old(short) ==> Calm(trace)
        invariant old(orderly) && Calm(trace) && Below(old(recs), old(seqNo), 0x1_0000_0000 - |steps|) ==>
                    orderly && Below(recs, seqNo, 0x1_0000_0000 - |steps| + i)
      {
        ghost var a := Now();
        var rc := Do(steps[i]);
        StepBelow(a, steps[i], rc, Now(), 0x1_0000_0000 - |steps| + i);
        ImagesMore(steps, i);
        MomentMore(trace, a, Now());
        rcs, trace := rcs + [rc], trace + [Now()];
      }
      assert steps[..|steps|] == steps;
      CacheShows();
      NothingLeaks();
      if orderly {
        LatestResolved();
      }
    }

    lemma {:induction false} NothingLeaks()
      requires Valid()
      ensures ready && !short ==> NoLeak(recs, pending, maps, stores, {})
    {
      hide NoLeak, PlacesOk, PendingOk, InOrder, Addressed, Hash, Shows, ResidentsOk, MapsOk, Counted;
    }
  }

  lemma {:induction false} CrowdedAt(stores: seq<Depot>, s: nat)
    requires s < |stores|
    ensures |stores[s].blobs| > MAX_BLOBS ==> Crowded(stores)
  {
  }

  lemma {:induction false} DropFreed(was: seq<Depot>, s: nat, d: Digest, ds: set<Digest>,
                                     recs: Records, pending: Slots<Pending>, maps: Slots<Mapping>)
    requires s < |was| && d in ds && !Needed(recs, pending, maps, d)
    ensures Freed(was, was[s := was[s].(blobs := was[s].blobs - {d})], ds, recs, pending, maps)
  {
    hide Needed;
  }

  ghost function Set(ds: seq<Digest>): set<Digest> {
    set d | d in ds
  }

  lemma {:induction false} ShowsSound(visible: seq<Digest>, keys: seq<Key>, recs: Records, pending: Slots<Pending>,
                                      stores: seq<Depot>, residents: Slots<Resident>)
    requires Shows(visible, keys, recs, pending, stores, residents)
    ensures NoDangling(recs, pending, stores, residents)
  {
    hide NoDangling, Listing, Walk, Flat;
  }

  /** The keys, sorted in a scratch array. */
  method SortedKeys(keys: seq<Key>) returns (r: seq<Key>)
    requires |keys| <= MAX_ENTRIES + MAX_RESIDENT
    ensures Sorted(r) && multiset(r) == multiset(keys)
  {
    hide Sorted, Before;
    var a := new Key[MAX_ENTRIES + MAX_RESIDENT](_ => Key("", ""));
    for i := 0 to |keys|
      invariant a[..i] == keys[..i]
    {
      a[i] := keys[i];
    }
    assert keys[..|keys|] == keys;
    SortKeys(a, |keys|);
    r := a[..|keys|];
  }

  method PickKeys(all: set<Key>, n: nat) returns (keys: seq<Key>)
    requires n <= |all|
    ensures |keys| == n && Distinct(keys) && forall k | k in keys :: k in all
    ensures n == |all| ==> forall k | k in all :: k in keys
  {
    keys := [];
    var rest := all;
    while |keys| < n
      invariant |keys| + |rest| == |all| && |keys| <= n && Distinct(keys)
      invariant forall k :: k in all <==> k in keys || k in rest
      invariant forall k | k in rest :: k !in keys
      decreases n - |keys|
    {
      var k :| k in rest;
      keys := keys + [k];
      rest := rest - {k};
    }
    if n == |all| {
      assert rest == {};
    }
  }

  /** One of these keys' records lists the digest. */
  ghost predicate ListedBy(keys: seq<Key>, recs: Records, d: Digest) {
    exists k | k in keys :: k in recs && recs[k].Some? && Names(recs[k].value, d)
  }

  lemma {:induction false} ListedBySnoc(keys: seq<Key>, i: nat, recs: Records)
    requires i < |keys| && keys[i] in recs
    ensures forall d: Digest :: ListedBy(keys[..i + 1], recs, d) <==>
              ListedBy(keys[..i], recs, d) || (recs[keys[i]].Some? && Names(recs[keys[i]].value, d))
  {
    hide Names;
    var last := keys[i];
    assert keys[..i + 1] == keys[..i] + [last];
    forall d: Digest | recs[last].Some? && Names(recs[last].value, d) ensures ListedBy(keys[..i + 1], recs, d) {
      assert last in keys[..i + 1];
    }
  }

  lemma {:induction false} ListedByAll(keys: seq<Key>, recs: Records)
    requires forall k :: k in keys <==> k in recs
    ensures forall d: Digest :: ListedBy(keys, recs, d) <==> Listed(recs, d)
  {
    hide Names;
  }

  function Least(a: nat, b: nat): nat {
    if a < b then a else b
  }

  /** No digest is there twice. */
  predicate Apart(refs: seq<Digest>) {
    forall i, j | 0 <= i < j < |refs| :: refs[i] != refs[j]
  }

  /** A full list of digests listed, and one more listed that is not on it. */
  lemma {:induction false} TooManyListed(keys: seq<Key>, i: nat, recs: Records, refs: seq<Digest>)
    requires i < |keys| && (forall k | k in keys :: k in recs) && recs[keys[i]].Some? && Apart(refs)
    requires |refs| == MAX_BLOBS && exists d :: Names(recs[keys[i]].value, d) && d !in refs
    requires forall d | d in refs :: ListedBy(keys[..i], recs, d) || Names(recs[keys[i]].value, d)
    ensures !Fits(recs)
  {
    hide Names;
    var more :| Names(recs[keys[i]].value, more) && more !in refs;
    forall d | d in refs + [more] ensures d in ListedSet(recs) {
      assert keys[i] in recs;
      ListedIn(recs, d);
    }
    DistinctIn(refs + [more], ListedSet(recs));
  }

  /** Adds a record's digests to a list of distinct ones, while they fit. */
  method AddDigests(had: seq<Digest>, m: Meta) returns (fits: bool, refs: seq<Digest>)
    requires |had| <= MAX_BLOBS && Apart(had)
    ensures |refs| <= MAX_BLOBS && Apart(refs)
    ensures forall d | d in refs :: d in had || Names(m, d)
    ensures !fits ==> |refs| == MAX_BLOBS && exists d :: Names(m, d) && d !in refs
    ensures fits ==> forall d: Digest :: d in refs <==> d in had || Names(m, d)
  {
    refs := had;
    for l := 0 to |m.layers|
      invariant |refs| <= MAX_BLOBS && Apart(refs)
      invariant forall d: Digest :: d in refs <==> d in had || exists i | 0 <= i < l :: m.layers[i].digest == d
    {
      if m.layers[l].digest !in refs {
        if |refs| == MAX_BLOBS {
          assert Names(m, m.layers[l].digest);
          return false, refs;
        }
        refs := refs + [m.layers[l].digest];
      }
    }
    fits := true;
  }

  method PickDigests(all: set<Digest>, n: nat) returns (list: seq<Digest>)
    requires n <= |all|
    ensures |list| == n && forall d | d in list :: d in all
    ensures n == |all| ==> forall d | d in all :: d in list
  {
    list := [];
    var rest := all;
    while |list| < n
      invariant |list| + |rest| == |all| && |list| <= n
      invariant forall d :: d in all <==> d in list || d in rest
      decreases n - |list|
    {
      var d :| d in rest;
      list := list + [d];
      rest := rest - {d};
    }
    if n == |all| {
      assert rest == {};
    }
  }

  lemma {:induction false} StoredIn(stores: seq<Depot>, s: nat, d: Digest)
    requires s < |stores| && d in stores[s].blobs
    ensures Stored(stores, d)
  {
  }

  /** Every digest in a store. */
  ghost function AllStored(stores: seq<Depot>): (all: set<Digest>)
    ensures forall d: Digest :: Stored(stores, d) <==> d in all
  {
    set s, d | 0 <= s < |stores| && d in stores[s].blobs :: d
  }

  function Total(layers: seq<Layer>): nat {
    if layers == [] then 0 else Total(layers[..|layers| - 1]) + layers[|layers| - 1].length
  }

  lemma {:induction false} GatherMore(pending: Slots<Pending>, key: Key, layers: seq<Layer>, p: Option<Pending>)
    requires Gathered(pending, key, layers) && p.Some? && p in pending && p.value.key == key
             && p.value.index == |layers|
    ensures var more := layers + [Layer(p.value.length, p.value.digest)];
            Gathered(pending, key, more) && Total(more) == Total(layers) + p.value.length
  {
    var more := layers + [Layer(p.value.length, p.value.digest)];
    assert more[..|layers|] == layers;
    var i :| 0 <= i < |pending| && pending[i] == p;
    assert Offers(pending, key, |layers|, more[|layers|]);
  }

  /** A commit is refused for its count, for a layer that is missing, or for layers that are together too long. */
  ghost predicate Refused(rc: Status, pending: Slots<Pending>, key: Key, count: nat, max: nat) {
    && (rc == Invalid <==> count == 0) && (rc == TooMany <==> count > max)
    && (rc == NotFound <==> 0 < count <= max && !Fitting(pending, key, count) && FirstMissing(pending, key, count))
    && (rc == TooBig <==> 0 < count <= max && !Fitting(pending, key, count) && !FirstMissing(pending, key, count))
  }

  lemma {:induction false} NoneGathered(pending: Slots<Pending>, key: Key)
    ensures Gathered(pending, key, []) && Total([]) == 0 && Fitting(pending, key, 0)
  {
  }

  /** Once the lengths are too much they stay so, and no layer is missing before. */
  lemma {:induction false} PastLimit(pending: Slots<Pending>, key: Key, i: nat, count: nat)
    requires i < count && Fitting(pending, key, i) && !Lacks(pending, key, i)
    requires WaitingSum(pending, key, i + 1) >= 0x1_0000_0000
    ensures !Fitting(pending, key, count) && !FirstMissing(pending, key, count)
  {
    hide Lacks, LengthAt;
    SumGrows(pending, key, i + 1, count);
    forall l | 0 <= l < count && Lacks(pending, key, l) ensures !Fitting(pending, key, l) {
      if l > i {
        SumGrows(pending, key, i + 1, l);
      }
    }
  }

  /** Distinct numbers from `lo` up to `hi` are no more than there are. */
  lemma {:induction false} Within(s: set<int>, lo: int, hi: int)
    requires lo <= hi && forall x | x in s :: lo <= x < hi
    ensures |s| <= hi - lo
    decreases hi - lo
  {
    if lo < hi {
      var rest := s - {hi - 1};
      Within(rest, lo, hi - 1);
      if hi - 1 in s {
        assert s == rest + {hi - 1};
      } else {
        assert s == rest;
      }
    } else {
      assert forall x :: x !in s;
      assert s == {};
    }
  }

  lemma {:induction false} AllNamed(m: Meta)
    ensures forall d: Digest | Names(m, d) :: d in Digests(m.layers)
  {
  }

  /** A single layer that waits fits, whatever its length. */
  lemma {:induction false} OneFitting(pending: Slots<Pending>, at: nat, key: Key, recs: Records,
                                      residents: Slots<Resident>, max: nat)
    requires at < |pending| && pending[at].Some? && pending[at].value.key == key && pending[at].value.index == 0
    requires max > 0
    ensures Committable(pending, recs, residents, key, 1, max)
            <==> Entry(recs, residents, key).Some? || |recs| < MAX_ENTRIES
  {
    hide LengthAt, Entry;
    assert !Lacks(pending, key, 0);
    assert WaitingSum(pending, key, 1) == WaitingSum(pending, key, 0) + LengthAt(pending, key, 0);
  }

  lemma {:induction false} PlainLayer(pending: Slots<Pending>, at: nat, key: Key, m: Meta, d: Digest)
    requires |m.layers| == 1 && Gathered(pending, key, m.layers) && at < |pending| && pending[at].Some?
    requires pending[at].value.key == key && pending[at].value.index == 0 && pending[at].value.digest == d
    requires forall i | 0 <= i < |pending| && i != at && pending[i].Some? ::
               pending[i].value.key != key || pending[i].value.index != 0
    ensures Digests(m.layers) == [d]
  {
    assert Offers(pending, key, 0, m.layers[0]);
  }

  /** A meta read for a key: its record, or a resident image of it. */
  ghost predicate FromEntry(recs: Records, residents: Slots<Resident>, key: Key, m: Meta) {
    || (key in recs && recs[key] == Some(m))
    || (ResidentOf(residents, key).Some? && m == ResidentMeta(ResidentOf(residents, key).value))
  }

  lemma {:induction false} SortedAfter(keys: seq<Key>, i: nat, k: Key)
    requires Sorted(keys) && Distinct(keys) && i < |keys| && k in keys[..i]
    ensures Before(k, keys[i]) && k != keys[i]
  {
    hide Before;
    var j :| 0 <= j < i && keys[..i][j] == k;
    assert keys[j] == k;
    KeyOrder(k, keys[i]);
  }

  /** The flags with one more bit set. */
  function Flagged(flags: byte, bit: byte): byte
    requires bit == 1 || bit == 2
  {
    if flags / bit % 2 == 1 then flags else flags + bit
  }

  /** The digests of layers, topmost first. */
  function Turned(layers: seq<Layer>): (r: seq<Digest>)
    ensures |r| == |layers|
    ensures forall i | 0 <= i < |layers| :: r[i] == layers[|layers| - 1 - i].digest
  {
    seq(|layers|, i requires 0 <= i < |layers| => layers[|layers| - 1 - i].digest)
  }

  lemma {:induction false} TurnedSame(layers: seq<Layer>)
    ensures multiset(Turned(layers)) == multiset(Digests(layers))
  {
    if layers != [] {
      hide Turned, Digests;
      var n := |layers| - 1;
      TurnedSame(layers[..n]);
      TurnedSplit(layers);
      assert multiset(Turned(layers)) == multiset{layers[n].digest} + multiset(Turned(layers[..n]));
    }
  }

  lemma {:induction false} TurnedSplit(layers: seq<Layer>)
    requires layers != []
    ensures var n := |layers| - 1;
            && Turned(layers) == [layers[n].digest] + Turned(layers[..n])
            && Digests(layers) == Digests(layers[..n]) + [layers[n].digest]
  {
  }

  /** The mappings outstanding with some of a sequence added. */
  ghost function With(base: multiset<Digest>, ds: seq<Digest>, from: nat, to: nat): multiset<Digest>
    requires from <= to <= |ds|
  {
    base + multiset(ds[from..to])
  }

  lemma {:induction false} WithAll(base: multiset<Digest>, ds: seq<Digest>, out: multiset<Digest>)
    requires multiset(ds) <= out && base == out - multiset(ds)
    ensures out == With(base, ds, 0, |ds|)
  {
    assert ds[0..|ds|] == ds;
  }

  lemma {:induction false} WithNone(base: multiset<Digest>, ds: seq<Digest>, at: nat)
    requires at <= |ds|
    ensures With(base, ds, at, at) == base
  {
    assert ds[at..at] == [];
  }

  lemma {:induction false} WithFewer(base: multiset<Digest>, ds: seq<Digest>, i: nat)
    requires i < |ds|
    ensures With(base, ds, i, |ds|)[ds[i]] > 0
    ensures With(base, ds, i, |ds|) - multiset{ds[i]} == With(base, ds, i + 1, |ds|) <= With(base, ds, i, |ds|)
  {
    assert ds[i..|ds|] == [ds[i]] + ds[i + 1..|ds|];
  }

  lemma {:induction false} WithMore(base: multiset<Digest>, ds: seq<Digest>, i: nat)
    requires i < |ds|
    ensures With(base, ds, 0, i) + multiset{ds[i]} == With(base, ds, 0, i + 1)
  {
    assert ds[0..i + 1] == ds[0..i] + [ds[i]];
  }

  lemma {:induction false} WithTaken(base: multiset<Digest>, ds: seq<Digest>, i: nat)
    requires i <= |ds|
    ensures With(base, ds, 0, i) == base + multiset(ds[..i]) && multiset(ds[..i]) <= With(base, ds, 0, i)
    ensures With(base, ds, 0, i) - multiset(ds[..i]) == base
  {
    assert ds[0..i] == ds[..i];
  }

  /** What is mapped stays so, where it is and as long as it is. */
  ghost predicate StillMapped(a: Slots<Mapping>, b: Slots<Mapping>) {
    && (forall d: Digest, p: Ptr | At(a, d, p) :: At(b, d, p))
    && (forall p: Ptr, l: nat | Long(a, p, l) :: Long(b, p, l))
  }

  /** Each place so far has its digest mapped, of the length given. */
  ghost predicate Placed(maps: Slots<Mapping>, ds: seq<Digest>, ptrs: seq<Ptr>, lens: seq<nat>) {
    |lens| == |ptrs| <= |ds| && forall i | 0 <= i < |ptrs| :: At(maps, ds[i], ptrs[i]) && Long(maps, ptrs[i], lens[i])
  }

  lemma {:induction false} PlacedNone(maps: Slots<Mapping>, ds: seq<Digest>)
    ensures Placed(maps, ds, [], [])
  {
  }

  lemma {:induction false} PlacedMore(a: Slots<Mapping>, b: Slots<Mapping>, ds: seq<Digest>, ptrs: seq<Ptr>,
                                      lens: seq<nat>, p: Ptr, l: nat)
    requires Placed(a, ds, ptrs, lens) && |ptrs| < |ds| && At(b, ds[|ptrs|], p) && Long(b, p, l) && StillMapped(a, b)
    ensures Placed(b, ds, ptrs + [p], lens + [l])
  {
    hide At, Long;
  }

  lemma {:induction false} WalkNone(stores: seq<Depot>, residents: Slots<Resident>, acc: seq<Digest>)
    ensures Walk([], stores, residents, acc) == acc
  {
  }

  lemma {:induction false} WalkOne(d: Digest, stores: seq<Depot>, residents: Slots<Resident>, acc: seq<Digest>)
    ensures Walk([d], stores, residents, acc) ==
              if d in acc || !Present(stores, residents, d) || |acc| == MAX_BLOBS then acc else acc + [d]
  {
    assert [d][1..] == [];
  }

  lemma {:induction false} FlatNone(recs: Records, residents: Slots<Resident>)
    ensures Flat([], recs, residents) == []
  {
  }

  lemma {:induction false} FlatMore(keys: seq<Key>, i: nat, recs: Records, residents: Slots<Resident>)
    requires i < |keys|
    ensures var e := Entry(recs, residents, keys[i]);
            Flat(keys[..i + 1], recs, residents)
              == Flat(keys[..i], recs, residents) + if e.Some? then Digests(e.value.layers) else []
  {
    hide Entry, Digests;
    assert keys[..i + 1][..i] == keys[..i];
  }

  lemma {:induction false} ShowsNow(list: seq<Digest>, keys: seq<Key>, recs: Records, pending: Slots<Pending>,
                                    stores: seq<Depot>, residents: Slots<Resident>)
    requires NoDangling(recs, pending, stores, residents) && Listing(keys, recs, residents)
    requires list == Walk(Flat(keys, recs, residents), stores, residents, [])
    ensures Shows(list, keys, recs, pending, stores, residents)
  {
    hide NoDangling, Listing, Walk, Flat;
  }

  /** The first layer with this digest, or -1. */
  method LayerOf(m: Meta, d: Digest) returns (l: int)
    ensures -1 <= l < |m.layers|
    ensures l >= 0 ==> m.layers[l].digest == d
    ensures l < 0 <==> !Names(m, d)
  {
    for i := 0 to |m.layers|
      invariant forall j | 0 <= j < i :: m.layers[j].digest != d
    {
      if m.layers[i].digest == d {
        return i;
      }
    }
    l := -1;
  }

  lemma {:induction false} SpareMore(recs: Records, pending: Slots<Pending>, maps: Slots<Mapping>, stores: seq<Depot>,
                                     d: Digest)
    requires NoLeak(recs, pending, maps, stores, {})
    ensures NoLeak(recs, pending, maps, stores, {d})
  {
    hide Needed, Stored;
  }

  lemma {:induction false} SameSelf(a: seq<Depot>)
    ensures SameContents(a, a)
  {
  }

  lemma {:induction false} SameOn(a: seq<Depot>, b: seq<Depot>, c: seq<Depot>)
    requires SameContents(a, b) && SameContents(b, c)
    ensures SameContents(a, c)
  {
  }

  /** The stores with nothing staged or mapped. */
  function Rebooted(stores: seq<Depot>): (r: seq<Depot>)
    ensures |r| == |stores|
    ensures forall s | 0 <= s < |stores| ::
              r[s].blobs == stores[s].blobs && r[s].maps == multiset{} && r[s].staged == None
  {
    seq(|stores|, s requires 0 <= s < |stores| => stores[s].(maps := multiset{}, staged := None))
  }

  datatype Write = Start(key: Key, layer: nat, plain: bool, buf: seq<byte>) | Continue(buf: seq<byte>) | Finish | Abort

  datatype Step =
    | Put(w: Write, now: Option<int64>)
    | Link(key: Key, layer: nat, digest: Digest)
    | Commit(key: Key, count: nat, now: Option<int64>, created: Option<int64>)
    | Drop(key: Key)
    | Load(key: Key)
    | Unload(ptr: Ptr)
    | Sign(key: Key, keyId: uint32, sig: Signature)
    | Seed(key: Key)
    | Look(n: nat)
    | AddImage(image: Resident)
    | ClearImages
    | Stop
    | Reset
  {
    /** The step starts the registry before its first use. */
    predicate Starts() {
      !(Unload? || AddImage? || ClearImages? || Stop? || Reset?)
    }
  }

  /**
   * How a write ends and what it leaves staged, by whether a call of its own failed and how much the store takes. A
   * plain stage that finishes goes on to commit.
   */
  predicate Writes(max: nat, w: Write, a: Stage, rc: Status, b: Stage, fault: bool, taken: nat) {
    match w
    case Start(key, layer, plain, buf) =>
      && rc == (if buf == [] then Invalid
                else if a.Open? then Busy
                else if layer >= max || (plain && layer != 0) then Invalid
                else if fault then StoreError
                else Done)
      && b == if rc != Done then a else Open(plain, false, buf[..Least(taken, |buf|)], key, layer)
    case Continue(buf) =>
      && rc == (if a.Idle? then BadState
                else if buf == [] then Invalid
                else if a.failed || fault then StoreError
                else Done)
      && b == if rc == Done then a.(bytes := a.bytes + buf[..Least(taken, |buf|)])
              else if rc == StoreError then a.(failed := true)
              else a
    case Finish =>
      && b == Idle
      && if a.Idle? then rc == BadState
         else if a.failed then rc == StoreError
         else if a.bytes == [] then rc == Invalid
         else !a.plain ==> rc == if fault then StoreError else Done
    case Abort => b == Idle && rc == if a.Idle? then BadState else Done
  }

  /** The registry between two steps. */
  datatype Moment = Moment(ready: bool, short: bool, seqNo: uint32, stage: Stage, pending: Slots<Pending>,
                           stores: seq<Depot>, recs: Records, log: seq<Key>, maps: Slots<Mapping>,
                           residents: Slots<Resident>, outstanding: multiset<Digest>, faults: nat)

  /** The entry a write commits: one that finishes a plain stage. */
  function WriteCommits(w: Write, stage: Stage, rc: Status): Option<Key> {
    if rc == Done && w.Finish? && stage.Open? && stage.plain then Some(stage.key) else None
  }

  /** The entry a step commits. */
  function Commits(step: Step, stage: Stage, rc: Status): Option<Key> {
    match step
    case Put(w, _) => WriteCommits(w, stage, rc)
    case Commit(key, _, _, _) => if rc == Done then Some(key) else None
    case _ => None
  }

  /** The record of a key put back with the same layers and sequence. */
  ghost predicate RewrittenAt(a: Records, k: Key, m: Meta, b: Records) {
    && k in a && a[k].Some? && b == a[k := Some(m)]
    && m.layers == a[k].value.layers && m.installSeq == a[k].value.installSeq
  }

  /** The record of one of a name's entries was dropped. */
  ghost predicate DroppedOne(a: Records, name: string, b: Records) {
    exists k | k in a :: k.name == name && b == a - {k}
  }

  /** What a step that commits nothing does to the records. */
  ghost predicate Changes(a: Moment, step: Step, rc: Status, b: Moment) {
    match step
    case Drop(want) => if rc == Done then DroppedOne(a.recs, want.name, b.recs) else b.recs == a.recs
    case Sign(want, keyId, sig) =>
      if rc != Done then b.recs == a.recs
      else
        b.short || exists k, m ::
          RewrittenAt(a.recs, k, m, b.recs) && k.name == want.name && m.keyId == keyId && m.signature == sig
    case Seed(want) =>
      b.short || b.recs == a.recs || exists k, m ::
        RewrittenAt(a.recs, k, m, b.recs) && k.name == want.name && m.flags % 2 == 1
    case _ => b.recs == a.recs
  }

  /** What a step leaves in memory. */
  ghost predicate Leaves(a: Moment, step: Step, rc: Status, b: Moment) {
    match step
    case Put(w, _) =>
      w.Finish? && rc == Done ==>
        && a.stage.Open? && b.stage == Idle && !a.stage.failed && a.stage.bytes != []
        && var d := Hash(a.stage.bytes);
           var k := a.stage.key;
           if a.stage.plain then k in b.recs && b.recs[k].Some? && Digests(b.recs[k].value.layers) == [d]
           else WaitsAs(b.pending, k, a.stage.layer, d, |a.stage.bytes| % 0x1_0000_0000)
    case Link(key, layer, d) => rc == Done ==> exists n: uint32 :: WaitsAs(b.pending, key, layer, d, n)
    case Commit(key, count, _, _) =>
      if rc == Done then
        && key in b.recs && b.recs[key].Some? && b.pending == Cleared(a.pending, key)
        && |b.recs[key].value.layers| == count && Gathered(a.pending, key, b.recs[key].value.layers)
      else b.pending == a.pending
    case Stop => !b.ready
    case Reset =>
      && !b.ready && |b.stores| == |a.stores|
      && forall s | 0 <= s < |b.stores| :: b.stores[s].blobs == a.stores[s].blobs
    case _ => true
  }

  /** One step of a run, as the moments before and after it show. */
  ghost predicate Follows(a: Moment, step: Step, rc: Status, b: Moment) {
    && Leaves(a, step, rc, b)
    && match Commits(step, a.stage, rc)
       case Some(k) => b.log == a.log + [k] && PutAs(a.recs, k, b.recs, b.seqNo) && Advanced(a.recs, a.seqNo, b.seqNo)
       case None => b.log == a.log && Synced(a.recs, a.seqNo, b.seqNo) && Changes(a, step, rc, b)
  }

  /** What a step does to the users of mapped blobs and to the firmware's images. */
  ghost predicate Handles(a: Moment, step: Step, rc: Status, b: Moment) {
    && Users(a, step, rc, b)
    && match step
       case AddImage(r) =>
         && rc == (if !PlaceFits(a.residents, a.maps, r) then Invalid
                   else if NoResidentSlot(a.residents, r.key) then NoSpace
                   else Done)
         && if rc == Done then Registered(a.residents, r, b.residents) else b.residents == a.residents
       case ClearImages => forall i | 0 <= i < |b.residents| :: b.residents[i].None?
       case _ => b.residents == a.residents
  }

  /** A user fewer of the digest at a place, if there is one. */
  ghost predicate OneFewer(maps: Slots<Mapping>, ptr: Ptr, was: multiset<Digest>, now: multiset<Digest>) {
    && ((forall d: Digest :: !At(maps, d, ptr)) ==> now == was)
    && (forall d: Digest | At(maps, d, ptr) :: now == was - multiset{d})
  }

  ghost predicate Users(a: Moment, step: Step, rc: Status, b: Moment) {
    match step
    case Load(_) => rc != Done ==> b.outstanding == a.outstanding
    case Unload(ptr) => OneFewer(a.maps, ptr, a.outstanding, b.outstanding)
    case Stop => b.outstanding == if a.ready then multiset{} else a.outstanding
    case Reset => b.outstanding == multiset{}
    case _ => b.outstanding == a.outstanding
  }

  lemma {:induction false} HandlesUnload(a: Moment, step: Step, rc: Status, b: Moment)
    requires step.Unload? && b.residents == a.residents
    requires OneFewer(a.maps, step.ptr, a.outstanding, b.outstanding)
    ensures Handles(a, step, rc, b)
  {
    hide OneFewer;
  }

  lemma {:induction false} HandlesThen(a: Moment, mid: Moment, step: Step, rc: Status, b: Moment)
    requires step.Starts() && Handles(mid, step, rc, b)
    requires mid.maps == a.maps && mid.residents == a.residents && mid.outstanding == a.outstanding
    ensures Handles(a, step, rc, b)
  {
    hide At;
  }

  // ---- What a step must do when nothing fails ----

  /** No call failed over the step, there is a store, and the listings the step makes are whole. */
  ghost predicate Smoothly(a: Moment, b: Moment) {
    && b.faults == a.faults && a.stores != [] && Fits(a.recs)
    && if a.ready then !a.short else !Crowded(a.stores)
  }

  /** How a write ends and what it leaves staged. */
  ghost predicate OwesPut(max: nat, a: Moment, w: Write, rc: Status, b: Moment) {
    match w
    case Start(key, layer, plain, buf) =>
      && rc == (if buf == [] then Invalid
                else if a.stage.Open? then Busy
                else if layer >= max || (plain && layer != 0) then Invalid
                else Done)
      && if rc != Done then b.stage == a.stage
         else exists n | 0 <= n <= |buf| :: b.stage == Open(plain, false, buf[..n], key, layer)
    case Continue(buf) =>
      && rc == (if a.stage.Idle? then BadState
                else if buf == [] then Invalid
                else if a.stage.failed then StoreError
                else Done)
      && if rc != Done then b.stage == a.stage
         else exists n | 0 <= n <= |buf| :: b.stage == a.stage.(bytes := a.stage.bytes + buf[..n])
    case Finish =>
      && b.stage == Idle
      && if a.stage.Idle? then rc == BadState
         else if a.stage.failed then rc == StoreError
         else if a.stage.bytes == [] then rc == Invalid
         else
           rc == Done <==> a.stage.plain ==> Entry(a.recs, a.residents, a.stage.key).Some? || |a.recs| < MAX_ENTRIES
    case Abort => b.stage == Idle && rc == if a.stage.Idle? then BadState else Done
  }

  /** How a step ends, exactly, and which entry it took. */
  ghost predicate Owes(max: nat, a: Moment, step: Step, rc: Status, b: Moment) {
    match step
    case Put(w, _) => OwesPut(max, a, w, rc, b)
    case Link(_, layer, d) =>
      rc == (if layer >= max then Invalid
             else if Present(a.stores, a.residents, d) && NamedBy(a.recs, a.residents, d) then Done
             else NotFound)
    case Commit(key, count, _, _) => rc == Done <==> Committable(a.pending, a.recs, a.residents, key, count, max)
    case Drop(want) =>
      if !Findable(want, a.recs, a.residents) then rc == NotFound
      else
        exists k, keys ::
          && IsFound(want, k, keys, a.recs, a.residents) && Entry(a.recs, a.residents, k).Some?
          && if Entry(a.recs, a.residents, k).value.flags % 2 == 1 then rc == Denied
             else rc == Done && b.recs == a.recs - {k}
    case Load(want) =>
      if !Findable(want, a.recs, a.residents) then rc == NotFound
      else
        exists k, keys ::
          && IsFound(want, k, keys, a.recs, a.residents) && Entry(a.recs, a.residents, k).Some?
          && var m := Entry(a.recs, a.residents, k).value;
             && (rc == Done <==> Loadable(a.maps, a.stores, a.residents, Turned(m.layers)))
             && (rc == Done ==> b.outstanding == a.outstanding + multiset(Digests(m.layers)))
    case Sign(want, _, _) =>
      if !Findable(want, a.recs, a.residents) then rc == NotFound
      else
        exists k, keys ::
          IsFound(want, k, keys, a.recs, a.residents) && rc == if k in a.recs then Done else Denied
    case Seed(want) =>
      if !Findable(want, a.recs, a.residents) then b.recs == a.recs
      else
        exists k, keys ::
          && IsFound(want, k, keys, a.recs, a.residents) && Entry(a.recs, a.residents, k).Some?
          && var m := Entry(a.recs, a.residents, k).value;
             b.recs == if k in a.recs && m.flags % 2 == 0
                       then a.recs[k := Some(m.(flags := Flagged(m.flags, 1)))] else a.recs
    case _ => true
  }

  lemma {:induction false} OwesWritten(max: nat, a: Moment, w: Write, rc: Status, b: Moment, fault: bool, taken: nat)
    requires Writes(max, w, a.stage, rc, b.stage, fault, taken)
    requires rc == StoreError ==> a.stage.Open? && (a.stage.failed || (w.Finish? && a.stage.plain))
    requires w.Finish? && a.stage.Open? && !a.stage.failed && a.stage.bytes != [] && a.stage.plain ==>
               (rc == Done <==> Entry(a.recs, a.residents, a.stage.key).Some? || |a.recs| < MAX_ENTRIES)
    ensures OwesPut(max, a, w, rc, b)
  {
    hide Entry;
  }

  lemma {:induction false} OwesLink(max: nat, a: Moment, step: Step, rc: Status, b: Moment)
    requires step.Link?
    ensures rc == (if step.layer >= max then Invalid
                   else if Present(a.stores, a.residents, step.digest)
                           && NamedBy(a.recs, a.residents, step.digest) then Done
                   else NotFound)
            ==> Owes(max, a, step, rc, b)
  {
  }

  lemma {:induction false} OwesLook(max: nat, a: Moment, step: Step, rc: Status, b: Moment)
    requires step.Look?
    ensures Owes(max, a, step, rc, b)
  {
  }

  lemma {:induction false} OwesDrop(max: nat, a: Moment, step: Step, rc: Status, b: Moment, k: Key, keys: seq<Key>)
    requires step.Drop? && (rc == Done ==> b.recs == a.recs - {k})
    ensures (if !Findable(step.key, a.recs, a.residents) then rc == NotFound
             else
               && IsFound(step.key, k, keys, a.recs, a.residents) && Entry(a.recs, a.residents, k).Some?
               && rc == if Entry(a.recs, a.residents, k).value.flags % 2 == 1 then Denied else Done)
            ==> Owes(max, a, step, rc, b)
  {
    hide Findable, IsFound, Entry;
  }

  lemma {:induction false} OwesLoad(max: nat, a: Moment, step: Step, rc: Status, b: Moment, k: Key, keys: seq<Key>,
                                    m: Meta)
    requires step.Load? && (rc == Done ==> b.outstanding == a.outstanding + multiset(Digests(m.layers)))
    ensures (if !Findable(step.key, a.recs, a.residents) then rc == NotFound
             else
               && Entry(a.recs, a.residents, k) == Some(m) && IsFound(step.key, k, keys, a.recs, a.residents)
               && (rc == Done <==> Loadable(a.maps, a.stores, a.residents, Turned(m.layers))))
            ==> Owes(max, a, step, rc, b)
  {
    hide Findable, IsFound, Entry, Loadable, Turned, Digests;
  }

  /** What an entry names is listed or resident. */
  lemma {:induction false} EntryNames(recs: Records, residents: Slots<Resident>, k: Key, d: Digest)
    requires Entry(recs, residents, k).Some? && Names(Entry(recs, residents, k).value, d)
    ensures Listed(recs, d) || Resides(residents, d)
  {
    if k !in recs {
      ResidentOfIs(residents, k);
    }
  }

  /** Starting frees nothing an entry names. */
  lemma {:induction false} StartKeeps(a: Moment, mid: Moment, k: Key, d: Digest)
    requires mid.stores == a.stores || Freed(a.stores, mid.stores, AllStored(a.stores), a.recs, a.pending, a.maps)
    requires Entry(a.recs, a.residents, k).Some? && Names(Entry(a.recs, a.residents, k).value, d)
    ensures Present(a.stores, a.residents, d) == Present(mid.stores, a.residents, d)
  {
    hide Freed, AllStored, Stored, Resides, Listed, Entry, Names, Waits, Mapped;
    EntryNames(a.recs, a.residents, k, d);
    if mid.stores != a.stores {
      FreedKeeps(a.stores, mid.stores, AllStored(a.stores), a.recs, a.pending, a.maps, a.residents);
    }
  }

  lemma {:induction false} StartLoads(a: Moment, mid: Moment, k: Key)
    requires mid.stores == a.stores || Freed(a.stores, mid.stores, AllStored(a.stores), a.recs, a.pending, a.maps)
    requires Entry(a.recs, a.residents, k).Some?
    ensures var ds := Turned(Entry(a.recs, a.residents, k).value.layers);
            Loadable(a.maps, a.stores, a.residents, ds) == Loadable(a.maps, mid.stores, a.residents, ds)
  {
    hide Freed, AllStored, Present, Entry, Mapped, NotMapped, FreeCount;
    var m := Entry(a.recs, a.residents, k).value;
    forall d | d in Turned(m.layers)
      ensures Present(a.stores, a.residents, d) == Present(mid.stores, a.residents, d)
    {
      assert Names(m, d);
      StartKeeps(a, mid, k, d);
    }
  }

  lemma {:induction false} StartLinks(a: Moment, mid: Moment, d: Digest)
    requires mid.stores == a.stores || Freed(a.stores, mid.stores, AllStored(a.stores), a.recs, a.pending, a.maps)
    requires NamedBy(a.recs, a.residents, d)
    ensures Present(a.stores, a.residents, d) == Present(mid.stores, a.residents, d)
  {
    hide Freed, AllStored, Present, Entry, Names;
    var k :| Entry(a.recs, a.residents, k).Some? && Names(Entry(a.recs, a.residents, k).value, d);
    StartKeeps(a, mid, k, d);
  }

  /** Starting first changes nothing of how the step ends. */
  lemma {:induction false} OwesStarted(max: nat, a: Moment, mid: Moment, step: Step, rc: Status, b: Moment)
    requires Owes(max, mid, step, rc, b)
    requires mid.stage == a.stage && mid.pending == a.pending && mid.recs == a.recs && mid.maps == a.maps
             && mid.residents == a.residents && mid.outstanding == a.outstanding
    requires mid.stores == a.stores || Freed(a.stores, mid.stores, AllStored(a.stores), a.recs, a.pending, a.maps)
    ensures Owes(max, a, step, rc, b)
  {
    hide Freed, AllStored, Present, Entry, Loadable, NamedBy, IsFound, Findable, OwesPut, Committable, Turned, Digests;
    match step
    case Link(_, _, d) =>
      if NamedBy(a.recs, a.residents, d) {
        StartLinks(a, mid, d);
      }
    case Load(want) =>
      if Findable(want, a.recs, a.residents) {
        var k, keys :| && IsFound(want, k, keys, a.recs, a.residents) && Entry(a.recs, a.residents, k).Some?
          && var m := Entry(a.recs, a.residents, k).value;
             && (rc == Done <==> Loadable(a.maps, mid.stores, a.residents, Turned(m.layers)))
             && (rc == Done ==> b.outstanding == a.outstanding + multiset(Digests(m.layers)));
        StartLoads(a, mid, k);
      }
    case Put(_, _) => assert OwesPut(max, a, step.w, rc, b) by { OwesPutSame(max, a, mid, step.w, rc, b); }
    case _ =>
  }

  lemma {:induction false} OwesPutSame(max: nat, a: Moment, mid: Moment, w: Write, rc: Status, b: Moment)
    requires OwesPut(max, mid, w, rc, b)
    requires mid.stage == a.stage && mid.recs == a.recs && mid.residents == a.residents
    ensures OwesPut(max, a, w, rc, b)
  {
    hide Entry;
  }

  lemma {:induction false} FollowsPlain(a: Moment, step: Step, rc: Status, b: Moment)
    requires (!step.Starts() || step.Look? || step.Load?) && b.recs == a.recs && b.log == a.log && b.seqNo == a.seqNo
    requires (step.Stop? || step.Reset? ==> !b.ready)
    requires step.Reset? ==>
               |b.stores| == |a.stores| && forall s | 0 <= s < |b.stores| :: b.stores[s].blobs == a.stores[s].blobs
    ensures Follows(a, step, rc, b) && Commits(step, a.stage, rc).None?
  {
    hide Reached;
  }

  lemma {:induction false} FollowsPut(a: Moment, step: Step, rc: Status, b: Moment)
    requires step.Put? && Leaves(a, step, rc, b)
    requires match WriteCommits(step.w, a.stage, rc)
      case Some(k) => b.log == a.log + [k] && PutAs(a.recs, k, b.recs, b.seqNo) && Advanced(a.recs, a.seqNo, b.seqNo)
      case None => b.log == a.log && Synced(a.recs, a.seqNo, b.seqNo) && b.recs == a.recs
    ensures Follows(a, step, rc, b) && Commits(step, a.stage, rc) == WriteCommits(step.w, a.stage, rc)
  {
    hide Leaves, PutAs, Advanced, Synced, WriteCommits;
  }

  lemma {:induction false} FollowsLink(a: Moment, step: Step, rc: Status, b: Moment, length: uint32)
    requires step.Link? && b.recs == a.recs && b.log == a.log && b.seqNo == a.seqNo
    requires rc == Done ==> WaitsAs(b.pending, step.key, step.layer, step.digest, length)
    ensures Follows(a, step, rc, b) && Commits(step, a.stage, rc).None?
  {
    hide Reached, WaitsAs;
  }

  lemma {:induction false} FollowsDrop(a: Moment, step: Step, rc: Status, b: Moment, k: Key)
    requires step.Drop? && b.log == a.log && b.seqNo == a.seqNo
    requires if rc == Done then k in a.recs && k.name == step.key.name && b.recs == a.recs - {k} else b.recs == a.recs
    ensures Follows(a, step, rc, b) && Commits(step, a.stage, rc).None?
  {
    hide Reached;
  }

  lemma {:induction false} FollowsOther(a: Moment, step: Step, rc: Status, b: Moment)
    requires !step.Put? && !step.Commit? && Changes(a, step, rc, b) && Leaves(a, step, rc, b)
    requires b.log == a.log && b.seqNo == a.seqNo
    ensures Follows(a, step, rc, b) && Commits(step, a.stage, rc).None?
  {
    hide RewrittenAt, Reached;
  }

  lemma {:induction false} FoundName(want: Key, key: Key, keys: seq<Key>, recs: Records, residents: Slots<Resident>)
    requires IsFound(want, key, keys, recs, residents)
    ensures key.name == want.name
  {
    hide Listing, Entry;
  }

  lemma {:induction false} Resigned(was: Records, k: Key, keyId: uint32, sig: Signature, now: Records)
    requires k in was && was[k].Some?
    requires var m := was[k].value;
             now == was[k := Some(m.(keyId := keyId, signature := sig, flags := Flagged(m.flags, 2)))]
    ensures exists m :: RewrittenAt(was, k, m, now) && m.keyId == keyId && m.signature == sig
  {
    var m := was[k].value;
    assert RewrittenAt(was, k, m.(keyId := keyId, signature := sig, flags := Flagged(m.flags, 2)), now);
  }

  lemma {:induction false} Reseeded(was: Records, k: Key, now: Records)
    requires k in was && was[k].Some?
    requires var m := was[k].value; now == was[k := Some(m.(flags := Flagged(m.flags, 1)))]
    ensures exists m :: RewrittenAt(was, k, m, now) && m.flags % 2 == 1
  {
    var m := was[k].value;
    assert RewrittenAt(was, k, m.(flags := Flagged(m.flags, 1)), now);
  }

  /** Starting first is part of the step. */
  lemma {:induction false} StartThen(a: Moment, mid: Moment, step: Step, rc: Status, b: Moment)
    requires step.Starts() && Follows(mid, step, rc, b) && Synced(a.recs, a.seqNo, mid.seqNo)
    requires mid.stage == a.stage && mid.pending == a.pending && mid.recs == a.recs && mid.log == a.log
    ensures Follows(a, step, rc, b)
  {
    hide Reached, WaitsAs, Gathered, Cleared, RewrittenAt, Digests, Hash, PutAs;
    if Advanced(mid.recs, mid.seqNo, b.seqNo) {
      var s: uint32 :| Synced(mid.recs, mid.seqNo, s) && b.seqNo == (s + 1) % 0x1_0000_0000;
      assert Synced(a.recs, a.seqNo, s);
    }
  }

  /** No sequence of a record, nor the counter, has come to a number. */
  ghost predicate Below(recs: Records, seqNo: uint32, c: int) {
    seqNo < c && forall k | k in recs && recs[k].Some? :: recs[k].value.installSeq < c
  }

  /** A step with no short listing raises the sequences by at most one. */
  lemma {:induction false} StepBelow(a: Moment, step: Step, rc: Status, b: Moment, c: int)
    requires Follows(a, step, rc, b)
    ensures Below(a.recs, a.seqNo, c) && !b.short && c < 0x1_0000_0000 ==>
              Below(b.recs, b.seqNo, c + 1) && (Commits(step, a.stage, rc).Some? ==> b.seqNo != 0)
  {
    hide Leaves, Commits;
  }

  predicate Calm(trace: seq<Moment>) {
    forall i | 0 <= i < |trace| :: !trace[i].short
  }

  /** At every moment the records, the digests they list and the blobs of each store fit a listing. */
  ghost predicate Roomy(trace: seq<Moment>) {
    forall i | 0 <= i < |trace| :: Fits(trace[i].recs) && !Crowded(trace[i].stores)
  }

  predicate ImagesKept(steps: seq<Step>) {
    forall i | 0 <= i < |steps| :: !steps[i].AddImage? && !steps[i].ClearImages?
  }

  lemma {:induction false} ImagesMore(steps: seq<Step>, i: nat)
    requires i < |steps|
    ensures ImagesKept(steps[..i + 1]) <==>
              ImagesKept(steps[..i]) && !steps[i].AddImage? && !steps[i].ClearImages?
  {
    assert steps[..i + 1][i] == steps[i];
    assert forall j | 0 <= j < i :: steps[..i + 1][j] == steps[..i][j];
  }

  lemma {:induction false} MomentMore(trace: seq<Moment>, a: Moment, b: Moment)
    requires trace != [] && trace[|trace| - 1] == a
    ensures Calm(trace + [b]) <==> Calm(trace) && !b.short
    ensures Roomy(trace + [b]) <==> Roomy(trace) && Fits(b.recs) && !Crowded(b.stores)
    ensures Roomy(trace) ==> Fits(a.recs) && !Crowded(a.stores)
  {
    hide Fits, Crowded;
    var more := trace + [b];
    assert more[|trace|] == b;
    assert forall i | 0 <= i < |trace| :: more[i] == trace[i];
  }

  /** A bare name finds the installed version of it that was committed last, whatever order records are listed in. */
  ghost predicate FindsLatest(recs: Records, residents: Slots<Resident>, log: seq<Key>) {
    forall k, keys | IsLatest(recs, log, k) && Listing(keys, recs, residents) ::
      IsNewest(keys, recs, residents, k.name, k)
  }

  /** The image took the slot of its key, or a free one. */
  ghost predicate Registered(was: Slots<Resident>, r: Resident, now: Slots<Resident>) {
    exists k | 0 <= k < |was| :: now == was[k := Some(r)] && (was[k].Some? ==> was[k].value.key == r.key)
  }

  /** Every slot holds an image of another key. */
  predicate NoResidentSlot(residents: Slots<Resident>, key: Key) {
    forall i | 0 <= i < |residents| :: residents[i].Some? && residents[i].value.key != key
  }

  /** The image's place holds no other digest. */
  predicate PlaceFits(residents: Slots<Resident>, maps: Slots<Mapping>, r: Resident) {
    && (forall i | 0 <= i < |residents| && residents[i].Some? && residents[i].value.addr == r.addr ::
      residents[i].value.digest == r.digest)
    && (forall i | 0 <= i < |maps| && maps[i].Some? && maps[i].value.ptr == InFirmware(r.addr) ::
      maps[i].value.digest == r.digest)
  }

  lemma {:induction false} FitsThen(residents: Slots<Resident>, maps: Slots<Mapping>, r: Resident)
    requires PlaceFits(residents, maps, r)
    ensures forall i | 0 <= i < |residents| && residents[i].Some? && residents[i].value.addr == r.addr ::
              residents[i].value.digest == r.digest
    ensures forall i | 0 <= i < |maps| && maps[i].Some? && maps[i].value.ptr == InFirmware(r.addr) ::
              maps[i].value.digest == r.digest
  {
  }

  lemma {:induction false} ReplacedAll(recs: Records, residents: Slots<Resident>, key: Key, had: Option<Meta>)
    requires had == Entry(recs, residents, key)
    ensures key in recs && recs[key].Some? ==>
              had.Some? && forall d: Digest | Names(recs[key].value, d) :: d in Digests(had.value.layers)
  {
    if had.Some? {
      AllNamed(had.value);
    }
  }

  /** The layers, the topmost first, each at its place and of its length. */
  ghost predicate TopDown(maps: Slots<Mapping>, layers: seq<Layer>, ptrs: seq<Ptr>, lens: seq<nat>) {
    && |ptrs| == |lens| == |layers|
    && forall i | 0 <= i < |ptrs| ::
         At(maps, layers[|ptrs| - 1 - i].digest, ptrs[i]) && Long(maps, ptrs[i], lens[i])
  }

  lemma {:induction false} PlacedAt(maps: Slots<Mapping>, ds: seq<Digest>, ptrs: seq<Ptr>, lens: seq<nat>, n: nat)
    requires Placed(maps, ds, ptrs, lens) && n == |ptrs|
    ensures |lens| == n <= |ds| && forall i | 0 <= i < n :: At(maps, ds[..n][i], ptrs[i])
  {
    hide At, Long;
  }

  lemma {:induction false} PlacedTurned(maps: Slots<Mapping>, layers: seq<Layer>, ptrs: seq<Ptr>, lens: seq<nat>)
    requires Placed(maps, Turned(layers), ptrs, lens) && |ptrs| == |lens| == |layers|
    ensures TopDown(maps, layers, ptrs, lens)
  {
    hide At, Long;
  }

  lemma {:induction false} NamingNone(recs: Records, residents: Slots<Resident>, d: Digest)
    ensures Naming([], recs, residents, d) == 0
  {
  }

  lemma {:induction false} NamingMore(keys: seq<Key>, i: nat, recs: Records, residents: Slots<Resident>, d: Digest)
    requires i < |keys|
    ensures var e := Entry(recs, residents, keys[i]);
            Naming(keys[..i + 1], recs, residents, d)
              == Naming(keys[..i], recs, residents, d) + if e.Some? && Names(e.value, d) then 1 else 0
  {
    hide Entry, Names;
    assert keys[..i + 1][..i] == keys[..i];
  }

  /** The sequence is zero, or a record has it. */
  ghost predicate Reached(recs: Records, seqNo: uint32) {
    seqNo == 0 || exists k | k in recs :: recs[k].Some? && recs[k].value.installSeq == seqNo
  }

  /** The records with one more, or one replaced, of this sequence. */
  ghost predicate PutAs(was: Records, k: Key, now: Records, seqNo: uint32) {
    k in now && now[k].Some? && now == was[k := now[k]] && now[k].value.installSeq == seqNo
  }

  /** The counter moved up to a record's sequence, or stayed. */
  ghost predicate Synced(recs: Records, a: uint32, b: uint32) {
    b == a || Reached(recs, b)
  }

  /** The counter is one past what it was or what a record had. */
  ghost predicate Advanced(recs: Records, a: uint32, b: uint32) {
    exists s: uint32 :: Synced(recs, a, s) && b == (s + 1) % 0x1_0000_0000
  }

  lemma {:induction false} SyncedSame(recs: Records, a: uint32)
    ensures Synced(recs, a, a)
  {
  }

  lemma {:induction false} ReachedNone(recs: Records)
    ensures Reached(recs, 0)
  {
  }

  lemma {:induction false} ReachedBy(recs: Records, k: Key)
    requires k in recs && recs[k].Some?
    ensures Reached(recs, recs[k].value.installSeq)
  {
  }

  /** An image that was listed or waited for and is held nowhere now. */
  ghost predicate Lost(was: Option<Resident>, recs: Records, pending: Slots<Pending>, stores: seq<Depot>,
                       residents: Slots<Resident>)
  {
    && was.Some? && (Listed(recs, was.value.digest) || Waits(pending, was.value.digest))
    && !Present(stores, residents, was.value.digest)
  }

  lemma {:induction false} WaitsAt(pending: Slots<Pending>, k: nat)
    requires k < |pending| && pending[k].Some?
    ensures var p := pending[k].value; WaitsAs(pending, p.key, p.index, p.digest, p.length) && Waits(pending, p.digest)
  {
  }

  /** So a bare name that a load, a removal or a signing resolves is the version committed last. */
  lemma {:induction false} FoundIsLatest(want: Key, key: Key, keys: seq<Key>, recs: Records, residents: Slots<Resident>,
                                         log: seq<Key>, k: Key)
    requires want.version == "" && IsFound(want, key, keys, recs, residents) && FindsLatest(recs, residents, log)
    requires IsLatest(recs, log, k) && k.name == want.name
    ensures key == k
  {
    hide Listing, IsLatest, IsNewest;
    NewestUnique(keys, recs, residents, want.name, key, k);
  }

  // ---- A listing that goes stale ----

  lemma {:induction false} OnlyKey(keys: seq<Key>, key: Key)
    requires Distinct(keys) && key in keys && forall i | 0 <= i < |keys| :: keys[i] == key
    ensures keys == [key]
  {
    assert |keys| > 1 ==> keys[0] != keys[1];
  }

  /** The only record's digests are all there is to list. */
  lemma {:induction false} OneEntry(keys: seq<Key>, recs: Records, residents: Slots<Resident>, key: Key, m: Meta)
    requires Listing(keys, recs, residents) && recs == map[key := Some(m)]
    requires forall i | 0 <= i < |residents| :: residents[i].None?
    ensures Flat(keys, recs, residents) == Digests(m.layers)
  {
    hide Sorted, Digests;
    forall i | 0 <= i < |keys| ensures keys[i] == key {
      assert keys[i] in keys;
    }
    OnlyKey(keys, key);
    assert keys[..0] == [];
    FlatNone(recs, residents);
    assert [] + Digests(m.layers) == Digests(m.layers);
  }

  lemma {:induction false} OneFits(recs: Records, key: Key, m: Meta)
    requires recs == map[key := Some(m)] && |m.layers| == 1
    ensures Fits(recs)
  {
    forall d | d in ListedSet(recs) ensures d == m.layers[0].digest {
    }
    assert ListedSet(recs) <= {m.layers[0].digest};
    OneOrNone(ListedSet(recs), m.layers[0].digest);
  }

  lemma {:induction false} OneOrNone(all: set<Digest>, d: Digest)
    requires all <= {d}
    ensures |all| <= 1
  {
    assert all == {} || all == {d};
  }

  lemma {:induction false} NothingStored(stores: seq<Depot>, residents: Slots<Resident>, d: Digest)
    requires |stores| == 1 && stores[0].blobs == map[] && forall i | 0 <= i < |residents| :: residents[i].None?
    ensures !Present(stores, residents, d) && !Crowded(stores)
  {
  }

  lemma {:induction false} NothingFreed(was: seq<Depot>, now: seq<Depot>, ds: set<Digest>, recs: Records,
                                        pending: Slots<Pending>, maps: Slots<Mapping>)
    requires Freed(was, now, ds, recs, pending, maps) && |was| == 1 && was[0].blobs == map[]
    ensures |now| == 1 && now[0].blobs == map[]
  {
    hide Needed;
  }

  /** A registry whose one record names a layer held nowhere, as after an update of the firmware that carried it. */
  method WithoutLayer(key: Key, bytes: seq<byte>, m: Meta) returns (r: Registry)
    requires |m.layers| == 1 && m.layers[0].digest == Hash(bytes)
    ensures fresh(r) && r.Valid() && r.ready && !r.short && !r.bare && r.stage == Idle && |r.stores| == 1 && r.max == 1
    ensures r.recs == map[key := Some(m)] && !Present(r.stores, r.residents, Hash(bytes)) && Fits(r.recs)
    ensures (forall i: nat :: !r.fails(i) && r.takes(i) == |bytes|)
    ensures forall i | 0 <= i < |r.residents| :: r.residents[i].None?
  {
    hide Registry.Valid, Hash, Registry.Sound, Reached, AllStored, Present, Crowded, Fits, Registry.Faults, Freed,
      Addressed, Counted;
    var recs: Records := map[key := Some(m)];
    var stores := [Depot(map[], multiset{}, None)];
    EmptyAddressed(stores);
    r := new Registry(1, 0, stores, recs, _ => false, _ => |bytes|);
    OneFits(recs, key, m);
    NothingStored(stores, r.residents, Hash(bytes));
    r.EnsureReady();
    r.NeverFaulty(0);
    r.NeverFaulty(r.calls);
    NothingFreed(stores, r.stores, AllStored(stores), recs, r.pending, r.maps);
    NothingStored(r.stores, r.residents, Hash(bytes));
  }

  /** The blobs are listed, and then the layer's bytes staged: the cached listing lacks them, though nothing failed. */
  method StaleListing(key: Key, other: Key, bytes: seq<byte>, m: Meta) returns (r: Registry)
    requires bytes != [] && |m.layers| == 1 && m.layers[0].digest == Hash(bytes)
    ensures fresh(r) && r.Valid() && !r.short && r.visibleValid
    ensures Listing(r.shown, r.recs, r.residents)
    ensures r.visible == [] && Walk(Flat(r.shown, r.recs, r.residents), r.stores, r.residents, []) == [Hash(bytes)]
  {
    hide Registry.Valid, Hash, Listing, Flat, Walk, Shows, Registry.Sound, Present, Fits, Registry.Faults, Digests;
    r := WithoutLayer(key, bytes, m);
    r.NeverFaulty(r.calls);
    var none := r.BlobAt(0);
    r.NeverFaulty(r.calls);
    OneEntry(r.shown, r.recs, r.residents, key, m);
    assert Flat(r.shown, r.recs, r.residents) == [Hash(bytes)];
    WalkOne(Hash(bytes), r.stores, r.residents, []);
    r.PutLayer(other, bytes);
    WalkOne(Hash(bytes), r.stores, r.residents, []);
  }

  lemma {:induction false} EmptyAddressed(stores: seq<Depot>)
    requires |stores| == 1 && stores[0].blobs == map[]
    ensures Addressed(stores, Hash)
  {
    hide Hash;
  }
}
