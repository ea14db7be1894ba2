/** The in-memory store: blobs in a table of slots, the plain form of what a store keeps. */
module MemStore {
  import opened Bytes

  const MAX_BLOBS := 64

  datatype Status = Done | NoEntry | Busy | NoSpace

  datatype Slot = Slot(digest: Digest, data: seq<byte>, maps: nat)

  type Slots = seq<Option<Slot>>

  predicate Holds(slots: Slots, d: Digest) {
    exists i | 0 <= i < |slots| :: slots[i].Some? && slots[i].value.digest == d
  }

  /** No digest is in two slots. */
  ghost predicate Apart(slots: Slots) {
    forall i, j | 0 <= i < j < |slots| && slots[i].Some? && slots[j].Some? ::
      slots[i].value.digest != slots[j].value.digest
  }

  /** What the slots hold, as a map. */
  function ContentsOf(slots: Slots): map<Digest, seq<byte>> {
    if slots == [] then map[]
    else
      var last := slots[|slots| - 1];
      var rest := ContentsOf(slots[..|slots| - 1]);
      if last.Some? then rest[last.value.digest := last.value.data] else rest
  }

  function BytesIn(slots: Slots): nat {
    if slots == [] then 0
    else
      var last := slots[|slots| - 1];
      BytesIn(slots[..|slots| - 1]) + Size(last)
  }

  function Size(s: Option<Slot>): nat {
    if s.Some? then |s.value.data| else 0
  }

  lemma {:induction false} ContentsAt(slots: Slots, d: Digest)
    requires Apart(slots)
    ensures d in ContentsOf(slots) <==> Holds(slots, d)
    ensures forall i | 0 <= i < |slots| && slots[i].Some? && slots[i].value.digest == d ::
              d in ContentsOf(slots) && ContentsOf(slots)[d] == slots[i].value.data
  {
    if slots != [] {
      var n := |slots| - 1;
      var rest := slots[..n];
      ContentsAt(rest, d);
      if Holds(rest, d) {
        var i :| 0 <= i < |rest| && rest[i].Some? && rest[i].value.digest == d;
        assert slots[i] == rest[i];
      }
      if Holds(slots, d) && !(slots[n].Some? && slots[n].value.digest == d) {
        var i :| 0 <= i < |slots| && slots[i].Some? && slots[i].value.digest == d;
        assert rest[i] == slots[i];
      }
    }
  }

  /** Two tables that hold the same in each slot but one. */
  lemma {:induction false} Filled(slots: Slots, i: nat, s: Slot)
    requires Apart(slots) && i < |slots| && slots[i].None? && !Holds(slots, s.digest)
    ensures Apart(slots[i := Some(s)])
    ensures ContentsOf(slots[i := Some(s)]) == ContentsOf(slots)[s.digest := s.data]
    ensures BytesIn(slots[i := Some(s)]) == BytesIn(slots) + |s.data|
  {
    hide ContentsOf, BytesIn;
    var now := slots[i := Some(s)];
    forall d: Digest ensures d in ContentsOf(now) <==> d in ContentsOf(slots)[s.digest := s.data]
                     ensures d in ContentsOf(now) ==> ContentsOf(now)[d] == ContentsOf(slots)[s.digest := s.data][d]
    {
      SameElsewhere(slots, now, i, d);
    }
    BytesChange(slots, i, Some(s));
  }

  lemma {:induction false} Emptied(slots: Slots, i: nat)
    requires Apart(slots) && i < |slots| && slots[i].Some?
    ensures Apart(slots[i := None])
    ensures ContentsOf(slots[i := None]) == ContentsOf(slots) - {slots[i].value.digest}
    ensures BytesIn(slots[i := None]) == BytesIn(slots) - |slots[i].value.data|
  {
    hide ContentsOf, BytesIn;
    var now, e := slots[i := None], slots[i].value.digest;
    forall d: Digest ensures d in ContentsOf(now) <==> d in ContentsOf(slots) - {e}
                     ensures d in ContentsOf(now) ==> ContentsOf(now)[d] == (ContentsOf(slots) - {e})[d]
    {
      SameElsewhere(slots, now, i, d);
    }
    BytesChange(slots, i, None);
  }

  lemma {:induction false} SameElsewhere(a: Slots, b: Slots, i: nat, d: Digest)
    requires Apart(a) && Apart(b) && |a| == |b| && i < |a| && b == a[i := b[i]]
    ensures b[i].Some? && b[i].value.digest == d ==> d in ContentsOf(b) && ContentsOf(b)[d] == b[i].value.data
    ensures a[i].Some? && a[i].value.digest == d && !(b[i].Some? && b[i].value.digest == d) ==> d !in ContentsOf(b)
    ensures !(a[i].Some? && a[i].value.digest == d) && !(b[i].Some? && b[i].value.digest == d) ==>
              (d in ContentsOf(b) <==> d in ContentsOf(a))
                && (d in ContentsOf(a) ==> ContentsOf(a)[d] == ContentsOf(b)[d])
  {
    hide ContentsOf;
    ContentsAt(a, d);
    ContentsAt(b, d);
    if Holds(a, d) {
      var j :| 0 <= j < |a| && a[j].Some? && a[j].value.digest == d;
      assert j != i ==> b[j] == a[j];
    }
    if Holds(b, d) {
      var j :| 0 <= j < |b| && b[j].Some? && b[j].value.digest == d;
      assert j != i ==> b[j] == a[j];
    }
  }

  lemma {:induction false} BytesChange(slots: Slots, i: nat, s: Option<Slot>)
    requires i < |slots|
    ensures BytesIn(slots[i := s]) == BytesIn(slots) - Size(slots[i]) + Size(s)
  {
    var n := |slots| - 1;
    if i < n {
      BytesChange(slots[..n], i, s);
      assert slots[i := s][..n] == slots[..n][i := s];
    } else {
      assert slots[i := s][..n] == slots[..n];
    }
  }

  class MemStore {
    const limit: nat
    var slots: Slots
    var used: nat
    var staged: Option<seq<byte>>

    /** Which requests for memory fail, and how many were made. */
    const fails: nat -> bool
    var calls: nat

    ghost predicate Valid()
      reads this
    {
      |slots| == MAX_BLOBS && Apart(slots) && used == BytesIn(slots)
    }

    ghost function Contents(): map<Digest, seq<byte>>
      reads this
    {
      ContentsOf(slots)
    }

    constructor (limit: nat, fails: nat -> bool)
      ensures Valid() && Contents() == map[] && staged.None? && this.limit == limit && this.fails == fails
    {
      this.limit, this.fails, used, staged, calls := limit, fails, 0, None, 0;
      slots := seq(MAX_BLOBS, _ => None);
      new;
      Empty(slots);
    }

    method Find(d: Digest) returns (k: int)
      requires Valid()
      ensures -1 <= k < |slots|
      ensures k >= 0 ==>
                slots[k].Some? && slots[k].value.digest == d && d in Contents() && Contents()[d] == slots[k].value.data
      ensures k < 0 <==> d !in Contents()
      ensures k < 0 ==> !Holds(slots, d)
    {
      hide ContentsOf;
      ContentsAt(slots, d);
      for i := 0 to |slots|
        invariant forall j | 0 <= j < i :: !(slots[j].Some? && slots[j].value.digest == d)
      {
        if slots[i].Some? && slots[i].value.digest == d {
          return i;
        }
      }
      k := -1;
    }

    method StageBegin() returns (ok: bool)
      requires Valid() && staged.None?
      modifies this`staged, this`calls
      ensures Valid() && ok == !fails(old(calls)) && staged == if ok then Some([]) else None
      ensures calls == old(calls) + 1
    {
      ok := !fails(calls);
      calls := calls + 1;
      if ok {
        staged := Some([]);
      }
    }

    /** Takes all the bytes, or none when the limit or memory is reached. */
    method StageWrite(buf: seq<byte>) returns (ok: bool)
      requires Valid() && staged.Some?
      modifies this`staged, this`calls
      ensures Valid() && staged == Some(if ok then old(staged).value + buf else old(staged).value)
      ensures ok <==> (limit == 0 || used + |old(staged).value| + |buf| <= limit) && !fails(old(calls))
      ensures calls == old(calls) + if limit == 0 || used + |old(staged).value| + |buf| <= limit then 1 else 0
    {
      ok := limit == 0 || used + |staged.value| + |buf| <= limit;
      if ok {
        ok := !fails(calls);
        calls := calls + 1;
      }
      if ok {
        staged := Some(staged.value + buf);
      }
    }

    /** Keeps the staged bytes under a digest the store does not hold; the total counts them. */
    method StageEnd(d: Digest) returns (r: Status)
      requires Valid() && staged.Some?
      modifies this
      ensures Valid() && staged.None?
      ensures d in old(Contents()) ==> r == Done && Contents() == old(Contents())
      ensures d !in old(Contents()) ==>
                && (r == if forall i | 0 <= i < |old(slots)| :: old(slots)[i].Some? then NoSpace else Done)
                && Contents() == if r == Done then old(Contents())[d := old(staged).value] else old(Contents())
      ensures calls == old(calls) && (r == NoSpace ==> slots == old(slots))
    {
      hide ContentsOf, BytesIn, Apart;
      var k := Find(d);
      var data := staged.value;
      staged := None;
      if k >= 0 { return Done; }
      var i := FreeSlot();
      if i < 0 { return NoSpace; }
      Filled(slots, i, Slot(d, data, 0));
      slots := slots[i := Some(Slot(d, data, 0))];
      used := used + |data|;
      r := Done;
    }

    method FreeSlot() returns (k: int)
      ensures -1 <= k < |slots|
      ensures k >= 0 ==> slots[k].None?
      ensures k < 0 ==> forall i | 0 <= i < |slots| :: slots[i].Some?
    {
      for i := 0 to |slots|
        invariant forall j | 0 <= j < i :: slots[j].Some?
      {
        if slots[i].None? {
          return i;
        }
      }
      k := -1;
    }

    method StageAbort()
      requires Valid() && staged.Some?
      modifies this`staged
      ensures Valid() && staged.None?
    {
      staged := None;
    }

    /** Maps a blob: one more map of it, and its bytes. */
    method BlobMap(d: Digest) returns (r: Option<seq<byte>>)
      requires Valid()
      modifies this`slots
      ensures Valid() && Contents() == old(Contents())
      ensures r == if d in Contents() then Some(Contents()[d]) else None
      ensures forall e: Digest :: MapsOf(slots, e) == MapsOf(old(slots), e) + if r.Some? && e == d then 1 else 0
    {
      hide ContentsOf, BytesIn, Apart, MapsOf;
      var k := Find(d);
      if k < 0 { return None; }
      var s := slots[k].value;
      Remapped(slots, k, s.maps + 1);
      slots := slots[k := Some(s.(maps := s.maps + 1))];
      r := Some(s.data);
    }

    method BlobUnmap(k: nat)
      requires Valid() && k < |slots|
      modifies this`slots
      ensures Valid() && Contents() == old(Contents())
      ensures old(slots)[k].Some? && old(slots)[k].value.maps > 0 ==>
                forall e: Digest ::
                  MapsOf(slots, e) == MapsOf(old(slots), e) - if e == old(slots)[k].value.digest then 1 else 0
      ensures old(slots)[k].None? || old(slots)[k].value.maps == 0 ==> slots == old(slots)
    {
      hide ContentsOf, BytesIn, Apart, MapsOf;
      if slots[k].Some? && slots[k].value.maps > 0 {
        var s := slots[k].value;
        Remapped(slots, k, s.maps - 1);
        slots := slots[k := Some(s.(maps := s.maps - 1))];
      }
    }

    /** Drops a blob nothing maps. */
    method BlobDrop(d: Digest) returns (r: Status)
      requires Valid()
      modifies this`slots, this`used
      ensures Valid()
      ensures r == NoEntry <==> d !in old(Contents())
      ensures r == Busy <==> d in old(Contents()) && MapsOf(old(slots), d) > 0
      ensures r == Done ==> Contents() == old(Contents()) - {d}
      ensures r != Done ==> slots == old(slots) && (r == NoEntry || r == Busy)
    {
      hide ContentsOf, BytesIn, Apart;
      var k := Find(d);
      if k < 0 { return NoEntry; }
      MapsOfSlot(slots, k);
      if slots[k].value.maps > 0 { return Busy; }
      Emptied(slots, k);
      used := used - |slots[k].value.data|;
      slots := slots[k := None];
      r := Done;
    }
  }

  /** How many maps of a digest are out. */
  function MapsOf(slots: Slots, d: Digest): nat {
    if slots == [] then 0
    else
      var last := slots[|slots| - 1];
      MapsOf(slots[..|slots| - 1], d) + if last.Some? && last.value.digest == d then last.value.maps else 0
  }

  lemma {:induction false} MapsChange(slots: Slots, k: nat, maps: nat, d: Digest)
    requires k < |slots| && slots[k].Some?
    ensures MapsOf(slots[k := Some(slots[k].value.(maps := maps))], d)
         == MapsOf(slots, d) + if slots[k].value.digest == d then maps - slots[k].value.maps else 0
  {
    var n := |slots| - 1;
    var now := slots[k := Some(slots[k].value.(maps := maps))];
    if k < n {
      MapsChange(slots[..n], k, maps, d);
      assert now[..n] == slots[..n][k := now[k]];
    } else {
      assert now[..n] == slots[..n];
    }
  }

  lemma {:induction false} NoMapsOf(slots: Slots, d: Digest)
    requires !Holds(slots, d)
    ensures MapsOf(slots, d) == 0
  {
    if slots != [] {
      var n := |slots| - 1;
      HoldsMore(slots, n, d);
      NoMapsOf(slots[..n], d);
    }
  }

  lemma {:induction false} HoldsMore(slots: Slots, n: nat, d: Digest)
    requires n <= |slots|
    ensures Holds(slots[..n], d) ==> Holds(slots, d)
    ensures Apart(slots) && n < |slots| && slots[n].Some? ==> !Holds(slots[..n], slots[n].value.digest)
  {
    if Holds(slots[..n], d) {
      var i :| 0 <= i < n && slots[..n][i].Some? && slots[..n][i].value.digest == d;
      assert slots[i] == slots[..n][i];
    }
  }

  lemma {:induction false} MapsOfSlot(slots: Slots, k: nat)
    requires Apart(slots) && k < |slots| && slots[k].Some?
    ensures MapsOf(slots, slots[k].value.digest) == slots[k].value.maps
  {
    var n, d := |slots| - 1, slots[k].value.digest;
    if k < n {
      MapsOfSlot(slots[..n], k);
    } else {
      HoldsMore(slots, n, d);
      NoMapsOf(slots[..n], d);
    }
  }

  lemma {:induction false} Remapped(slots: Slots, k: nat, maps: nat)
    requires Apart(slots) && k < |slots| && slots[k].Some?
    ensures var now := slots[k := Some(slots[k].value.(maps := maps))];
            && Apart(now) && ContentsOf(now) == ContentsOf(slots) && BytesIn(now) == BytesIn(slots)
            && forall d: Digest ::
              MapsOf(now, d) == MapsOf(slots, d) + if slots[k].value.digest == d then maps - slots[k].value.maps else 0
  {
    hide ContentsOf, BytesIn, MapsOf;
    var now := slots[k := Some(slots[k].value.(maps := maps))];
    forall d: Digest ensures d in ContentsOf(now) <==> d in ContentsOf(slots)
                     ensures d in ContentsOf(now) ==> ContentsOf(now)[d] == ContentsOf(slots)[d]
    {
      SameElsewhere(slots, now, k, d);
      ContentsAt(slots, d);
    }
    BytesChange(slots, k, now[k]);
    forall d: Digest
      ensures MapsOf(now, d) == MapsOf(slots, d) + if slots[k].value.digest == d then maps - slots[k].value.maps else 0
    {
      MapsChange(slots, k, maps, d);
    }
  }

  lemma {:induction false} Empty(slots: Slots)
    requires forall i | 0 <= i < |slots| :: slots[i].None?
    ensures ContentsOf(slots) == map[] && BytesIn(slots) == 0
  {
    if slots != [] {
      Empty(slots[..|slots| - 1]);
    }
  }
}
