/** The received frames of a radio: a queue that drops its oldest and tells its reader how many were lost. */
module LoraQueue {
  import opened Bytes
  import opened Ring

  const PAYLOAD_MAX := 255
  const RECORD_HEADER := 20
  const U32 := 0x1_0000_0000

  type int16 = v: int | -0x8000 <= v < 0x8000
  type uint64 = v: int | 0 <= v < 0x1_0000_0000_0000_0000
  type Payload = p: seq<byte> | |p| <= 255 witness []

  datatype Frame = Frame(rssi: int16, snr: int16, time: uint64, payload: Payload)

  /** A record as the reader gets it. */
  datatype Record = Record(frame: Frame, dropped: uint32)

  // ---- Bytes of a record ----

  function Put16(v: int16): (r: seq<byte>)
    ensures |r| == 2
  {
    var w := if v < 0 then v + 0x1_0000 else v;
    [w % 0x100, w / 0x100]
  }

  function Get16(p: seq<byte>): int16
    requires |p| == 2
  {
    var w := (p[0] as int) + 0x100 * (p[1] as int);
    if w >= 0x8000 then w - 0x1_0000 else w
  }

  function PutU64(v: uint64): (r: seq<byte>)
    ensures |r| == 8
  {
    Put32(v % U32) + Put32(v / U32)
  }

  function GetU64(p: seq<byte>): uint64
    requires |p| == 8
  {
    (Get32(p[..4]) as int) + U32 * (Get32(p[4..]) as int)
  }

  function HeaderBytes(r: Record): (b: seq<byte>)
    ensures |b| == RECORD_HEADER
  {
    [1, 0, |r.frame.payload|, 0] + Put16(r.frame.rssi) + Put16(r.frame.snr) + Put32(r.dropped) + PutU64(r.frame.time)
  }

  function RecordBytes(r: Record): (b: seq<byte>)
    ensures |b| == RECORD_HEADER + |r.frame.payload|
  {
    HeaderBytes(r) + r.frame.payload
  }

  /** Where each field of a record is; numbers have their low byte first, negative ones as two's complement. */
  lemma {:induction false} RecordLayout(r: Record)
    ensures var b, f := RecordBytes(r), r.frame;
            && b[0] == 1 && b[1] == 0 && b[2] == |f.payload| && b[3] == 0
            && (b[4] as int) + 0x100 * (b[5] as int) == f.rssi % 0x1_0000
            && (b[6] as int) + 0x100 * (b[7] as int) == f.snr % 0x1_0000
            && b[8..12] == Put32(r.dropped)
            && b[12..16] == Put32(f.time % U32) && b[16..20] == Put32(f.time / U32)
            && b[20..] == f.payload
  {
    hide Put32;
    var b, f := RecordBytes(r), r.frame;
    assert b[4] == Put16(f.rssi)[0] && b[5] == Put16(f.rssi)[1] && b[6] == Put16(f.snr)[0] && b[7] == Put16(f.snr)[1];
  }

  function AllBytes(rs: seq<Record>): seq<byte> {
    if rs == [] then [] else AllBytes(rs[..|rs| - 1]) + RecordBytes(rs[|rs| - 1])
  }

  /** The first record of a read, as its reader takes it apart. */
  function FirstRecord(b: seq<byte>): (r: Option<Record>)
    ensures r.Some? ==> |b| >= RECORD_HEADER + |r.value.frame.payload|
  {
    if |b| < RECORD_HEADER || |b| < RECORD_HEADER + b[2] then None
    else
      Some(Record(Frame(Get16(b[4..6]), Get16(b[6..8]), GetU64(b[12..20]), b[20..20 + b[2]]), Get32(b[8..12])))
  }

  /** A read taken apart record by record. */
  function Parse(b: seq<byte>): seq<Record> {
    var r := FirstRecord(b);
    if r.None? then [] else [r.value] + Parse(b[RECORD_HEADER + |r.value.frame.payload|..])
  }

  lemma {:induction false} Get16OfPut16(v: int16)
    ensures Get16(Put16(v)) == v
  {
  }

  lemma {:induction false} GetU64OfPutU64(v: uint64)
    ensures GetU64(PutU64(v)) == v
  {
    var p := PutU64(v);
    assert p[..4] == Put32(v % U32) && p[4..] == Put32(v / U32);
    Get32OfPut32(v % U32);
    Get32OfPut32(v / U32);
  }

  lemma {:induction false} FirstOfRecord(r: Record, rest: seq<byte>)
    ensures FirstRecord(RecordBytes(r) + rest) == Some(r)
  {
    var b := RecordBytes(r) + rest;
    var f := r.frame;
    assert b[4..6] == Put16(f.rssi) && b[6..8] == Put16(f.snr) && b[8..12] == Put32(r.dropped);
    assert b[12..20] == PutU64(f.time) && b[2] == |f.payload| && b[20..20 + b[2]] == f.payload;
    Get16OfPut16(f.rssi);
    Get16OfPut16(f.snr);
    Get32OfPut32(r.dropped);
    GetU64OfPutU64(f.time);
  }

  lemma {:induction false} AllBytesFront(rs: seq<Record>)
    requires rs != []
    ensures AllBytes(rs) == RecordBytes(rs[0]) + AllBytes(rs[1..])
  {
    hide RecordBytes;
    var n := |rs| - 1;
    var front, last := rs[..n], RecordBytes(rs[n]);
    if n == 0 {
      assert front == [] && rs[1..] == [];
    } else {
      AllBytesFront(front);
      var mid := AllBytes(front[1..]);
      assert rs[1..][..n - 1] == front[1..];
      assert AllBytes(rs[1..]) == mid + last;
      assert AllBytes(rs) == AllBytes(front) + last;
      assert (RecordBytes(rs[0]) + mid) + last == RecordBytes(rs[0]) + (mid + last);
    }
  }

  /** A reader recovers every record of a read. */
  lemma {:induction false} ParseOfAllBytes(rs: seq<Record>)
    ensures Parse(AllBytes(rs)) == rs
  {
    if rs != [] {
      hide FirstRecord, RecordBytes;
      AllBytesFront(rs);
      FirstOfRecord(rs[0], AllBytes(rs[1..]));
      var b := AllBytes(rs);
      assert b[RECORD_HEADER + |rs[0].frame.payload|..] == AllBytes(rs[1..]);
      ParseOfAllBytes(rs[1..]);
    }
  }

  // ---- What the reader can conclude ----

  /** A record delivered, and which of the accepted frames it is. */
  datatype Delivery = Delivery(index: nat, record: Record)

  /** The accepted frame delivered before the `i`th, or -1. */
  function Before(got: seq<Delivery>, i: nat): int
    requires i <= |got|
  {
    if i == 0 then -1 else got[i - 1].index
  }

  /** The `i`th record is a later frame than the one before it, and counts those lost in between. */
  ghost predicate Delivered(accepted: seq<Frame>, next: nat, got: seq<Delivery>, i: nat)
    requires i < |got| && next <= |accepted|
  {
    && Before(got, i) < got[i].index < next
    && got[i].record.frame == accepted[got[i].index]
    && got[i].record.dropped as int == (got[i].index - Before(got, i) - 1) % U32
  }

  ghost predicate AllDelivered(accepted: seq<Frame>, next: nat, got: seq<Delivery>)
    requires next <= |accepted|
  {
    forall i | 0 <= i < |got| :: Delivered(accepted, next, got, i)
  }

  /** Of the frames accepted in this ownership, the queue holds the latest, and each delivered record says how
      many were lost since the one before it. */
  ghost predicate Ledger(accepted: seq<Frame>, queue: seq<Frame>, got: seq<Delivery>, pending: uint32) {
    && |queue| <= |accepted|
    && queue == accepted[|accepted| - |queue|..]
    && AllDelivered(accepted, |accepted| - |queue|, got)
    && pending as int == (|accepted| - |queue| - Before(got, |got|) - 1) % U32
  }

  ghost function SumDropped(got: seq<Delivery>): nat {
    if got == [] then 0 else SumDropped(got[..|got| - 1]) + got[|got| - 1].record.dropped
  }

  lemma {:induction false} AcceptKeeps(accepted: seq<Frame>, queue: seq<Frame>, got: seq<Delivery>, pending: uint32,
                                       f: Frame)
    requires Ledger(accepted, queue, got, pending)
    ensures Ledger(accepted + [f], queue + [f], got, pending)
  {
    var next := |accepted| - |queue|;
    forall i | 0 <= i < |got| ensures Delivered(accepted + [f], next, got, i) {
      assert Delivered(accepted, next, got, i);
    }
  }

  lemma {:induction false} DropKeeps(accepted: seq<Frame>, queue: seq<Frame>, got: seq<Delivery>, pending: uint32)
    requires Ledger(accepted, queue, got, pending) && queue != []
    ensures Ledger(accepted, queue[1..], got, (pending + 1) % U32)
  {
    var next := |accepted| - |queue|;
    var after := next + 1;
    forall i | 0 <= i < |got| ensures Delivered(accepted, after, got, i) {
      assert Delivered(accepted, next, got, i);
    }
    Step(|accepted| - |queue| - Before(got, |got|) - 1);
  }

  lemma {:induction false} Step(n: int)
    ensures (n + 1) % U32 == (n % U32 + 1) % U32
  {
  }

  lemma {:induction false} DeliverKeeps(accepted: seq<Frame>, queue: seq<Frame>, got: seq<Delivery>, pending: uint32)
    requires Ledger(accepted, queue, got, pending) && queue != []
    ensures Ledger(accepted, queue[1..], got + [Delivery(|accepted| - |queue|, Record(queue[0], pending))], 0)
  {
    var next := |accepted| - |queue|;
    var got' := got + [Delivery(next, Record(queue[0], pending))];
    if got != [] {
      assert Delivered(accepted, next, got, |got| - 1);
    }
    var after := next + 1;
    forall i | 0 <= i < |got'| ensures Delivered(accepted, after, got', i) {
      if i < |got| {
        assert Delivered(accepted, next, got, i);
        assert got'[i] == got[i] && Before(got', i) == Before(got, i);
      } else {
        assert Before(got', i) == Before(got, |got|);
      }
    }
    assert queue[1..] == accepted[|accepted| - |queue[1..]|..];
  }

  /** With fewer frames than the counter wraps at, every accepted frame is delivered, queued, or counted as lost
      in exactly one place, and each record's count is exactly the frames lost before it. */
  lemma {:induction false} Conservation(accepted: seq<Frame>, queue: seq<Frame>, got: seq<Delivery>, pending: uint32)
    requires Ledger(accepted, queue, got, pending) && |accepted| < U32
    ensures |accepted| == |got| + SumDropped(got) + pending + |queue|
    ensures forall i | 0 <= i < |got| :: Exact(got, i)
  {
    hide SumDropped;
    var next := |accepted| - |queue|;
    forall i | 0 <= i < |got| ensures Exact(got, i) {
      assert Delivered(accepted, next, got, i);
    }
    if got != [] {
      assert Delivered(accepted, next, got, |got| - 1);
    }
    Telescope(got);
  }

  /** The count in the `i`th record is exactly the frames lost since the one before it. */
  ghost predicate Exact(got: seq<Delivery>, i: nat)
    requires i < |got|
  {
    got[i].record.dropped as int == got[i].index - Before(got, i) - 1
  }

  lemma {:induction false} Telescope(got: seq<Delivery>)
    requires forall i | 0 <= i < |got| :: Exact(got, i)
    ensures SumDropped(got) == Before(got, |got|) + 1 - |got|
  {
    if got != [] {
      var front := got[..|got| - 1];
      forall i | 0 <= i < |front| ensures Exact(front, i) {
        assert Exact(got, i) && front[i] == got[i] && Before(front, i) == Before(got, i);
      }
      Telescope(front);
      assert Exact(got, |got| - 1);
    }
  }

  /** Delivered records are in the order the frames came. */
  lemma {:induction false} InOrder(accepted: seq<Frame>, queue: seq<Frame>, got: seq<Delivery>, pending: uint32,
                                   i: nat, j: nat)
    requires Ledger(accepted, queue, got, pending) && i < j < |got|
    ensures got[i].index < got[j].index
    decreases j - i
  {
    assert Delivered(accepted, |accepted| - |queue|, got, j);
    if i < j - 1 {
      InOrder(accepted, queue, got, pending, i, j - 1);
    }
  }

  lemma {:induction false} LedgerSize(accepted: seq<Frame>, queue: seq<Frame>, got: seq<Delivery>, pending: uint32)
    requires Ledger(accepted, queue, got, pending)
    ensures |queue| <= |accepted|
  {
  }

  // ---- The queue ----

  class RxQueue {
    const q: array<Frame>
    var head: nat
    var count: nat
    var pendingDropped: uint32
    var rxFrames: uint32
    var rxDropped: uint32

    /** The frames accepted and the records delivered since the owner took the radio. */
    ghost var accepted: seq<Frame>
    ghost var got: seq<Delivery>

    ghost predicate Shape()
      reads this
    {
      2 <= q.Length && head < q.Length && count <= q.Length
    }

    ghost function Queue(): (s: seq<Frame>)
      requires Shape()
      reads this, q
      ensures |s| == count
    {
      View(q[..], head, count)
    }

    ghost predicate Valid()
      reads this, q
    {
      Shape() && Ledger(accepted, Queue(), got, pendingDropped)
    }

    constructor (len: nat)
      requires 2 <= len <= 64
      ensures Valid() && fresh(q) && q.Length == len && accepted == [] && got == []
    {
      q := new Frame[len](_ => Frame(0, 0, 0, []));
      head, count, pendingDropped, rxFrames, rxDropped := 0, 0, 0, 0, 0;
      accepted, got := [], [];
    }

    method DropOldest()
      requires Valid() && count > 0
      modifies this`head, this`count, this`pendingDropped, this`rxDropped
      ensures Valid() && Queue() == old(Queue())[1..]
    {
      hide Ledger, View;
      Popped(q[..], head, count);
      DropKeeps(accepted, Queue(), got, pendingDropped);
      SlotIsMod(head, 1, q.Length);
      head := (head + 1) % q.Length;
      count := count - 1;
      pendingDropped := (pendingDropped + 1) % U32;
      rxDropped := (rxDropped + 1) % U32;
    }

    /** Queues a frame while the radio is owned and receives; a full queue drops its oldest. */
    method Push(receiving: bool, crcOk: bool, f: Frame)
      requires Valid()
      modifies this, q
      ensures Valid() && got == old(got)
      ensures accepted == if receiving && crcOk then old(accepted) + [f] else old(accepted)
      ensures Queue() == if !(receiving && crcOk) then old(Queue())
                         else if old(count) < q.Length then old(Queue()) + [f] else old(Queue())[1..] + [f]
    {
      hide Ledger, View;
      if !crcOk || !receiving {
        return;
      }
      if count >= q.Length {
        DropOldest();
      }
      Pushed(q[..], head, count, f);
      AcceptKeeps(accepted, Queue(), got, pendingDropped, f);
      SlotIsMod(head, count, q.Length);
      q[(head + count) % q.Length] := f;
      count := count + 1;
      rxFrames := (rxFrames + 1) % U32;
      accepted := accepted + [f];
    }

    /** Whole records into a buffer of `nbyte`: as many as fit, none if the first does not. */
    method PopRecords(nbyte: nat) returns (buf: seq<byte>, tooSmall: bool, ghost records: seq<Record>)
      requires Valid()
      modifies this`head, this`count, this`pendingDropped, this`got
      ensures Valid() && accepted == old(accepted)
      ensures |buf| <= nbyte && buf == AllBytes(records)
      ensures old(got) <= got && |got| == |old(got)| + |records|
      ensures forall i | 0 <= i < |records| :: got[|old(got)| + i].record == records[i]
      ensures |records| <= |old(Queue())| && Queue() == old(Queue())[|records|..]
      ensures Queue() != [] ==> |buf| + RECORD_HEADER + |Queue()[0].payload| > nbyte
      ensures tooSmall <==> records == [] && old(Queue()) != []
    {
      hide Ledger, View, RecordBytes;
      buf, tooSmall, records := [], false, [];
      ghost var n := |got|;
      while count > 0
        invariant Valid()
        invariant |buf| <= nbyte && buf == AllBytes(records) && !tooSmall
        invariant (buf == []) == (records == [])
        invariant old(got) <= got && |got| == n + |records|
        invariant forall i | 0 <= i < |records| :: got[n + i].record == records[i]
        invariant |records| <= |old(Queue())| && Queue() == old(Queue())[|records|..]
        decreases count
      {
        Popped(q[..], head, count);
        var fr := q[head];
        if |buf| + RECORD_HEADER + |fr.payload| > nbyte {
          if |buf| == 0 {
            tooSmall := true;
          }
          break;
        }
        var r := Record(fr, pendingDropped);
        DeliverKeeps(accepted, Queue(), got, pendingDropped);
        LedgerSize(accepted, Queue(), got, pendingDropped);
        got := got + [Delivery(|accepted| - count, r)];
        assert (records + [r])[..|records|] == records;
        records := records + [r];
        buf := buf + RecordBytes(r);
        pendingDropped := 0;
        SlotIsMod(head, 1, q.Length);
        head := (head + 1) % q.Length;
        count := count - 1;
      }
    }

    /** The next owner starts from nothing. */
    method Release()
      requires Valid()
      modifies this
      ensures Valid() && count == 0 && pendingDropped == 0 && accepted == [] && got == []
    {
      head, count, pendingDropped := 0, 0, 0;
      accepted, got := [], [];
    }
  }
}
