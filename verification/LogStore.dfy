/** The log store: a ring for each wapp, and the engine's own log kept across a resetting. */
module LogStore {
  import opened Bytes
  import opened LogText
  import opened Ring

  /** Milliseconds since boot, a 64-bit count. */
  type Uptime = ms: nat | ms < 0x1_0000_0000_0000_0000

  const NAME_MAX := 14
  const ENGINE := ".engine"
  const PREVIOUS := ".engine.prev"
  const MAGIC: uint32 := 0x574c4f47

  /** One line, begun or not, with what it adds to a log: a stamp if it begins here, then its bytes. */
  lemma {:induction false} RunText(mid: bool, run: seq<byte>, ms: nat)
    requires run != [] && forall i | 0 <= i < |run| - 1 :: run[i] != NEWLINE
    ensures Stamps(mid, run) == if mid then 0 else 1
    ensures Render(mid, run, if mid then [] else [ms]) == (if mid then [] else StampText(ms)) + run
  {
    hide StampText, Render;
    RenderRun(run);
    if !mid {
      assert Stamps(false, run) == 1 + Stamps(run[0] != NEWLINE, run[1..]);
      assert Stamps(true, run) == Stamps(run[0] != NEWLINE, run[1..]);
      assert [ms][1..] == [];
      RenderCons(false, run, [ms]);
      RenderCons(true, run, []);
      var rest := Render(run[0] != NEWLINE, run[1..], []);
      assert (StampText(ms) + [run[0]]) + rest == StampText(ms) + ([run[0]] + rest);
    }
  }

  /** A wapp's ring. */
  class LogRing {
    const buf: array<byte>
    var name: string
    var start: nat
    var len: nat
    var tick: nat
    var used: bool
    var midLine: bool

    /** Every byte appended since the slot was given out, and the times of the stamps among them. */
    ghost var raw: seq<byte>
    ghost var times: seq<nat>

    ghost predicate Shape()
      reads this`start, this`len
    {
      0 < buf.Length && start < buf.Length && len <= buf.Length
    }

    ghost function Kept(): (s: seq<byte>)
      requires Shape()
      reads this`start, this`len, buf
      ensures |s| == len
    {
      View(buf[..], start, len)
    }

    /** All that was ever written to the ring, stamps included. */
    ghost function Stream(): seq<byte>
      requires |times| == Stamps(false, raw)
      reads this`raw, this`times
    {
      Render(false, raw, times)
    }

    /** The ring holds the end of its stamped stream. */
    ghost predicate Valid()
      reads this, buf
    {
      && Shape()
      && |times| == Stamps(false, raw)
      && midLine == MidAfter(false, raw)
      && Kept() == Last(Stream(), buf.Length)
    }

    constructor (cap: nat)
      requires cap > 0
      ensures Valid() && fresh(buf) && buf.Length == cap && !used && raw == [] && times == [] && name == "" && tick == 0
    {
      buf := new byte[cap](_ => 0);
      name, start, len, tick, used, midLine := "", 0, 0, 0, false, false;
      raw, times := [], [];
    }

    /** Starts the slot over for another name. */
    method Clear(n: string)
      requires Valid()
      modifies this
      ensures Valid() && raw == [] && times == [] && len == 0 && !midLine && used && tick == 0
      ensures name == Cut(n)
    {
      name := Cut(n);
      start, len, tick, used, midLine := 0, 0, 0, true, false;
      raw, times := [], [];
    }

    method Touch(t: nat)
      requires Valid()
      modifies this`tick
      ensures Valid() && tick == t
    {
      tick := t;
    }

    method PushByte(b: byte)
      requires Shape()
      modifies this`start, this`len, buf
      ensures Shape() && Kept() == Last(old(Kept()) + [b], buf.Length)
    {
      hide View, Last, Slot;
      var cap := buf.Length;
      ghost var b0, was := buf[..], Kept();
      SlotIsMod(start, len, cap);
      var at := (start + len) % cap;
      if len < cap {
        Pushed(b0, start, len, b);
        LastShort(was + [b], cap);
        SlotInside(start, len, cap);
        buf[at] := b;
        assert buf[..] == b0[at := b];
        len := len + 1;
      } else {
        Overwrote(b0, start, b);
        SlotIsMod(start, 1, cap);
        SlotRound(start, cap);
        DropFirst(was, b, cap);
        buf[at] := b;
        assert buf[..] == b0[at := b];
        start := (start + 1) % cap;
      }
    }

    /** Writes bytes over the oldest once the ring is full. */
    method Push(p: seq<byte>)
      requires Shape()
      modifies this`start, this`len, buf
      ensures Shape() && Kept() == Last(old(Kept()) + p, buf.Length)
    {
      hide View, LogRing.Kept, Last;
      ghost var was := Kept();
      LastShort(was, buf.Length);
      assert was + p[..0] == was;
      for i := 0 to |p|
        invariant Shape() && Kept() == Last(was + p[..i], buf.Length)
      {
        LastLast(was + p[..i], [p[i]], buf.Length);
        assert was + p[..i] + [p[i]] == was + p[..i + 1];
        PushByte(p[i]);
      }
      assert p[..|p|] == p;
    }

    /** Stamps a new line. */
    method Begin(ms: Uptime) returns (stamp: seq<byte>)
      requires Valid() && !midLine
      modifies this`start, this`len, this`midLine, buf
      ensures Shape() && midLine && stamp == StampText(ms)
      ensures Kept() == Last(Stream() + stamp, buf.Length)
    {
      hide Render, Stamps, StampText, Last, LogRing.Kept;
      stamp := StampText(ms);
      LastLast(Stream(), stamp, buf.Length);
      Push(stamp);
      midLine := true;
    }

    /** Adds a stretch of one line, its stamp already written if it begins here. */
    method Extend(run: seq<byte>, ghost ms: nat)
      requires Shape() && |times| == Stamps(false, raw) && midLine
      requires Kept() == Last(Stream() + if MidAfter(false, raw) then [] else StampText(ms), buf.Length)
      requires run != [] && forall i | 0 <= i < |run| - 1 :: run[i] != NEWLINE
      modifies this`start, this`len, this`midLine, this`raw, this`times, buf
      ensures Valid() && raw == old(raw) + run
      ensures times == old(times) + if MidAfter(false, old(raw)) then [] else [ms]
    {
      hide Render, Stamps, StampText, Last, LogRing.Kept;
      ghost var stamp := if MidAfter(false, raw) then [] else StampText(ms);
      LineAdds(raw, times, run, ms);
      LastLast(Stream() + stamp, run, buf.Length);
      assert Stream() + stamp + run == Stream() + (stamp + run);
      if run[|run| - 1] == NEWLINE {
        midLine := false;
      }
      Push(run);
      times := times + if MidAfter(false, raw) then [] else [ms];
      raw := raw + run;
    }

    /** Copies out what the ring keeps from `offset` on. */
    method Read(cap: nat, offset: nat) returns (out: seq<byte>)
      requires Shape()
      ensures out == Slice(Kept(), cap, offset)
    {
      hide View;
      out := [];
      if offset < len {
        var m := if len - offset < cap then len - offset else cap;
        ghost var s := Kept();
        for j := 0 to m
          invariant out == s[offset..offset + j]
        {
          SlotIsMod(start, offset + j, buf.Length);
          out := out + [buf[(start + offset + j) % buf.Length]];
        }
      }
    }
  }

  /** What one more stretch of a line adds to a log that has taken `raw` so far. */
  lemma {:induction false} LineAdds(raw: seq<byte>, times: seq<nat>, run: seq<byte>, ms: nat)
    requires |times| == Stamps(false, raw)
    requires run != [] && forall i | 0 <= i < |run| - 1 :: run[i] != NEWLINE
    ensures var mid := MidAfter(false, raw);
            var more := times + if mid then [] else [ms];
            && |more| == Stamps(false, raw + run)
            && Render(false, raw + run, more) == Render(false, raw, times) + ((if mid then [] else StampText(ms)) + run)
            && MidAfter(false, raw + run) == (run[|run| - 1] != NEWLINE)
  {
    hide Stamps, Render, StampText;
    var mid := MidAfter(false, raw);
    RunText(mid, run, ms);
    StampsConcat(false, raw, run);
    RenderConcat(false, raw, run, times, if mid then [] else [ms]);
    MidAfterConcat(false, raw, run);
  }

  /** Stretches of one append, put together. */
  lemma {:induction false} Onward(raw: seq<byte>, a: seq<byte>, b: seq<byte>, s: seq<nat>, t: seq<nat>)
    requires |s| == Stamps(MidAfter(false, raw), a) && |t| == Stamps(MidAfter(false, raw + a), b)
    ensures var mid := MidAfter(false, raw);
            && |s + t| == Stamps(mid, a + b)
            && Render(mid, a + b, s + t) == Render(mid, a, s) + Render(MidAfter(false, raw + a), b, t)
  {
    hide Stamps, Render;
    var mid := MidAfter(false, raw);
    MidAfterConcat(false, raw, a);
    StampsConcat(mid, a, b);
    RenderConcat(mid, a, b, s, t);
  }

  /** The end of the line that holds byte `i`. */
  method LineEnd(p: seq<byte>, i: nat) returns (run: nat)
    requires i < |p|
    ensures i < run <= |p|
    ensures forall j | i <= j < run - 1 :: p[j] != NEWLINE
    ensures run < |p| ==> p[run - 1] == NEWLINE
  {
    run := i;
    while run < |p| && p[run] != NEWLINE
      invariant i <= run <= |p|
      invariant forall j | i <= j < run :: p[j] != NEWLINE
    {
      run := run + 1;
    }
    if run < |p| {
      run := run + 1;
    }
  }

  /** Two halves in memory a reset does not clear. */
  class Persist {
    var magic: uint32
    var live: uint32
    var lens: seq<nat>
    const halves: seq<array<byte>>

    ghost const Halves: set<object> := if |halves| == 2 then {halves[0], halves[1]} else {}

    ghost predicate Shape(cap: nat)
      reads this
    {
      && |halves| == 2 && halves[0] != halves[1]
      && halves[0].Length == cap && halves[1].Length == cap
      && |lens| == 2
    }

    ghost predicate Ready(cap: nat)
      reads this
    {
      Shape(cap) && magic == MAGIC && live <= 1 && lens[live as int] <= cap
    }

    /** What a half holds. */
    ghost function Text(i: nat, cap: nat): seq<byte>
      requires Shape(cap) && i < 2 && lens[i] <= cap
      reads this, Halves
    {
      halves[i][..lens[i]]
    }

    /** The half this boot writes, and the one the boot before it wrote. */
    ghost function Live(cap: nat): seq<byte>
      requires Ready(cap)
      reads this, Halves
    {
      Text(live as int, cap)
    }

    /** Makes the other half live and empty; says whether the half that was live can be read. */
    method TurnOver(cap: nat) returns (readable: bool)
      requires Shape(cap)
      modifies this
      ensures Ready(cap) && Live(cap) == []
      ensures readable == (old(magic) == MAGIC && old(live) <= 1 && old(lens[live as int]) <= cap)
      ensures readable ==> lens[1 - live as int] <= cap && Text(1 - live as int, cap) == old(Live(cap))
    {
      if magic != MAGIC || live > 1 {
        magic, live, lens := MAGIC, 0, [0, 0];
        readable := false;
      } else {
        readable := lens[live as int] <= cap;
        live := if live == 0 then 1 else 0;
        lens := lens[live as int := 0];
      }
    }

    /** Copies out what the boot before left. */
    method ReadOther(cap: nat, room: nat, offset: nat) returns (out: seq<byte>)
      requires Ready(cap) && lens[1 - live as int] <= cap
      ensures out == Slice(Text(1 - live as int, cap), room, offset)
    {
      var other := 1 - live as int;
      var have := lens[other];
      out := [];
      if offset < have {
        var m := if have - offset < room then have - offset else room;
        out := halves[other][offset..offset + m];
      }
    }

    /** Adds bytes to the live half, shifting out the oldest. */
    method Append(bytes: seq<byte>, cap: nat)
      requires Ready(cap) && cap > 0
      modifies this`lens, halves[live as int]
      ensures Ready(cap)
      ensures Live(cap) == Last(old(Live(cap)) + bytes, cap)
      ensures lens[1 - live as int] == old(lens[1 - live as int])
    {
      hide Last;
      var dst := halves[live as int];
      var used := lens[live as int];
      ghost var was := dst[..used];
      ShiftedIn(was, bytes, cap);
      if |bytes| == 0 {
        LastShort(was, cap);
        assert was + bytes == was;
        return;
      }
      var p := bytes;
      if |p| >= cap {
        p := p[|p| - cap..];
        used := 0;
      }
      if used + |p| > cap {
        var drop := used + |p| - cap;
        Move(dst, drop, used);
        used := used - drop;
      }
      Lay(dst, used, p);
      lens := lens[live as int := used + |p|];
    }
  }

  /** What a read from `offset` with room for `room` bytes gives. */
  function Slice(s: seq<byte>, room: nat, offset: nat): seq<byte> {
    if offset >= |s| then [] else s[offset..if |s| - offset < room then |s| else offset + room]
  }

  /** The oldest bytes give way to the new ones. */
  lemma {:induction false} ShiftedIn(was: seq<byte>, bytes: seq<byte>, cap: nat)
    requires |was| <= cap
    ensures |bytes| >= cap ==> Last(was + bytes, cap) == bytes[|bytes| - cap..]
    ensures |bytes| < cap < |was| + |bytes| ==> Last(was + bytes, cap) == was[|was| + |bytes| - cap..] + bytes
    ensures |was| + |bytes| <= cap ==> Last(was + bytes, cap) == was + bytes
  {
  }

  /** Brings the bytes from `drop` to `used` to the front of the array. */
  method Move(a: array<byte>, drop: nat, used: nat)
    requires drop <= used <= a.Length
    modifies a
    ensures a[..used - drop] == old(a[drop..used])
  {
    forall i | 0 <= i < used - drop {
      a[i] := a[i + drop];
    }
  }

  /** Writes bytes into the array at `at`. */
  method Lay(a: array<byte>, at: nat, p: seq<byte>)
    requires at + |p| <= a.Length
    modifies a
    ensures a[..at + |p|] == old(a[..at]) + p
  {
    forall i | 0 <= i < |p| {
      a[at + i] := p[i];
    }
  }

  /** A name as a ring keeps it. */
  function Cut(name: string): string {
    if |name| <= NAME_MAX then name else name[..NAME_MAX]
  }

  /** A ring as a value: whose it is, all that was logged to it since it was given out, and when it was last used. */
  datatype Page = Page(used: bool, name: string, raw: seq<byte>, times: seq<nat>, tick: nat)

  /** The first page given out to this name from `at` on, or the number of pages. */
  function FindIn(pages: seq<Page>, name: string, at: nat): (k: nat)
    requires at <= |pages|
    ensures at <= k <= |pages|
    ensures k < |pages| ==> pages[k].used && pages[k].name == name
    ensures forall i | at <= i < k :: !(pages[i].used && pages[i].name == name)
    decreases |pages| - at
  {
    if at == |pages| then at
    else if pages[at].used && pages[at].name == name then at
    else FindIn(pages, name, at + 1)
  }

  /** Which page a new name is given: the first unused, else the one used longest ago. */
  ghost predicate GivenOut(pages: seq<Page>, k: nat)
    requires k < |pages|
  {
    if pages[k].used
    then forall i | 0 <= i < |pages| :: pages[i].used && pages[k].tick <= pages[i].tick
    else forall i | 0 <= i < k :: pages[i].used
  }

  /** The rings by name, and the engine's mirror. */
  class Store {
    const rings: seq<LogRing>
    const ringCap: nat
    /** What the clock says each time it is read, and how often it was. */
    const uptime: nat -> Uptime
    var looks: nat
    const mem: Persist?
    const cap: nat
    var clock: nat
    var attached: bool
    var prevValid: bool

    /** The engine's stamped text since the live half was opened, and what the boot before left. */
    ghost var boot: seq<byte>
    ghost var previous: seq<byte>

    constructor (n: nat, ringCap: nat, mem: Persist?, cap: nat, uptime: nat -> Uptime, looks: nat)
      requires n > 0 && ringCap > 0 && (mem != null ==> mem.Shape(cap))
      ensures Valid() && !attached && !prevValid && this.mem == mem && this.cap == cap && this.ringCap == ringCap
      ensures this.uptime == uptime && this.looks == looks
      ensures |rings| == n && clock == 0 && forall i | 0 <= i < n :: fresh(rings[i]) && fresh(rings[i].buf)
      ensures forall i | 0 <= i < n :: PageOf(rings[i]) == Page(false, "", [], [], 0)
    {
      hide LogRing.Valid;
      var made: seq<LogRing> := [];
      for i := 0 to n
        invariant |made| == i
        invariant forall j | 0 <= j < i :: made[j].Valid() && fresh(made[j]) && fresh(made[j].buf)
        invariant forall j | 0 <= j < i ::
                    made[j].buf.Length == ringCap && PageOf(made[j]) == Page(false, "", [], [], 0)
        invariant forall j, l | 0 <= j < l < i :: made[j] != made[l] && made[j].buf != made[l].buf
      {
        var r := new LogRing(ringCap);
        made := made + [r];
      }
      rings := made;
      this.mem, this.cap, this.ringCap, this.uptime, this.looks := mem, cap, ringCap, uptime, looks;
      clock, attached, prevValid := 0, false, false;
      boot, previous := [], [];
    }

    ghost function Bufs(): set<object> {
      set i | 0 <= i < |rings| :: rings[i].buf as object
    }

    ghost function Memory(): set<object> {
      if mem == null then {} else {mem as object} + mem.Halves
    }

    /** No two of the store's buffers are the same. */
    ghost predicate Apart() {
      && |rings| > 0
      && (forall i, j | 0 <= i < j < |rings| :: rings[i] != rings[j] && rings[i].buf != rings[j].buf)
      && (mem != null ==> forall i | 0 <= i < |rings| :: rings[i].buf !in mem.Halves)
    }

    /** Each use of a ring has its own tick, so ticks order the rings by last use. */
    ghost predicate Ticking()
      reads this, rings
    {
      && (forall i | 0 <= i < |rings| && rings[i].used :: rings[i].tick <= clock)
      && (forall i, j | 0 <= i < j < |rings| && rings[i].used && rings[j].used :: rings[i].tick != rings[j].tick)
    }

    ghost predicate RingsOk()
      reads rings, Bufs()
    {
      forall i | 0 <= i < |rings| :: rings[i].Valid() && rings[i].buf.Length == ringCap && |rings[i].name| <= NAME_MAX
    }

    /** The live half is the end of this boot's engine text; the other is what the last boot left. */
    ghost predicate Mirrored()
      reads this`attached, this`prevValid, this`boot, this`previous, Memory()
    {
      && (mem != null ==> mem.Shape(cap))
      && (attached ==>
            && mem != null && cap > 0 && mem.Ready(cap)
            && mem.Live(cap) == Last(boot, cap)
            && (prevValid ==>
                  && mem.lens[1 - mem.live as int] <= cap
                  && mem.Text(1 - mem.live as int, cap) == previous))
    }

    ghost predicate Valid()
      reads this, rings, Bufs(), Memory()
    {
      Apart() && Ticking() && RingsOk() && Mirrored()
    }

    ghost function Pages(): (pages: seq<Page>)
      reads rings
      ensures |pages| == |rings| && forall i | 0 <= i < |rings| :: pages[i] == PageOf(rings[i])
    {
      seq(|rings|, i requires 0 <= i < |rings| reads rings => PageOf(rings[i]))
    }

    /** The store as a value. */
    ghost function State(): Journal
      reads this`clock, this`boot, this`prevValid, this`previous, this`looks, rings
    {
      Journal(Pages(), clock, boot, if prevValid then Some(previous) else None, looks)
    }

    lemma {:induction false} RingsOutside()
      requires Valid()
      ensures |rings| > 0
      ensures forall i, j | 0 <= i < |rings| && 0 <= j < |rings| && i != j ::
                rings[i] != rings[j] && rings[i].buf != rings[j].buf
      ensures forall i | 0 <= i < |rings| :: rings[i].buf as object !in Memory()
      ensures forall i | 0 <= i < |rings| :: rings[i] as object !in Memory()
    {
      hide Store.Mirrored, Store.RingsOk, Store.Ticking;
      if mem != null {
        forall i | 0 <= i < |rings| ensures rings[i] as object !in mem.Halves {
          assert forall o | o in mem.Halves :: o is array<byte>;
        }
      }
    }

    /** A stored name is shorter than the compared length, so only equal names match. */
    method Scan(name: string) returns (found: bool, k: nat)
      requires |rings| > 0
      ensures k < |rings| && found == (FindIn(Pages(), name, 0) < |rings|)
      ensures if found then k == FindIn(Pages(), name, 0) else GivenOut(Pages(), k)
    {
      ghost var pages := Pages();
      var free, lru := -1, 0;
      for i := 0 to |rings|
        invariant 0 <= lru < |rings| && lru <= i
        invariant FindIn(pages, name, 0) == FindIn(pages, name, i)
        invariant free < 0 ==> forall j | 0 <= j < i :: pages[j].used && pages[lru].tick <= pages[j].tick
        invariant free >= 0 ==> free < i && !pages[free].used && forall j | 0 <= j < free :: pages[j].used
      {
        if rings[i].used {
          if rings[i].name == name { return true, i; }
          if rings[i].tick < rings[lru].tick { lru := i; }
        } else if free < 0 {
          free := i;
        }
      }
      found, k := false, if free >= 0 then free else lru;
    }

    /** The ring for a name: its own, or one given out afresh. */
    method RingFor(name: string) returns (k: nat)
      requires Valid()
      modifies this`clock, rings
      ensures Valid() && k < |rings| && clock == old(clock) + 1
      ensures forall i | 0 <= i < |rings| && i != k :: unchanged(rings[i])
      ensures Chosen(old(Pages()), name, k) && PageOf(rings[k]) == Taken(old(Pages()), name, k).(tick := clock)
    {
      hide LogRing.Valid, Store.Mirrored, GivenOut, FindIn;
      RingsOutside();
      var found;
      found, k := Scan(name);
      if !found {
        rings[k].Clear(name);
      }
      clock := clock + 1;
      rings[k].Touch(clock);
    }

    /** Adds the engine's bytes to the live half. */
    method Mirror(bytes: seq<byte>)
      requires Mirrored()
      modifies this`boot, Memory()
      ensures Mirrored()
      ensures boot == if attached then old(boot) + bytes else old(boot)
    {
      hide Last;
      if attached {
        LastLast(boot, bytes, cap);
        mem.Append(bytes, cap);
        boot := boot + bytes;
      }
    }

    /** Adds a stretch of one line to a ring, and to the mirror when it is the engine's. */
    method AppendLine(sl: LogRing, run: seq<byte>, engine: bool) returns (ghost ts: seq<nat>)
      requires sl.Valid() && Mirrored() && sl as object !in Memory() && sl.buf !in Memory()
      requires run != [] && forall i | 0 <= i < |run| - 1 :: run[i] != NEWLINE
      modifies sl`start, sl`len, sl`midLine, sl`raw, sl`times, sl.buf, this`boot, this`looks, Memory()
      ensures sl.Valid() && Mirrored()
      ensures sl.raw == old(sl.raw) + run && sl.times == old(sl.times) + ts
      ensures |ts| == Stamps(MidAfter(false, old(sl.raw)), run)
      ensures boot == old(boot) + if engine && attached then Render(MidAfter(false, old(sl.raw)), run, ts) else []
      ensures ts == Stamped(uptime, old(looks), |ts|) && looks == old(looks) + |ts|
    {
      hide Render, Stamps, StampText, Last, LogRing.Kept, Store.Mirrored;
      ghost var mid := MidAfter(false, sl.raw);
      ghost var at: nat := 0;
      ghost var text: seq<byte> := [];
      ts := [];
      if !sl.midLine {
        var ms := uptime(looks);
        looks := looks + 1;
        var stamp := sl.Begin(ms);
        if engine { Mirror(stamp); }
        ts, at, text := [ms], ms, stamp;
      }
      RunText(mid, run, at);
      assert sl.Stream() + [] == sl.Stream();
      sl.Extend(run, at);
      if engine { Mirror(run); }
      assert old(boot) + text + run == old(boot) + (text + run);
    }

    /** The lines of one append, one by one. */
    method AppendLines(sl: LogRing, data: seq<byte>, engine: bool) returns (ghost ts: seq<nat>)
      requires sl.Valid() && Mirrored() && sl as object !in Memory() && sl.buf !in Memory()
      modifies sl`start, sl`len, sl`midLine, sl`raw, sl`times, sl.buf, this`boot, this`looks, Memory()
      ensures sl.Valid() && Mirrored()
      ensures sl.raw == old(sl.raw) + data && sl.times == old(sl.times) + ts
      ensures |ts| == Stamps(MidAfter(false, old(sl.raw)), data)
      ensures boot == old(boot) + if engine && attached then Render(MidAfter(false, old(sl.raw)), data, ts) else []
      ensures ts == Stamped(uptime, old(looks), |ts|) && looks == old(looks) + |ts|
    {
      hide Render, Stamps, MidAfter, StampText, Last, LogRing.Kept, LogRing.Valid, Store.Mirrored;
      ghost var raw0, mid := sl.raw, MidAfter(false, sl.raw);
      ts := [];
      var i := 0;
      NothingRendered(mid);
      while i < |data|
        invariant 0 <= i <= |data|
        invariant sl.Valid() && Mirrored()
        invariant sl.raw == raw0 + data[..i] && sl.times == old(sl.times) + ts
        invariant ts == Stamped(uptime, old(looks), |ts|) && looks == old(looks) + |ts|
        invariant |ts| == Stamps(mid, data[..i])
        invariant boot == old(boot) + if engine && attached then Render(mid, data[..i], ts) else []
      {
        var run := LineEnd(data, i);
        ghost var b0 := boot;
        ghost var t := AppendLine(sl, data[i..run], engine);
        Onward(raw0, data[..i], data[i..run], ts, t);
        StampedMore(uptime, old(looks), |ts|, |t|);
        assert data[..i] + data[i..run] == data[..run];
        ts := ts + t;
        i := run;
      }
      assert data[..i] == data;
    }

    /** Adds output to one ring of a store whose rings all stand. */
    method AppendTo(k: nat, sl: LogRing, data: seq<byte>, engine: bool) returns (ghost ts: seq<nat>)
      requires Valid() && k < |rings| && sl == rings[k]
      modifies sl`start, sl`len, sl`midLine, sl`raw, sl`times, sl.buf, this`boot, this`looks, Memory()
      ensures Valid()
      ensures sl.raw == old(sl.raw) + data && sl.times == old(sl.times) + ts
      ensures |ts| == Stamps(MidAfter(false, old(sl.raw)), data)
      ensures boot == old(boot) + if engine && attached then Render(MidAfter(false, old(sl.raw)), data, ts) else []
      ensures ts == Stamped(uptime, old(looks), |ts|) && looks == old(looks) + |ts|
    {
      hide Render, Stamps, MidAfter, StampText, Last, LogRing.Kept, LogRing.Valid, Store.Mirrored;
      RingsOutside();
      ts := AppendLines(sl, data, engine);
      assert forall i | 0 <= i < |rings| && i != k :: rings[i].Valid();
    }

    /** Adds output to a name's ring; nothing else's ring changes. A name is found afterwards unless it was cut. */
    method Append(name: string, data: seq<byte>) returns (ghost k: nat, ghost ts: seq<nat>)
      requires Valid()
      modifies this`clock, this`boot, this`looks, rings, Bufs(), Memory()
      ensures Valid() && k < |rings|
      ensures data == [] ==>
                && boot == old(boot) && clock == old(clock) && looks == old(looks)
                && forall i | 0 <= i < |rings| :: unchanged(rings[i])
      ensures forall i | 0 <= i < |rings| && i != k :: unchanged(rings[i]) && unchanged(rings[i].buf)
      ensures data != [] ==>
                && Chosen(old(Pages()), name, k) && clock == old(clock) + 1
                && ts == Stamped(uptime, old(looks), |ts|) && looks == old(looks) + |ts|
                && var p := Taken(old(Pages()), name, k);
                   && |ts| == Stamps(MidAfter(false, p.raw), data)
                   && PageOf(rings[k]) == p.(raw := p.raw + data, times := p.times + ts, tick := clock)
                   && var text := if name == ENGINE && attached then Render(MidAfter(false, p.raw), data, ts) else [];
                      boot == old(boot) + text
      ensures data != [] ==> (FindIn(Pages(), name, 0) < |rings| <==> |name| <= NAME_MAX)
    {
      hide Render, Stamps, MidAfter, Store.Valid, FindIn, GivenOut;
      k, ts := 0, [];
      RingsOutside();
      if data != [] {
        ShortNames();
        ghost var before := Pages();
        var at := RingFor(name);
        k := at;
        ts := AppendTo(at, rings[at], data, name == ENGINE);
        FoundAfter(before, name, at, Pages());
      }
    }

    lemma {:induction false} ShortNames()
      requires Valid()
      ensures Short(Pages())
    {
      hide LogRing.Valid, Store.Mirrored, Store.Ticking;
    }

    /** Marks a ring as just used. */
    method Use(k: nat)
      requires Valid() && k < |rings| && rings[k].used
      modifies this`clock, rings[k]
      ensures Valid() && clock == old(clock) + 1 && PageOf(rings[k]) == old(PageOf(rings[k])).(tick := clock)
    {
      hide LogRing.Valid, Store.Mirrored;
      RingsOutside();
      clock := clock + 1;
      rings[k].Touch(clock);
    }

    /** Reads a name's log, or what the boot before this one left. */
    method Read(name: string, room: nat, offset: nat) returns (out: seq<byte>, ghost f: nat)
      requires Valid() && room > 0
      modifies this`clock, rings
      ensures Valid() && f == FindIn(old(Pages()), name, 0)
      ensures name == PREVIOUS ==> out == if prevValid && attached then Slice(previous, room, offset) else []
      ensures name != PREVIOUS && f == |rings| ==> out == []
      ensures name == PREVIOUS || f == |rings| ==>
                clock == old(clock) && forall i | 0 <= i < |rings| :: unchanged(rings[i])
      ensures name != PREVIOUS && f < |rings| ==>
                && clock == old(clock) + 1 && PageOf(rings[f]) == old(PageOf(rings[f])).(tick := clock)
                && (forall i | 0 <= i < |rings| && i != f :: unchanged(rings[i]))
                && rings[f].Valid() && out == Slice(Last(rings[f].Stream(), ringCap), room, offset)
    {
      hide Last, Slice, Render, Stamps, FindIn, LogRing.Kept, GivenOut, Store.Mirrored, LogRing.Valid;
      RingsOutside();
      out, f := [], FindIn(Pages(), name, 0);
      if name == PREVIOUS {
        if prevValid && attached {
          out := ReadPrevious(room, offset);
        }
      } else {
        var found, k := Scan(name);
        if found {
          Use(k);
          out := ReadRing(k, room, offset);
        }
      }
    }

    method ReadPrevious(room: nat, offset: nat) returns (out: seq<byte>)
      requires Valid() && prevValid && attached
      ensures Valid() && out == Slice(previous, room, offset)
    {
      hide Last, Slice, LogRing.Valid;
      out := mem.ReadOther(cap, room, offset);
    }

    method ReadRing(k: nat, room: nat, offset: nat) returns (out: seq<byte>)
      requires Valid() && k < |rings|
      ensures rings[k].Valid() && out == Slice(Last(rings[k].Stream(), ringCap), room, offset)
    {
      hide Last, Slice, Render, Stamps, LogRing.Kept, Store.Mirrored, Store.Ticking, Store.Apart;
      out := rings[k].Read(room, offset);
    }

    /** Turns the memory a reset leaves alone over to this boot: the half last written is kept. */
    method Open()
      requires Valid() && !attached && mem != null && cap > 0
      modifies this`attached, this`prevValid, this`boot, this`previous, mem
      ensures Valid() && attached && boot == []
      ensures prevValid == (old(mem.magic) == MAGIC && old(mem.live) <= 1 && old(mem.lens[mem.live as int]) <= cap)
      ensures prevValid ==> previous == old(mem.Live(cap))
    {
      hide Last, LogRing.Valid;
      LastShort([], cap);
      if mem.magic == MAGIC && mem.live <= 1 && mem.lens[mem.live as int] <= cap {
        previous := mem.Live(cap);
      }
      prevValid := mem.TurnOver(cap);
      attached, boot := true, [];
      assert RingsOk();
    }

    /** Opens this boot's half, once, and logs in it why the last boot ended. */
    method Attach(reason: seq<byte>) returns (ghost k: nat, ghost ts: seq<nat>)
      requires Valid()
      modifies this, rings, Bufs(), Memory()
      ensures Valid()
      ensures old(attached) || mem == null || cap == 0 ==>
                attached == old(attached) && prevValid == old(prevValid) && boot == old(boot)
                  && previous == old(previous)
      ensures !old(attached) && mem != null && cap > 0 ==>
                && attached
                && prevValid == (old(mem.magic) == MAGIC && old(mem.live) <= 1 && old(mem.lens[mem.live as int]) <= cap)
                && (prevValid ==> previous == old(mem.Live(cap)))
                && var before := if prevValid then Some(previous) else None;
                   Wrote(Journal(old(Pages()), old(clock), [], before, old(looks)), uptime, ENGINE, reason, k, ts,
                         State())
    {
      hide Last, Render, Stamps, FindIn, Store.Valid, GivenOut, MidAfter;
      k, ts := 0, [];
      if !attached && mem != null && cap > 0 {
        Open();
        k, ts := Append(ENGINE, reason);
        assert reason != [] ==> Pages() == old(Pages())[k := PageOf(rings[k])];
        assert reason == [] ==> Pages() == old(Pages());
      }
    }

    method Detach()
      requires Valid()
      modifies this`attached, this`prevValid
      ensures Valid() && !attached && !prevValid
    {
      attached, prevValid := false, false;
    }
  }

  /** What the clock says on the next `n` reads. */
  ghost function Stamped(uptime: nat -> Uptime, at: nat, n: nat): (ts: seq<nat>)
    ensures |ts| == n && forall i | 0 <= i < n :: ts[i] == uptime(at + i)
  {
    seq(n, i requires 0 <= i => uptime(at + i))
  }

  lemma {:induction false} StampedMore(uptime: nat -> Uptime, at: nat, n: nat, m: nat)
    ensures Stamped(uptime, at, n) + Stamped(uptime, at + n, m) == Stamped(uptime, at, n + m)
  {
  }

  ghost function PageOf(r: LogRing): Page
    reads r
  {
    Page(r.used, r.name, r.raw, r.times, r.tick)
  }

  /** The log as a value: the pages, the engine's text of this boot, what is left of the one before, and how often the
      clock was read. */
  datatype Journal = Journal(pages: seq<Page>, clock: nat, boot: seq<byte>, before: Option<seq<byte>>,
                             looks: nat)

  /** The page output of a name goes to. */
  ghost predicate Chosen(pages: seq<Page>, name: string, k: nat) {
    k < |pages| && if FindIn(pages, name, 0) < |pages| then k == FindIn(pages, name, 0) else GivenOut(pages, k)
  }

  /** That page as output of the name finds it: its own, or emptied for it. */
  ghost function Taken(pages: seq<Page>, name: string, k: nat): Page
    requires k < |pages|
  {
    if FindIn(pages, name, 0) < |pages| then pages[k] else Page(true, Cut(name), [], [], 0)
  }

  ghost predicate Short(pages: seq<Page>) {
    forall i | 0 <= i < |pages| :: |pages[i].name| <= NAME_MAX
  }

  /** Output reaches its page, stamped where a line begins there, and the engine's reaches this boot's text. */
  ghost predicate Wrote(a: Journal, uptime: nat -> Uptime, name: string, data: seq<byte>, k: nat, ts: seq<nat>,
                        b: Journal) {
    if data == [] then b == a
    else
      && Chosen(a.pages, name, k)
      && var p := Taken(a.pages, name, k);
         && |ts| == Stamps(MidAfter(false, p.raw), data)
         && ts == Stamped(uptime, a.looks, |ts|) && b.looks == a.looks + |ts|
         && b.pages == a.pages[k := p.(raw := p.raw + data, times := p.times + ts, tick := a.clock + 1)]
         && b.clock == a.clock + 1 && b.before == a.before
         && b.boot == a.boot + if name == ENGINE then Render(MidAfter(false, p.raw), data, ts) else []
  }

  /** A read gives the end of the page's stamped text, or of the last boot's; it counts as a use of the page. */
  ghost predicate Gave(a: Journal, name: string, room: nat, offset: nat, ringCap: nat, out: seq<byte>, b: Journal) {
    var f := FindIn(a.pages, name, 0);
    if room == 0 then b == a && out == []
    else if name == PREVIOUS then b == a && out == if a.before.Some? then Slice(a.before.value, room, offset) else []
    else if f == |a.pages| then b == a && out == []
    else
      && |a.pages[f].times| == Stamps(false, a.pages[f].raw)
      && out == Slice(Last(Render(false, a.pages[f].raw, a.pages[f].times), ringCap), room, offset)
      && b == a.(pages := a.pages[f := a.pages[f].(tick := a.clock + 1)], clock := a.clock + 1)
  }

  function Blank(n: nat): (r: seq<Page>)
    ensures |r| == n && forall i | 0 <= i < n :: r[i] == Page(false, "", [], [], 0)
  {
    seq(n, _ => Page(false, "", [], [], 0))
  }

  /** What stays the same for a store over resets: the sizes, and what its clock will say. */
  datatype Setting = Setting(ringCap: nat, cap: nat, uptime: nat -> Uptime)

  ghost function SettingOf(st: Store): Setting {
    Setting(st.ringCap, st.cap, st.uptime)
  }

  /** One event: what was logged, read or, by a reset, lost; and what the next boot reads of this one. */
  ghost predicate Next(a: Journal, e: Event, setting: Setting, k: nat, ts: seq<nat>, out: seq<byte>, b: Journal) {
    match e
    case Output(name, data) => Wrote(a, setting.uptime, name, data, k, ts, b) && out == []
    case Query(name, room, offset) => Gave(a, name, room, offset, setting.ringCap, out, b)
    case Restart(reason) =>
      var empty := Journal(Blank(|a.pages|), 0, [], Some(Last(a.boot, setting.cap)), a.looks);
      Wrote(empty, setting.uptime, ENGINE, reason, k, ts, b) && out == []
  }

  /** A reset: the rings are lost, the memory is not, and the last boot's engine log is readable. */
  method Reset(st: Store, reason: seq<byte>) returns (next: Store, ghost k: nat, ghost ts: seq<nat>)
    requires st.Valid() && st.ringCap > 0
    modifies st.Memory()
    ensures next.Valid() && next.mem == st.mem && next.cap == st.cap && fresh(next)
    ensures |next.rings| == |st.rings| && next.ringCap == st.ringCap && next.uptime == st.uptime
    ensures forall i | 0 <= i < |next.rings| :: fresh(next.rings[i]) && fresh(next.rings[i].buf)
    ensures next.attached == (st.mem != null && st.cap > 0)
    ensures st.attached ==>
              var before := Some(Last(old(st.boot), st.cap));
              Wrote(Journal(Blank(|st.rings|), 0, [], before, st.looks), st.uptime, ENGINE, reason, k, ts, next.State())
  {
    hide Last, Wrote, LogRing.Valid;
    ghost var b0 := st.boot;
    Sized(st);
    next := new Store(|st.rings|, st.ringCap, st.mem, st.cap, st.uptime, st.looks);
    assert next.Pages() == Blank(|st.rings|);
    k, ts := next.Attach(reason);
  }

  datatype Event =
    | Output(name: string, data: seq<byte>)
    | Query(name: string, room: nat, offset: nat)
    | Restart(reason: seq<byte>)

  /** One event; a reset gives a new store over the same memory. */
  method Do(st: Store, e: Event) returns (next: Store, out: seq<byte>, ghost k: nat, ghost ts: seq<nat>)
    requires st.Valid() && st.attached
    modifies st, st.rings, st.Bufs(), st.Memory()
    ensures next.Valid() && next.attached && next.mem == st.mem && SettingOf(next) == SettingOf(st)
    ensures Next(old(st.State()), e, SettingOf(st), k, ts, out, next.State())
    ensures !e.Restart? ==> next == st
    ensures e.Restart? ==>
              fresh(next) && forall j | 0 <= j < |next.rings| :: fresh(next.rings[j]) && fresh(next.rings[j].buf)
  {
    hide Last, Render, Stamps, Store.Valid, FindIn, GivenOut, LogRing.Valid, Slice, MidAfter;
    Holding(st);
    Sized(st);
    next, out, k, ts := st, [], 0, [];
    ghost var before := st.Pages();
    match e
    case Output(name, data) =>
      k, ts := st.Append(name, data);
      assert st.Pages() == if data == [] then before else before[k := PageOf(st.rings[k])];
    case Query(name, room, offset) =>
      if room > 0 {
        ghost var f;
        Streams(st);
        out, f := st.Read(name, room, offset);
        assert st.Pages() == if f == |before| || name == PREVIOUS then before else before[f := PageOf(st.rings[f])];
      } else {
        assert st.Pages() == before;
      }
    case Restart(reason) =>
      next, k, ts := Reset(st, reason);
  }

  /**
   * Any run of output, reads and resets is a run of the log as a value, event by event; and the live half is the end of
   * the engine's text of this boot, whatever the half holds.
   */
  method Run(st0: Store, events: seq<Event>)
    returns (st: Store, outs: seq<seq<byte>>, ghost trace: seq<Journal>, ghost ks: seq<nat>,
             ghost stamps: seq<seq<nat>>)
    requires st0.Valid() && st0.attached
    modifies st0, st0.rings, st0.Bufs(), st0.Memory()
    ensures st.Valid() && st.attached && SettingOf(st) == SettingOf(st0)
    ensures Legal(trace, events, SettingOf(st0), ks, stamps, outs)
    ensures trace[0] == old(st0.State()) && trace[|events|] == st.State()
    ensures st.mem != null && st.mem.Ready(st.cap) && st.mem.Live(st.cap) == Last(st.boot, st.cap)
  {
    hide Last, Store.Valid, Next;
    st, outs, trace, ks, stamps := st0, [], [st0.State()], [], [];
    for i := 0 to |events|
      invariant st.Valid() && st.attached && st.mem == st0.mem && SettingOf(st) == SettingOf(st0)
      invariant |outs| == |ks| == |stamps| == i && |trace| == i + 1
      invariant trace[0] == old(st0.State()) && trace[i] == st.State()
      invariant forall j | 0 <= j < i ::
                  Next(trace[j], events[j], SettingOf(st0), ks[j], stamps[j], outs[j], trace[j + 1])
      invariant st == st0
                || (fresh(st) && forall j | 0 <= j < |st.rings| :: fresh(st.rings[j]) && fresh(st.rings[j].buf))
    {
      var out;
      ghost var k, ts;
      st, out, k, ts := Do(st, events[i]);
      outs, trace, ks, stamps := outs + [out], trace + [st.State()], ks + [k], stamps + [ts];
    }
    Holding(st);
  }

  lemma {:induction false} Holding(st: Store)
    requires st.Valid() && st.attached
    ensures st.mem != null && st.cap > 0 && st.mem.Ready(st.cap) && st.mem.Live(st.cap) == Last(st.boot, st.cap)
  {
    hide Last, LogRing.Valid;
  }

  lemma {:induction false} Sized(st: Store)
    requires st.Valid()
    ensures |st.rings| > 0 && st.ringCap > 0
  {
    hide Store.Mirrored, Store.Ticking;
    assert st.rings[0].Valid();
  }

  lemma {:induction false} Streams(st: Store)
    requires st.Valid()
    ensures forall i | 0 <= i < |st.rings| :: |st.rings[i].times| == Stamps(false, st.rings[i].raw)
  {
    hide Store.Mirrored, Store.Ticking, Stamps;
  }

  // ---- What a name finds ----

  /** After output, a name is found exactly when it was not cut. */
  lemma {:induction false} FoundAfter(before: seq<Page>, name: string, k: nat, now: seq<Page>)
    requires Short(before) && Chosen(before, name, k) && |now| == |before|
    requires forall i | 0 <= i < |now| && i != k :: now[i] == before[i]
    requires now[k].used && now[k].name == Taken(before, name, k).name
    ensures FindIn(now, name, 0) < |now| <==> |name| <= NAME_MAX
  {
    hide GivenOut;
  }

  /** A name cut to fit leaves its output under the shorter name, which finds it. */
  lemma {:induction false} CutNameAliases(a: Journal, uptime: nat -> Uptime, name: string, data: seq<byte>, k: nat,
                                          ts: seq<nat>, b: Journal)
    requires Wrote(a, uptime, name, data, k, ts, b) && data != [] && Short(a.pages) && |name| > NAME_MAX
    requires FindIn(a.pages, Cut(name), 0) == |a.pages|
    ensures FindIn(b.pages, name, 0) == |b.pages| && FindIn(b.pages, Cut(name), 0) == k && b.pages[k].raw == data
  {
    hide GivenOut, Stamps, Render, MidAfter;
    FoundAfter(a.pages, name, k, b.pages);
    assert [] + data == data;
  }

  /** Such a name, on an empty log. */
  lemma {:induction false} LongNameLost(uptime: nat -> Uptime, data: seq<byte>)
    requires data != []
    ensures var name, a := "temperature.log", Journal(Blank(1), 0, [], None, 0);
            var ts := Stamped(uptime, 0, Stamps(false, data));
            var b := Journal([Page(true, "temperature.lo", data, ts, 1)], 1, [], None, |ts|);
            && Wrote(a, uptime, name, data, 0, ts, b)
            && FindIn(b.pages, name, 0) == 1 && FindIn(b.pages, "temperature.lo", 0) == 0
  {
    hide Stamps, Render;
    var name, a := "temperature.log", Journal(Blank(1), 0, [], None, 0);
    var ts := Stamped(uptime, 0, Stamps(false, data));
    assert Cut(name) == "temperature.lo";
    assert FindIn(a.pages, name, 0) == 1;
    assert [] + data == data && [] + ts == ts;
  }

  // ---- What a run leaves ----

  ghost predicate Legal(trace: seq<Journal>, events: seq<Event>, setting: Setting, ks: seq<nat>,
                        stamps: seq<seq<nat>>, outs: seq<seq<byte>>)
  {
    && |outs| == |ks| == |stamps| == |events| && |trace| == |events| + 1
    && forall i | 0 <= i < |events| :: Next(trace[i], events[i], setting, ks[i], stamps[i], outs[i], trace[i + 1])
  }

  /** What was logged to a name, in order. */
  function Logged(events: seq<Event>, name: string): seq<byte> {
    if events == [] then []
    else
      var e := events[|events| - 1];
      Logged(events[..|events| - 1], name) + if e.Output? && e.name == name then e.data else []
  }

  lemma {:induction false} NothingLogged(events: seq<Event>, name: string)
    requires events != []
    ensures Logged(events[1..1], name) == []
  {
  }

  lemma {:induction false} LoggedMore(events: seq<Event>, from: nat, n: nat, name: string)
    requires from < n <= |events|
    ensures var e := events[n - 1];
            Logged(events[from..n], name)
              == Logged(events[from..n - 1], name) + if e.Output? && e.name == name then e.data else []
  {
    assert events[from..n][..n - from - 1] == events[from..n - 1];
  }

  /** The page is the name's, and no other is. */
  ghost predicate Alone(pages: seq<Page>, name: string, k: nat) {
    && k < |pages| && pages[k].used && pages[k].name == name
    && forall i | 0 <= i < |pages| && i != k :: !(pages[i].used && pages[i].name == name)
  }

  /** The event is no reset, and logs to no longer name that is cut to this one. */
  predicate Plain(e: Event, name: string) {
    !e.Restart? && (e.Output? && Cut(e.name) == name ==> e.name == name)
  }

  /** A page still a name's has taken what was logged to the name, and only that. */
  lemma {:induction false} PageStep(a: Journal, e: Event, setting: Setting, k: nat, ts: seq<nat>, out: seq<byte>,
                                    b: Journal, name: string, at: nat)
    requires Next(a, e, setting, k, ts, out, b) && Plain(e, name) && Alone(a.pages, name, at)
    requires at < |b.pages| && b.pages[at].name == name
    ensures Alone(b.pages, name, at)
    ensures var more := if e.Output? && e.name == name then e.data else [];
            && b.pages[at].raw == a.pages[at].raw + more
            && (more == [] ==> b.pages[at].times == a.pages[at].times)
            && (more != [] ==>
                  && |ts| == Stamps(MidAfter(false, a.pages[at].raw), more)
                  && b.pages[at].times == a.pages[at].times + ts)
  {
    hide GivenOut, Stamps, Render, MidAfter, Slice, Last;
    assert FindIn(a.pages, name, 0) == at;
    assert a.pages[at].raw + [] == a.pages[at].raw;
  }

  /** A ring not given to another name over a run reads as the end of its stamped text, and that text is what was
      logged to the name. */
  lemma {:induction false} PageOverRun(trace: seq<Journal>, events: seq<Event>, setting: Setting, ks: seq<nat>,
                                       stamps: seq<seq<nat>>, outs: seq<seq<byte>>, name: string, at: nat, n: nat)
    requires Legal(trace, events, setting, ks, stamps, outs) && n <= |events| && Alone(trace[0].pages, name, at)
    requires forall i | 0 <= i < n :: Plain(events[i], name)
    requires forall i | 0 <= i <= n :: at < |trace[i].pages| && trace[i].pages[at].name == name
    ensures Alone(trace[n].pages, name, at)
    ensures trace[n].pages[at].raw == trace[0].pages[at].raw + Logged(events[..n], name)
  {
    hide Next, Plain;
    if n == 0 {
      assert events[..0] == [];
      assert trace[0].pages[at].raw + [] == trace[0].pages[at].raw;
    } else {
      PageOverRun(trace, events, setting, ks, stamps, outs, name, at, n - 1);
      PageStep(trace[n - 1], events[n - 1], setting, ks[n - 1], stamps[n - 1], outs[n - 1], trace[n], name, at);
      assert events[..n][..n - 1] == events[..n - 1];
    }
  }

  /** The boot's text is the engine's page, stamped. */
  ghost predicate BootIs(j: Journal, at: nat) {
    && at < |j.pages| && |j.pages[at].times| == Stamps(false, j.pages[at].raw)
    && j.boot == Render(false, j.pages[at].raw, j.pages[at].times)
  }

  lemma {:induction false} BootStep(a: Journal, e: Event, setting: Setting, k: nat, ts: seq<nat>, out: seq<byte>,
                                    b: Journal, at: nat)
    requires Next(a, e, setting, k, ts, out, b) && Plain(e, ENGINE) && Alone(a.pages, ENGINE, at)
    requires at < |b.pages| && b.pages[at].name == ENGINE && BootIs(a, at)
    ensures BootIs(b, at)
  {
    hide GivenOut, Stamps, Render, MidAfter, Slice, Last;
    PageStep(a, e, setting, k, ts, out, b, ENGINE, at);
    assert FindIn(a.pages, ENGINE, 0) == at;
    if e.Output? && e.name == ENGINE && e.data != [] {
      RenderConcat(false, a.pages[at].raw, e.data, a.pages[at].times, ts);
    } else {
      assert a.boot + [] == a.boot;
    }
  }

  /** A boot begins with its reason, stamped, in the engine's page. */
  lemma {:induction false} BootBegins(a: Journal, reason: seq<byte>, setting: Setting, k: nat, ts: seq<nat>,
                                      out: seq<byte>, b: Journal)
    requires Next(a, Restart(reason), setting, k, ts, out, b) && reason != []
    ensures Alone(b.pages, ENGINE, k) && BootIs(b, k) && b.pages[k].raw == reason
    ensures b.before == Some(Last(a.boot, setting.cap))
  {
    hide Stamps, Render, Last;
    var blank := Blank(|a.pages|);
    assert FindIn(blank, ENGINE, 0) == |blank|;
    assert [] + reason == reason && [] + ts == ts;
    assert [] + Render(false, reason, ts) == Render(false, reason, ts);
  }

  /** From a reset on, while the engine's ring is its own: the boot's text is its reason and the engine's output,
      stamped where a line begins. */
  lemma {:induction false} BootOverRun(trace: seq<Journal>, events: seq<Event>, setting: Setting, ks: seq<nat>,
                                       stamps: seq<seq<nat>>, outs: seq<seq<byte>>, n: nat)
    requires Legal(trace, events, setting, ks, stamps, outs) && 0 < n <= |events|
    requires events[0].Restart? && events[0].reason != []
    requires forall i | 0 < i < n :: Plain(events[i], ENGINE)
    requires forall i | 0 < i <= n :: ks[0] < |trace[i].pages| && trace[i].pages[ks[0]].name == ENGINE
    ensures Alone(trace[n].pages, ENGINE, ks[0]) && BootIs(trace[n], ks[0])
    ensures trace[n].pages[ks[0]].raw == events[0].reason + Logged(events[1..n], ENGINE)
  {
    hide Next, Plain, BootIs, Logged, Alone, Stamps, Render;
    if n == 1 {
      BootBegins(trace[0], events[0].reason, setting, ks[0], stamps[0], outs[0], trace[1]);
      NothingLogged(events, ENGINE);
      assert events[0].reason + [] == events[0].reason;
    } else {
      var m := n - 1;
      BootOverRun(trace, events, setting, ks, stamps, outs, m);
      BootStep(trace[m], events[m], setting, ks[m], stamps[m], outs[m], trace[n], ks[0]);
      PageStep(trace[m], events[m], setting, ks[m], stamps[m], outs[m], trace[n], ENGINE, ks[0]);
      LoggedMore(events, 1, n, ENGINE);
    }
  }
}
