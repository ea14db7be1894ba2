/** A radio: its bands, its owner, and the transmissions its duty-cycle accounts admit. */
module LoraRadio {
  import opened Arith
  import opened Bytes
  import opened DutyCycle

  const PAYLOAD_MAX := 255
  const U32 := 0x1_0000_0000

  datatype Params = Params(freq: nat, bw: nat, sf: nat, cr: nat, preamble: nat) {
    predicate Ok() {
      freq < U32 && 0 < bw < U32 && 5 <= sf <= 12 && 5 <= cr <= 8 && 1 <= preamble < 0x1_0000
    }
  }

  datatype Band = Band(lo: nat, hi: nat, duty: nat)

  // ---- Time on air ----

  function Pow2(n: nat): (r: nat)
    ensures r > 0
  {
    if n == 0 then 1 else 2 * Pow2(n - 1)
  }

  function SymbolUs(p: Params): nat {
    if p.bw == 0 then 0 else 1_000_000 * Pow2(p.sf) / p.bw
  }

  predicate LowDataRate(p: Params) {
    SymbolUs(p) >= 16_000
  }

  /** Bits the payload blocks carry: 8 a byte, 16 of CRC and 20 of header, less what the header block holds. */
  function PayloadBits(p: Params, len: nat): nat
    requires p.Ok()
  {
    var bits := 8 * len + 16 - 4 * p.sf + (if p.sf <= 6 then 0 else 8) + 20;
    if bits < 0 then 0 else bits
  }

  function BlockBits(p: Params): (r: nat)
    requires p.Ok()
    ensures r > 0
  {
    4 * if LowDataRate(p) then p.sf - 2 else p.sf
  }

  /** Blocks of `cr` symbols the payload takes. */
  function Blocks(p: Params, len: nat): nat
    requires p.Ok()
  {
    (PayloadBits(p, len) + BlockBits(p) - 1) / BlockBits(p)
  }

  /** Quarter symbols in a frame: the preamble and the header block, then the coded payload. */
  function SymbolsX4(p: Params, len: nat): nat
    requires p.Ok()
  {
    (p.preamble + 8) * 4 + (if p.sf <= 6 then 25 else 17) + 4 * (Blocks(p, len) * p.cr)
  }

  function Quarters(us: nat, symbolsX4: nat): nat {
    us * symbolsX4 / 4
  }

  /** Microseconds on air, with no limit on their width. */
  function ExactUs(p: Params, len: nat): nat
    requires p.Ok()
  {
    Quarters(SymbolUs(p), SymbolsX4(p, len))
  }

  /** As the driver holds it, in 32 bits. */
  function TimeOnAirUs(p: Params, len: nat): nat
    requires p.Ok()
  {
    ExactUs(p, len) % U32
  }

  /** Air time in whole milliseconds, rounded up, in 32 bits. */
  function FrameAirMs(p: Params, len: nat): nat
    requires p.Ok()
  {
    (TimeOnAirUs(p, len) + 999) % U32 / 1000
  }

  /** What is charged covers the frame exactly when its microseconds round up inside 32 bits. */
  lemma {:induction false} ChargeCovers(p: Params, len: nat)
    requires p.Ok()
    ensures FrameAirMs(p, len) * 1000 >= ExactUs(p, len) <==> ExactUs(p, len) + 999 < U32
  {
    hide ExactUs;
  }

  /** The narrowest channel at the slowest rate under the longest preamble, which the settings allow: any frame of it is
      over nine hours on air, and is charged for less. */
  lemma {:induction false} ChargeFallsShort(len: nat)
    ensures var p := Params(868_100_000, 7_810, 12, 5, 65_535);
            p.Ok() && ExactUs(p, len) > 34_000_000_000 && FrameAirMs(p, len) * 1000 < ExactUs(p, len)
  {
    hide FrameAirMs, ExactUs, SymbolsX4, SymbolUs;
    var p := Params(868_100_000, 7_810, 12, 5, 65_535);
    SlowSymbol(p);
    SlowFrame(p, len);
    QuartersMono(524_455, 262_189, SymbolsX4(p, len));
    SlowExact(p, len);
    ChargeCovers(p, len);
  }

  lemma {:induction false} SlowSymbol(p: Params)
    requires p.bw == 7_810 && p.sf == 12
    ensures SymbolUs(p) == 524_455
  {
    assert Pow2(12) == 4096 by {
      assert Pow2(4) == 16;
      assert Pow2(8) == 256;
    }
  }

  lemma {:induction false} SlowFrame(p: Params, len: nat)
    requires p.Ok() && p.sf == 12 && p.preamble == 65_535
    ensures SymbolsX4(p, len) >= 262_189
  {
    hide Blocks;
  }

  lemma {:induction false} SlowExact(p: Params, len: nat)
    requires p.Ok() && SymbolUs(p) == 524_455 && Quarters(524_455, 262_189) <= Quarters(524_455, SymbolsX4(p, len))
    ensures ExactUs(p, len) > 34_000_000_000
  {
    hide SymbolUs, SymbolsX4;
    assert Quarters(524_455, 262_189) > 34_000_000_000;
  }

  lemma {:induction false} QuartersMono(us: nat, a: nat, b: nat)
    requires a <= b
    ensures Quarters(us, a) <= Quarters(us, b)
  {
    MulMono(a, b, us);
    DivMono(us * a, us * b, 4);
  }

  /** The parts of a time on air, put together. */
  lemma {:induction false} AirTimeOf(p: Params, len: nat, sym: nat, bits: nat, block: nat, blocks: nat, us: nat)
    requires p.Ok() && SymbolUs(p) == sym && PayloadBits(p, len) == bits && BlockBits(p) == block
    requires block * (blocks - 1) < bits <= block * blocks
    requires us == sym * ((p.preamble + 8) * 4 + (if p.sf <= 6 then 25 else 17) + 4 * (blocks * p.cr)) / 4 < U32
    ensures TimeOnAirUs(p, len) == us
  {
    hide SymbolUs, PayloadBits, BlockBits;
    assert Blocks(p, len) == blocks by {
      Divides(bits + block - 1, block, blocks);
    }
  }

  lemma {:induction false} Divides(n: nat, d: nat, q: nat)
    requires d > 0 && d * q <= n < d * (q + 1)
    ensures n / d == q
  {
    DivInUnit(q, n - d * q, d);
  }

  /** Times the data sheet gives. */
  lemma {:induction false} DataSheetTimes()
    ensures TimeOnAirUs(Params(869_525_000, 250_000, 11, 5, 16), 16) == 354_304
    ensures TimeOnAirUs(Params(869_525_000, 250_000, 11, 5, 16), 255) == 2_156_544
    ensures TimeOnAirUs(Params(869_525_000, 125_000, 12, 8, 16), 50) == 3_547_136
    ensures TimeOnAirUs(Params(869_525_000, 250_000, 7, 5, 16), 50) == 52_864
  {
    hide TimeOnAirUs;
    Powers();
    AirTimeOf(Params(869_525_000, 250_000, 11, 5, 16), 16, 8_192, 128, 44, 3, 354_304);
    AirTimeOf(Params(869_525_000, 250_000, 11, 5, 16), 255, 8_192, 2_040, 44, 47, 2_156_544);
    AirTimeOf(Params(869_525_000, 125_000, 12, 8, 16), 50, 32_768, 396, 40, 10, 3_547_136);
    AirTimeOf(Params(869_525_000, 250_000, 7, 5, 16), 50, 512, 416, 28, 15, 52_864);
  }

  lemma {:induction false} Powers()
    ensures Pow2(7) == 128 && Pow2(11) == 2048 && Pow2(12) == 4096
  {
    assert Pow2(4) == 16;
    assert Pow2(8) == 256;
  }

  /** A longer frame is never on air for less. */
  lemma {:induction false} LongerTakesLonger(p: Params, len: nat, more: nat)
    requires p.Ok() && len <= more
    ensures ExactUs(p, len) <= ExactUs(p, more)
  {
    hide LowDataRate, SymbolUs, BlockBits;
    var n := BlockBits(p);
    DivMono(PayloadBits(p, len) + n - 1, PayloadBits(p, more) + n - 1, n);
    MulMono(Blocks(p, len), Blocks(p, more), p.cr);
    QuartersMono(SymbolUs(p), SymbolsX4(p, len), SymbolsX4(p, more));
  }

  // ---- Bands ----

  /** The band holds the whole channel, freq ± bw / 2. */
  predicate Holds(b: Band, freq: nat, bw: nat) {
    bw / 2 <= freq && freq - bw / 2 >= b.lo && freq + bw / 2 <= b.hi
  }

  method BandFor(bands: seq<Band>, freq: nat, bw: nat) returns (band: int)
    ensures -1 <= band < |bands|
    ensures band >= 0 ==> Holds(bands[band], freq, bw) && forall i | 0 <= i < band :: !Holds(bands[i], freq, bw)
    ensures band < 0 ==> forall i | 0 <= i < |bands| :: !Holds(bands[i], freq, bw)
  {
    for i := 0 to |bands|
      invariant forall k | 0 <= k < i :: !Holds(bands[k], freq, bw)
    {
      if Holds(bands[i], freq, bw) {
        return i;
      }
    }
    return -1;
  }

  function BudgetMs(b: Band): (r: nat)
    ensures b.duty <= 1000 ==> r <= HOUR_MS
    ensures 1000 * r <= HOUR_MS * b.duty < 1000 * (r + 1)
  {
    HOUR_MS * b.duty / 1000
  }

  /** The band a channel is charged to. */
  ghost predicate IsBandOf(bands: seq<Band>, p: Params, band: nat) {
    band < |bands| && Holds(bands[band], p.freq, p.bw) && forall i | 0 <= i < band :: !Holds(bands[i], p.freq, p.bw)
  }

  // ---- The radio ----

  datatype State = Sleep | Standby | Rx | Tx
  datatype Owner = Nobody | Ctx(id: nat)
  datatype TxResult = Sent | Invalid | TooLong | NoPermission | TryAgain | Busy | IoError

  class Radio {
    const bands: seq<Band>
    const accounts: seq<Account>
    var owner: Owner
    var state: State
    var configured: bool
    var cad: bool
    var params: Params
    var lastLen: nat
    /** The last time the clock was read; it never goes back. */
    var clock: nat
    var txFrames: nat
    var txBusy: nat

    /** What the chip will answer: which of the calls to it fail, and on which the channel is in use. */
    const fails: nat -> bool
    const busy: nat -> bool
    var calls: nat

    /** What the chip put on air, band by band. */
    ghost var aired: seq<seq<TxRecord>>

    ghost function Repr(): set<object> {
      (set a: Account | a in accounts :: a as object) + (set a: Account | a in accounts :: a.rec as object)
    }

    /** Every account is in order and has its band's budget. */
    ghost predicate Accounts()
      reads this`clock, Repr()
    {
      && |accounts| == |bands|
      && (forall i, j | 0 <= i < j < |accounts| :: accounts[i] != accounts[j] && accounts[i].rec != accounts[j].rec)
      && (forall i | 0 <= i < |bands| :: bands[i].duty <= 1000)
      && (forall i | 0 <= i < |accounts| ::
            accounts[i].Valid() && accounts[i].UpTo(clock) && accounts[i].budget == BudgetMs(bands[i]))
    }

    /** And holds what its band put on air. */
    ghost predicate Books()
      reads this`clock, this`aired, Repr()
    {
      Accounts() && |aired| == |bands| && forall i | 0 <= i < |bands| :: aired[i] == accounts[i].sent
    }

    lemma {:induction false} Outside()
      ensures this !in Repr()
    {
    }

    ghost predicate Valid()
      reads this, Repr()
    {
      Books() && (configured ==> params.Ok()) && lastLen <= PAYLOAD_MAX
    }

    ghost function Now(): Snap
      reads this
    {
      Snap(owner, state, configured, cad, params, lastLen, clock, calls, txFrames, txBusy, aired)
    }

    /** The radio and its surroundings, as a run meets them. */
    ghost function Setup(): Chip {
      Chip(bands, fails, busy)
    }

    /** One call to the chip. */
    method Ask() returns (failed: bool)
      modifies this`calls
      ensures calls == old(calls) + 1 && failed == fails(old(calls))
    {
      failed := fails(calls);
      calls := calls + 1;
    }

    /** The chip sends a frame of a band, or fails. */
    method OnAir(b: nat, air: nat, end: nat) returns (went: bool)
      requires b < |aired|
      modifies this`calls, this`aired
      ensures calls == old(calls) + 1 && went == !fails(old(calls))
      ensures aired == if went then old(aired)[b := old(aired)[b] + [TxRecord(end, air)]] else old(aired)
    {
      went := !fails(calls);
      calls := calls + 1;
      if went {
        aired := aired[b := aired[b] + [TxRecord(end, air)]];
      }
    }

    /** A radio as it is registered: nobody's, asleep, with nothing sent. */
    constructor (bands: seq<Band>, fails: nat -> bool, busy: nat -> bool)
      requires forall i | 0 <= i < |bands| :: bands[i].duty <= 1000
      ensures Valid() && this.bands == bands && owner == Nobody && state == Sleep && !configured && clock == 0
              && lastLen == PAYLOAD_MAX && this.fails == fails && this.busy == busy
      ensures forall i | 0 <= i < |bands| :: SentIn(i) == [] && aired[i] == []
    {
      hide Air, Counts, WithinBudget, Sorted, Account.Records;
      var made: seq<Account> := [];
      for i := 0 to |bands|
        invariant |made| == i
        invariant forall j | 0 <= j < i :: fresh(made[j]) && fresh(made[j].rec) && made[j].Valid() && made[j].UpTo(0)
        invariant forall j | 0 <= j < i :: made[j].budget == BudgetMs(bands[j]) && made[j].sent == []
        invariant forall j, l | 0 <= j < l < i :: made[j] != made[l] && made[j].rec != made[l].rec
      {
        var a := new Account(BudgetMs(bands[i]));
        made := made + [a];
      }
      this.bands, accounts := bands, made;
      owner, state, configured, cad, lastLen, clock := Nobody, Sleep, false, false, PAYLOAD_MAX, 0;
      params, txFrames, txBusy, calls := Params(0, 0, 0, 0, 0), 0, 0, 0;
      this.fails, this.busy := fails, busy;
      aired := seq(|bands|, _ => []);
    }

    /** All that was ever transmitted in a band. */
    ghost function SentIn(band: nat): seq<TxRecord>
      requires band < |accounts|
      reads accounts[band]
    {
      accounts[band].sent
    }

    /** What the account's promise means for the radio: in every band, every hour is within its budget. */
    lemma {:induction false} EveryHourWithinBudget(band: nat, c: int)
      requires Valid() && band < |bands|
      ensures AirInHour(SentIn(band), c) <= BudgetMs(bands[band])
    {
      assert WithinBudget(accounts[band].sent, accounts[band].budget);
    }

    /**
     * An account admits a frame only if what its band put on air in the hour before leaves room for it, and until it
     * has merged records whenever it does.
     */
    lemma {:induction false} AdmitsByTheHour(band: nat, air: nat, t: nat)
      requires Valid() && band < |bands| && clock <= t
      ensures var room := AirAfter(aired[band], t - HOUR_MS) + air <= BudgetMs(bands[band]);
              && (Admitted(accounts[band].Records(), BudgetMs(bands[band]), air, t) ==> room)
              && (room && !accounts[band].merged ==> Admitted(accounts[band].Records(), BudgetMs(bands[band]), air, t))
    {
      hide Admitted, Air, WithinBudget, Account.Records;
      AdmittedIff(accounts[band].Records(), BudgetMs(bands[band]), air, t);
      assert accounts[band].UpTo(clock);
    }

    /** Takes the radio; the first claim wakes it. */
    method Claim(ctx: nat) returns (ok: bool)
      requires Valid()
      modifies this`owner, this`state, this`calls
      ensures Valid()
      ensures ok <==> old(owner) == Ctx(ctx) || (old(owner) == Nobody && !fails(old(calls)))
      ensures Now() == if old(owner) != Nobody then old(Now())
                       else if ok then old(Now()).(owner := Ctx(ctx), state := Standby, calls := old(calls) + 1)
                       else old(Now()).(calls := old(calls) + 1)
    {
      hide Radio.Books;
      Outside();
      if owner != Nobody && owner != Ctx(ctx) {
        return false;
      }
      if owner == Ctx(ctx) {
        return true;
      }
      var failed := Ask();
      if failed {
        return false;
      }
      owner, state := Ctx(ctx), Standby;
      return true;
    }

    /** The owner closed its last descriptor. What was sent stays on the accounts. */
    method Release(ctx: nat)
      requires Valid()
      modifies this`owner, this`state, this`configured, this`cad, this`calls
      ensures Valid()
      ensures Now() == if old(owner) != Ctx(ctx) then old(Now())
                       else old(Now()).(owner := Nobody, state := Sleep, configured := false, cad := false,
                         calls := old(calls) + 1)
    {
      hide Radio.Books;
      Outside();
      if owner == Ctx(ctx) {
        var failed := Ask();
        owner, state, configured, cad := Nobody, Sleep, false, false;
      }
    }

    /** The chip takes a channel, or refuses it. */
    method Apply(p: Params, useCad: bool) returns (ok: bool)
      requires Valid() && p.Ok()
      modifies this`params, this`configured, this`cad, this`calls
      ensures Valid() && ok == !fails(old(calls))
      ensures Now() == if ok then old(Now()).(params := p, configured := true, cad := useCad, calls := old(calls) + 1)
                       else old(Now()).(calls := old(calls) + 1)
    {
      hide Radio.Books;
      Outside();
      var refused := Ask();
      ok := !refused;
      if ok {
        params, configured, cad := p, true, useCad;
      }
    }

    /** Applies a channel, whole; a receiving radio stops for it and starts again. */
    method Configure(p: Params, useCad: bool) returns (ok: bool)
      requires Valid() && p.Ok()
      modifies this`params, this`configured, this`cad, this`calls, this`state
      ensures Valid() && Configures(Setup(), p, useCad, old(Now()), ok, Now())
    {
      hide Radio.Books;
      Outside();
      if state != Rx {
        ok := Apply(p, useCad);
      } else {
        var failed := Ask();
        ok := false;
        if !failed {
          var applied := Apply(p, useCad);
          failed := Ask();
          if failed {
            state := Standby;
          } else {
            ok := applied;
          }
        }
      }
    }

    /** Starts receiving on the applied channel. */
    method Listen() returns (ok: bool)
      requires Valid()
      modifies this`state, this`calls
      ensures Valid() && (ok <==> configured && !fails(old(calls)))
      ensures Now() == if !configured then old(Now())
                       else old(Now()).(calls := old(calls) + 1, state := if ok then Rx else old(state))
    {
      hide Radio.Books;
      Outside();
      if !configured {
        return false;
      }
      var failed := Ask();
      ok := !failed;
      if ok {
        state := Rx;
      }
    }

    method Halt() returns (ok: bool)
      requires Valid()
      modifies this`state, this`calls
      ensures Valid() && ok == !fails(old(calls))
      ensures Now() == old(Now()).(calls := old(calls) + 1, state := if ok then Standby else old(state))
    {
      hide Radio.Books;
      Outside();
      var failed := Ask();
      ok := !failed;
      if ok {
        state := Standby;
      }
    }

    /** Transmits one frame if the band's account admits it; a frame that went out is charged when it ends. */
    method WriteTx(nbyte: nat, t0: nat, t1: nat) returns (r: TxResult, ghost band: int)
      requires Valid() && clock <= t0 <= t1
      modifies this, Repr()
      ensures Valid()
      ensures -1 <= band < |bands|
      ensures band >= 0 <==>
              && old(configured) && 0 < nbyte <= PAYLOAD_MAX
              && exists i | 0 <= i < |bands| :: Holds(bands[i], old(params).freq, old(params).bw)
      ensures band >= 0 ==> IsBandOf(bands, old(params), band)
      ensures band < 0 ==>
                && Now() == old(Now())
                && r == if nbyte == 0 then Invalid else if nbyte > PAYLOAD_MAX then TooLong
                        else if !old(configured) then Invalid else NoPermission
      ensures band >= 0 ==>
                var air := FrameAirMs(old(params), nbyte);
                if Admitted(old(accounts[band].Records()), BudgetMs(bands[band]), air, t0)
                then Sends(Setup(), band, air, t1, old(Now()).(lastLen := nbyte, clock := t0), r, Now())
                else r == TryAgain && Now() == old(Now()).(lastLen := nbyte, clock := t0)
    {
      hide Air, Counts, WithinBudget, Sorted, Account.UpTo, Account.Records, FrameAirMs, Admitted, Sends;
      band := -1;
      if nbyte == 0 {
        return Invalid, band;
      }
      if nbyte > PAYLOAD_MAX {
        return TooLong, band;
      }
      if !configured {
        return Invalid, band;
      }
      var b := BandFor(bands, params.freq, params.bw);
      band := b;
      if b < 0 {
        return NoPermission, band;
      }
      lastLen := nbyte;
      assert accounts[b] in accounts;
      r := SendIn(b, FrameAirMs(params, nbyte), t0, t1);
    }

    /** Checks the account, and transmits and charges if it admits the frame. */
    method SendIn(b: nat, air: nat, t0: nat, t1: nat) returns (r: TxResult)
      requires Valid() && clock <= t0 <= t1 && b < |bands|
      modifies this`clock, this`state, this`calls, this`aired, this`txFrames, this`txBusy, accounts[b], accounts[b].rec
      ensures Valid()
      ensures if Admitted(old(accounts[b].Records()), BudgetMs(bands[b]), air, t0)
              then Sends(Setup(), b, air, t1, old(Now()).(clock := t0), r, Now())
              else r == TryAgain && Now() == old(Now()).(clock := t0)
    {
      hide Air, Counts, WithinBudget, Sorted, Account.UpTo, Account.Records, Admitted, Sends;
      ghost var s, budget := accounts[b].Records(), BudgetMs(bands[b]);
      var w := CheckBand(b, air, t0);
      if w != After(0) {
        assert !Admitted(s, budget, air, t0);
        return TryAgain;
      }
      r := Transmit(b, air, t1);
    }

    /** Asks the band's account; the clock is read once. */
    method CheckBand(b: nat, air: nat, t0: nat) returns (w: Wait)
      requires Valid() && clock <= t0 && b < |bands|
      modifies this`clock, accounts[b]
      ensures Valid() && Now() == old(Now()).(clock := t0)
      ensures forall i | 0 <= i < |bands| :: SentIn(i) == old(SentIn(i))
      ensures accounts[b].asOf == t0
      ensures w.Never? <==> air > BudgetMs(bands[b])
      ensures w.Never? ==> forall t: nat | t >= t0 :: !Admitted(old(accounts[b].Records()), BudgetMs(bands[b]), air, t)
      ensures w.After? ==> Admitted(old(accounts[b].Records()), BudgetMs(bands[b]), air, t0 + w.ms)
      ensures w.After? ==>
                forall t: nat | t0 <= t < t0 + w.ms :: !Admitted(old(accounts[b].Records()), BudgetMs(bands[b]), air, t)
      ensures w == After(0) ==> Air(accounts[b].Records()) + air <= BudgetMs(bands[b])
    {
      hide Admitted, Air;
      ghost var was := accounts[b].Records();
      UpToLater(t0);
      clock := t0;
      w := accounts[b].WaitFor(air, t0);
      ExpiredUpTo(was, t0, t0);
    }

    /** Nothing ended after the clock, so nothing ended after a later time. */
    lemma {:induction false} UpToLater(t: nat)
      requires Valid() && clock <= t
      ensures forall i | 0 <= i < |accounts| :: accounts[i].UpTo(t)
    {
    }

    /** Stops receiving and listens on the channel, where these are asked; what to answer if that is the end of it. */
    method Approach() returns (done: Option<TxResult>)
      requires Valid()
      modifies this`calls, this`txBusy
      ensures Valid()
      ensures done.None? <==> Clear(Setup(), old(Now()))
      ensures done.None? ==> Now() == old(Now()).(calls := SendCall(old(Now())))
      ensures done.Some? ==> Fails(Setup(), old(Now()), done.value, Now())
    {
      hide Radio.Books;
      Outside();
      if state == Rx {
        var failed := Ask();
        if failed {
          return Some(IoError);
        }
      }
      if cad {
        var inUse := busy(calls);
        var failed := Ask();
        if failed || inUse {
          if state == Rx {
            var ignored := Ask();
          }
          if failed {
            return Some(IoError);
          }
          txBusy := txBusy + 1;
          return Some(Busy);
        }
      }
      done := None;
    }

    /** Charges a frame that is on air and not yet on its account. */
    method Bill(b: nat, air: nat)
      requires Accounts() && b < |bands| && Air(accounts[b].Records()) + air <= BudgetMs(bands[b])
      requires |aired| == |bands| && aired[b] == accounts[b].sent + [TxRecord(clock, air)]
      requires forall i | 0 <= i < |bands| && i != b :: aired[i] == accounts[i].sent
      modifies accounts[b], accounts[b].rec
      ensures Books()
    {
      hide Air, Account.Valid, Account.UpTo, Account.Records;
      accounts[b].Charge(clock, air);
    }

    /** The clock moves on. */
    method Tick(t: nat)
      requires Accounts() && clock <= t
      modifies this`clock
      ensures Accounts() && clock == t
    {
      hide Account.Valid, Account.Records;
      Outside();
      clock := t;
    }

    /** Sends a frame and charges it if it went. */
    method Launch(b: nat, air: nat, t1: nat) returns (went: bool)
      requires Valid() && clock <= t1 && b < |bands|
      requires Air(accounts[b].Records()) + air <= BudgetMs(bands[b])
      modifies this`clock, this`state, this`calls, this`aired, this`txFrames, accounts[b], accounts[b].rec
      ensures Valid() && b < |old(aired)| && went == !fails(old(calls))
      ensures Now() == old(Now()).(state := Standby, clock := t1, calls := old(calls) + 1,
                txFrames := old(txFrames) + (if went then 1 else 0),
                aired := if went then old(aired)[b := old(aired)[b] + [TxRecord(t1, air)]] else old(aired))
    {
      hide Air, Account.Records, Radio.Accounts;
      Outside();
      BandAired(b);
      Tick(t1);
      state := Tx;
      went := OnAir(b, air, t1);
      if went {
        Bill(b, air);
        txFrames := txFrames + 1;
      }
      state := Standby;
    }

    /** The chip's part, which may fail at any point, and the charge. */
    method Transmit(b: nat, air: nat, t1: nat) returns (r: TxResult)
      requires Valid() && clock <= t1 && b < |bands|
      requires Air(accounts[b].Records()) + air <= BudgetMs(bands[b])
      modifies this`clock, this`state, this`calls, this`aired, this`txFrames, this`txBusy, accounts[b], accounts[b].rec
      ensures Valid() && Sends(Setup(), b, air, t1, old(Now()), r, Now())
    {
      hide Air, Account.Records, Radio.Books, Fails, Clear;
      Outside();
      var before := state;
      BandAired(b);
      var done := Approach();
      if done.Some? {
        return done.value;
      }
      var went := Launch(b, air, t1);
      if before == Rx {
        var failed := Ask();
        if failed {
          return IoError;
        }
        state := Rx;
      }
      return if went then Sent else IoError;
    }

    lemma {:induction false} BandAired(b: nat)
      requires Valid() && b < |bands|
      ensures |aired| == |accounts| == |bands|
    {
    }

    /** When the applied channel can next carry a frame as long as the last one. */
    method ReadyMs(now: nat) returns (ms: nat, ghost band: int)
      requires Valid() && clock <= now
      modifies this`clock, accounts
      ensures Valid() && Now() == if band < 0 then old(Now()) else old(Now()).(clock := now)
      ensures -1 <= band < |bands|
      ensures band < 0 <==> !configured || forall i | 0 <= i < |bands| :: !Holds(bands[i], params.freq, params.bw)
      ensures band == -1 ==> ms == 0
      ensures band >= 0 ==> IsBandOf(bands, params, band)
      ensures band >= 0 ==>
                var s, budget, air := old(accounts[band].Records()), BudgetMs(bands[band]), FrameAirMs(params, lastLen);
                if air > budget then ms == HOUR_MS
                else
                  && Admitted(s, budget, air, now + ms)
                  && forall t: nat | now <= t < now + ms :: !Admitted(s, budget, air, t)
    {
      hide Admitted, FrameAirMs;
      band := -1;
      if !configured {
        return 0, band;
      }
      var b := BandFor(bands, params.freq, params.bw);
      if b < 0 {
        return 0, band;
      }
      band := b;
      var w := CheckBand(b, FrameAirMs(params, lastLen), now);
      ms := if w.Never? then HOUR_MS else w.ms;
    }
  }

  /** What stays the same over a run: the bands, and what the chip will answer. */
  datatype Chip = Chip(bands: seq<Band>, fails: nat -> bool, busy: nat -> bool)

  /** The radio between two calls. */
  datatype Snap = Snap(owner: Owner, state: State, configured: bool, cad: bool, params: Params, lastLen: nat,
                       clock: nat, calls: nat, txFrames: nat, txBusy: nat, aired: seq<seq<TxRecord>>)

  /** A new channel is applied whole when the chip takes it, and a receiving radio resumes. */
  ghost predicate Configures(chip: Chip, p: Params, useCad: bool, a: Snap, ok: bool, b: Snap) {
    var c := a.calls;
    var applied := a.(params := p, configured := true, cad := useCad);
    if a.state != Rx then
      ok == !chip.fails(c) && b == (if ok then applied else a).(calls := c + 1)
    else if chip.fails(c) then
      !ok && b == a.(calls := c + 1)
    else
      && ok == (!chip.fails(c + 1) && !chip.fails(c + 2))
      && var state := if chip.fails(c + 2) then Standby else Rx;
         b == (if chip.fails(c + 1) then a else applied).(calls := c + 3, state := state)
  }

  /** The call that finds out about the channel, and the one that sends. */
  function ListenCall(a: Snap): nat {
    a.calls + if a.state == Rx then 1 else 0
  }

  function SendCall(a: Snap): nat {
    ListenCall(a) + if a.cad then 1 else 0
  }

  /** Receiving was stopped, where it was on. */
  ghost predicate Stopped(chip: Chip, a: Snap) {
    a.state == Rx ==> !chip.fails(a.calls)
  }

  /** The channel was found free, where that is asked. */
  ghost predicate Clear(chip: Chip, a: Snap) {
    Stopped(chip, a) && (a.cad ==> !chip.fails(ListenCall(a)) && !chip.busy(ListenCall(a)))
  }

  /** A frame handed to the chip: on air exactly when the channel is clear and the chip sends it, and then on the band's
      record from its end; the answer says whether it went and whether receiving resumed. */
  ghost predicate Sends(chip: Chip, band: nat, air: nat, end: nat, a: Snap, r: TxResult, b: Snap) {
    && band < |a.aired|
    && if !Clear(chip, a) then Fails(chip, a, r, b)
       else
         var rx, at := a.state == Rx, SendCall(a);
         var went := !chip.fails(at);
         var back := rx && !chip.fails(at + 1);
         && r == (if went && (rx ==> back) then Sent else IoError)
         && b == a.(state := if back then Rx else Standby, clock := end, calls := at + if rx then 2 else 1,
              txFrames := a.txFrames + (if went then 1 else 0),
              aired := if went then a.aired[band := a.aired[band] + [TxRecord(end, air)]] else a.aired)
  }

  /** A frame that is not handed to the chip: receiving could not be stopped, or the channel not heard or in use. */
  ghost predicate Fails(chip: Chip, a: Snap, r: TxResult, b: Snap) {
    if !Stopped(chip, a) then r == IoError && b == a.(calls := a.calls + 1)
    else
      var inUse := !chip.fails(ListenCall(a));
      && r == (if inUse then Busy else IoError)
      && b == a.(calls := SendCall(a) + (if a.state == Rx then 1 else 0), txBusy := a.txBusy + if inUse then 1 else 0)
  }

  datatype Step =
    | Open(ctx: nat)
    | Close(ctx: nat)
    | Set(p: Params, cad: bool)
    | Listen
    | Halt
    | Send(nbyte: nat, idle: nat, onAir: nat)
    | Ask(idle: nat)

  /** One call, as the moments before and after it show. */
  ghost predicate Next(chip: Chip, step: Step, a: Snap, b: Snap) {
    match step
    case Open(ctx) =>
      b == if a.owner != Nobody then a
           else if chip.fails(a.calls) then a.(calls := a.calls + 1)
           else a.(owner := Ctx(ctx), state := Standby, calls := a.calls + 1)
    case Close(ctx) =>
      b == if a.owner != Ctx(ctx) then a
           else a.(owner := Nobody, state := Sleep, configured := false, cad := false, calls := a.calls + 1)
    case Set(p, cad) => exists ok :: Configures(chip, p, cad, a, ok, b)
    case Listen =>
      b == if !a.configured then a
           else a.(calls := a.calls + 1, state := if chip.fails(a.calls) then a.state else Rx)
    case Halt => b == a.(calls := a.calls + 1, state := if chip.fails(a.calls) then a.state else Standby)
    case Send(nbyte, idle, onAir) =>
      var t0 := a.clock + idle;
      if !Sendable(chip, a, nbyte) then b == a
      else
        || b == a.(lastLen := nbyte, clock := t0)
        || exists r, band: nat :: SentAs(chip, nbyte, idle, onAir, a, r, band, b)
    case Ask(idle) => b == a || b == a.(clock := a.clock + idle)
  }

  /** The frame handed to the chip in the channel's band. */
  ghost predicate SentAs(chip: Chip, nbyte: nat, idle: nat, onAir: nat, a: Snap, r: TxResult, band: nat, b: Snap) {
    && a.params.Ok() && IsBandOf(chip.bands, a.params, band)
    && var start := a.clock + idle;
       Sends(chip, band, FrameAirMs(a.params, nbyte), start + onAir, a.(lastLen := nbyte, clock := start), r, b)
  }

  /** The frame fits, and the applied channel lies in a band. */
  ghost predicate Sendable(chip: Chip, a: Snap, nbyte: nat) {
    && a.configured && 0 < nbyte <= PAYLOAD_MAX
    && exists i | 0 <= i < |chip.bands| :: Holds(chip.bands[i], a.params.freq, a.params.bw)
  }

  /** One call. */
  method Do(r: Radio, step: Step)
    requires r.Valid() && (step.Set? ==> step.p.Ok())
    modifies r, r.Repr()
    ensures r.Valid() && Next(r.Setup(), step, old(r.Now()), r.Now())
  {
    hide Radio.Books, Account.Records, FrameAirMs, Admitted, Sends, Configures;
    match step
    case Open(ctx) =>
      var ok := r.Claim(ctx);
    case Close(ctx) =>
      r.Release(ctx);
    case Set(p, cad) =>
      var ok := r.Configure(p, cad);
    case Listen =>
      var ok := r.Listen();
    case Halt =>
      var ok := r.Halt();
    case Send(nbyte, idle, onAir) =>
      ghost var a := r.Now();
      var res, band := r.WriteTx(nbyte, r.clock + idle, r.clock + idle + onAir);
      if band >= 0 && r.Now() != a.(lastLen := nbyte, clock := a.clock + idle) {
        assert SentAs(r.Setup(), nbyte, idle, onAir, a, res, band, r.Now());
      }
    case Ask(idle) =>
      assert forall b | 0 <= b < |r.accounts| :: r.accounts[b] in r.Repr() by {
        forall b | 0 <= b < |r.accounts| ensures r.accounts[b] in r.Repr() {
          assert r.accounts[b] in r.accounts;
        }
      }
      var ms, band := r.ReadyMs(r.clock + idle);
  }

  /** Any run, across owners and channels: every call does what it says, what the chip put on air is what the accounts
      hold, and in every band every hour of it there has been is within the budget. */
  method Run(r: Radio, steps: seq<Step>) returns (ghost trace: seq<Snap>)
    requires r.Valid()
    requires forall i | 0 <= i < |steps| && steps[i].Set? :: steps[i].p.Ok()
    modifies r, r.Repr()
    ensures r.Valid()
    ensures |trace| == |steps| + 1 && trace[0] == old(r.Now()) && trace[|steps|] == r.Now()
    ensures forall i | 0 <= i < |steps| :: Next(r.Setup(), steps[i], trace[i], trace[i + 1])
    ensures |r.aired| == |r.bands| && forall b | 0 <= b < |r.bands| :: r.aired[b] == r.SentIn(b)
    ensures forall b, c: int | 0 <= b < |r.bands| :: AirInHour(r.aired[b], c) <= BudgetMs(r.bands[b])
  {
    hide Air, Counts, WithinBudget, Sorted, Account.UpTo, Account.Records, FrameAirMs, Admitted, AirInHour, Next;
    trace := [r.Now()];
    for i := 0 to |steps|
      invariant r.Valid() && |trace| == i + 1 && trace[0] == old(r.Now()) && trace[i] == r.Now()
      invariant forall k | 0 <= k < i :: Next(r.Setup(), steps[k], trace[k], trace[k + 1])
    {
      Do(r, steps[i]);
      trace := trace + [r.Now()];
    }
    forall b, c: int | 0 <= b < |r.bands| ensures AirInHour(r.aired[b], c) <= BudgetMs(r.bands[b]) {
      r.EveryHourWithinBudget(b, c);
    }
  }

  lemma {:induction false} ExpiredUpTo(s: seq<TxRecord>, now: nat, t: nat)
    requires EndedBy(s, t)
    ensures EndedBy(Expired(s, now), t)
  {
    if s != [] && s[0].end + HOUR_MS <= now {
      ExpiredUpTo(s[1..], now, t);
    }
  }
}
