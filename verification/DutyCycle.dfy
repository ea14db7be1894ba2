/** The duty-cycle account of a band: air time over the last hour, in a ring of 32 records. */
module DutyCycle {
  import opened Ring

  const HOUR_MS := 3_600_000
  const ACCOUNT_LEN := 32

  datatype TxRecord = TxRecord(end: nat, air: nat)

  datatype Wait = Never | After(ms: nat)

  // ---- Air time ----

  function Air(s: seq<TxRecord>): nat {
    if s == [] then 0 else s[0].air + Air(s[1..])
  }

  /** Air time of the transmissions that ended after `c`. */
  ghost function AirAfter(s: seq<TxRecord>, c: int): nat {
    if s == [] then 0 else (if s[0].end > c then s[0].air else 0) + AirAfter(s[1..], c)
  }

  /** Air time of the transmissions that ended in the hour after `c`. */
  ghost function AirInHour(s: seq<TxRecord>, c: int): nat {
    if s == [] then 0 else (if c < s[0].end <= c + HOUR_MS then s[0].air else 0) + AirInHour(s[1..], c)
  }

  /** No hour, wherever it begins, has more air time than the budget. */
  ghost predicate WithinBudget(s: seq<TxRecord>, budget: nat) {
    forall c: int :: AirInHour(s, c) <= budget
  }

  ghost predicate Sorted(s: seq<TxRecord>) {
    forall i, j | 0 <= i < j < |s| :: s[i].end <= s[j].end
  }

  /** What is left once the records of an hour ago and older are gone. */
  function Expired(s: seq<TxRecord>, now: nat): seq<TxRecord> {
    if s != [] && s[0].end + HOUR_MS <= now then Expired(s[1..], now) else s
  }

  /** Appended; a full account first merges its two oldest records into the later one. */
  function Charged(s: seq<TxRecord>, now: nat, air: nat): (r: seq<TxRecord>)
    requires |s| <= ACCOUNT_LEN
    ensures |r| <= ACCOUNT_LEN
  {
    if |s| == ACCOUNT_LEN then
      [TxRecord(s[1].end, s[0].air + s[1].air)] + s[2..] + [TxRecord(now, air)]
    else
      s + [TxRecord(now, air)]
  }

  /** A frame of `air` would be admitted at `t`, with no other transmission until then. */
  ghost predicate Admitted(s: seq<TxRecord>, budget: nat, air: nat, t: nat) {
    Air(Expired(s, t)) + air <= budget
  }

  // ---- Lemmas on sums ----

  lemma {:induction false} AirConcat(a: seq<TxRecord>, b: seq<TxRecord>)
    ensures Air(a + b) == Air(a) + Air(b)
  {
    if a == [] {
      assert a + b == b;
    } else {
      assert (a + b)[1..] == a[1..] + b;
      AirConcat(a[1..], b);
    }
  }

  lemma {:induction false} AirAfterConcat(a: seq<TxRecord>, b: seq<TxRecord>, c: int)
    ensures AirAfter(a + b, c) == AirAfter(a, c) + AirAfter(b, c)
  {
    if a == [] {
      assert a + b == b;
    } else {
      assert (a + b)[1..] == a[1..] + b;
      AirAfterConcat(a[1..], b, c);
    }
  }

  lemma {:induction false} AirInHourConcat(a: seq<TxRecord>, b: seq<TxRecord>, c: int)
    ensures AirInHour(a + b, c) == AirInHour(a, c) + AirInHour(b, c)
  {
    if a == [] {
      assert a + b == b;
    } else {
      assert (a + b)[1..] == a[1..] + b;
      AirInHourConcat(a[1..], b, c);
    }
  }

  lemma {:induction false} One(r: TxRecord, c: int)
    ensures Air([r]) == r.air
    ensures AirAfter([r], c) == if r.end > c then r.air else 0
    ensures AirInHour([r], c) == if c < r.end <= c + HOUR_MS then r.air else 0
  {
    assert [r][1..] == [];
  }

  lemma {:induction false} AirAfterAtMost(s: seq<TxRecord>, c: int)
    ensures AirAfter(s, c) <= Air(s)
    ensures (forall i | 0 <= i < |s| :: s[i].end > c) ==> AirAfter(s, c) == Air(s)
  {
    if s != [] {
      AirAfterAtMost(s[1..], c);
    }
  }

  /** When nothing ended later, the hour after `c` is all that ended after `c`. */
  lemma {:induction false} HourIsAfter(s: seq<TxRecord>, c: int)
    ensures AirInHour(s, c) <= AirAfter(s, c)
    ensures (forall i | 0 <= i < |s| :: s[i].end <= c + HOUR_MS) ==> AirInHour(s, c) == AirAfter(s, c)
  {
    if s != [] {
      HourIsAfter(s[1..], c);
    }
  }

  // ---- Expiry ----

  lemma {:induction false} ExpiredIs(s: seq<TxRecord>, now: nat)
    requires Sorted(s)
    ensures Sorted(Expired(s, now)) && |Expired(s, now)| <= |s|
    ensures forall i | 0 <= i < |Expired(s, now)| :: Expired(s, now)[i].end + HOUR_MS > now
    ensures Air(Expired(s, now)) == AirAfter(s, now - HOUR_MS)
    ensures forall c | c >= now - HOUR_MS :: AirAfter(Expired(s, now), c) == AirAfter(s, c)
  {
    if s != [] && s[0].end + HOUR_MS <= now {
      ExpiredIs(s[1..], now);
    } else {
      AirAfterAtMost(s, now - HOUR_MS);
    }
  }

  /** Expiry is the only thing time does: a frame fits at `t` when what ended in the hour before `t` leaves room. */
  lemma {:induction false} AdmittedIff(s: seq<TxRecord>, budget: nat, air: nat, t: nat)
    requires Sorted(s)
    ensures Admitted(s, budget, air, t) <==> AirAfter(s, t - HOUR_MS) + air <= budget
  {
    ExpiredIs(s, t);
  }

  /** Until record `i` leaves, everything from it on still counts; once it has left, nothing up to it does. */
  lemma {:induction false} AirAround(s: seq<TxRecord>, i: nat, c: int)
    requires Sorted(s) && i < |s|
    ensures s[i].end > c ==> AirAfter(s, c) >= Air(s[i..])
    ensures s[i].end <= c ==> AirAfter(s, c) <= Air(s[i + 1..])
  {
    assert s == s[..i] + s[i..] && s == s[..i + 1] + s[i + 1..];
    AirAfterConcat(s[..i], s[i..], c);
    AirAfterAtMost(s[i..], c);
    AirAfterConcat(s[..i + 1], s[i + 1..], c);
    AirAfterAtMost(s[i + 1..], c);
    if s[i].end <= c {
      AirAfterNone(s[..i + 1], c);
    }
  }

  lemma {:induction false} AirAfterNone(s: seq<TxRecord>, c: int)
    requires forall i | 0 <= i < |s| :: s[i].end <= c
    ensures AirAfter(s, c) == 0
  {
    if s != [] {
      AirAfterNone(s[1..], c);
    }
  }

  // ---- Charging ----

  /** Merging the two oldest counts them for longer, never for less. */
  lemma {:induction false} ChargedCounts(s: seq<TxRecord>, now: nat, air: nat, c: int)
    requires |s| <= ACCOUNT_LEN && Sorted(s)
    ensures AirAfter(Charged(s, now, air), c) >= AirAfter(s, c) + if now > c then air else 0
    ensures |s| < ACCOUNT_LEN ==> AirAfter(Charged(s, now, air), c) == AirAfter(s, c) + if now > c then air else 0
    ensures Air(Charged(s, now, air)) == Air(s) + air
  {
    var tx := [TxRecord(now, air)];
    One(tx[0], c);
    if |s| == ACCOUNT_LEN {
      var both := TxRecord(s[1].end, s[0].air + s[1].air);
      One(both, c);
      One(s[0], c);
      One(s[1], c);
      assert s == [s[0]] + ([s[1]] + s[2..]);
      AirAfterConcat([s[0]], [s[1]] + s[2..], c);
      AirAfterConcat([s[1]], s[2..], c);
      AirAfterConcat([both] + s[2..], tx, c);
      AirAfterConcat([both], s[2..], c);
      AirConcat([s[0]], [s[1]] + s[2..]);
      AirConcat([s[1]], s[2..]);
      AirConcat([both] + s[2..], tx);
      AirConcat([both], s[2..]);
    } else {
      AirAfterConcat(s, tx, c);
      AirConcat(s, tx);
    }
  }

  lemma {:induction false} ChargedSorted(s: seq<TxRecord>, now: nat, air: nat)
    requires |s| <= ACCOUNT_LEN && Sorted(s)
    requires forall i | 0 <= i < |s| :: s[i].end <= now
    ensures Sorted(Charged(s, now, air))
    ensures forall i | 0 <= i < |Charged(s, now, air)| :: Charged(s, now, air)[i].end <= now
  {
  }

  /** One more transmission keeps every hour within the budget exactly when the hour that it ends has room. */
  lemma {:induction false} ChargeSafeIff(sent: seq<TxRecord>, budget: nat, now: nat, air: nat)
    requires WithinBudget(sent, budget)
    requires forall i | 0 <= i < |sent| :: sent[i].end <= now
    ensures WithinBudget(sent + [TxRecord(now, air)], budget) <==> AirAfter(sent, now - HOUR_MS) + air <= budget
  {
    var tx := TxRecord(now, air);
    forall c: int ensures AirInHour(sent + [tx], c) == AirInHour(sent, c) + if c < now <= c + HOUR_MS then air else 0 {
      AirInHourConcat(sent, [tx], c);
      One(tx, c);
    }
    HourIsAfter(sent, now - HOUR_MS);
    assert AirInHour(sent + [tx], now - HOUR_MS) == AirAfter(sent, now - HOUR_MS) + air;
    forall c: int | c < now <= c + HOUR_MS ensures AirInHour(sent, c) <= AirAfter(sent, now - HOUR_MS) {
      HourIsAfter(sent, c);
      AirAfterMono(sent, now - HOUR_MS, c);
    }
  }

  lemma {:induction false} AirAfterMono(s: seq<TxRecord>, c: int, d: int)
    requires c <= d
    ensures AirAfter(s, d) <= AirAfter(s, c)
  {
    if s != [] {
      AirAfterMono(s[1..], c, d);
    }
  }

  /** Two transmissions checked before either is charged can overrun an hour: 6 ms twice against 10 ms. */
  lemma {:induction false} RaceOverruns()
    ensures Admitted([], 10, 6, 0)
    ensures !WithinBudget([TxRecord(1, 6), TxRecord(1, 6)], 10)
  {
    var both := [TxRecord(1, 6), TxRecord(1, 6)];
    assert both[1..] == [TxRecord(1, 6)] && both[1..][1..] == [];
    assert AirInHour(both, 0) == 12;
  }

  // ---- The account ----

  class Account {
    const rec: array<TxRecord>
    var head: nat
    var count: nat

    /** The band's budget for an hour. */
    const budget: nat
    /** Every transmission charged since the radio was registered. */
    ghost var sent: seq<TxRecord>
    /** The time of the last expiry. */
    ghost var asOf: nat
    /** Whether a charge ever found the account full. */
    ghost var merged: bool

    ghost predicate Shape()
      reads this
    {
      rec.Length == ACCOUNT_LEN && head < ACCOUNT_LEN && count <= ACCOUNT_LEN
    }

    /** The records held, oldest first. */
    ghost function Records(): (s: seq<TxRecord>)
      requires Shape()
      reads this, rec
      ensures |s| == count
    {
      View(rec[..], head, count)
    }

    /** The account counts no less than what was sent since the last expiry, and every hour there has ever
        been is within the budget. */
    ghost predicate Valid()
      reads this, rec
    {
      && Shape()
      && budget <= HOUR_MS
      && Sorted(Records())
      && Air(Records()) <= budget
      && WithinBudget(sent, budget)
      && Counts(Records(), sent, asOf, !merged)
    }

    /** Nothing held or sent ended after `t`. */
    ghost predicate UpTo(t: nat)
      requires Shape()
      reads this, rec
    {
      asOf <= t && EndedBy(Records(), t) && EndedBy(sent, t)
    }

    constructor (budget: nat)
      requires budget <= HOUR_MS
      ensures Valid() && fresh(rec) && this.budget == budget && sent == [] && UpTo(0)
    {
      this.budget := budget;
      rec := new TxRecord[ACCOUNT_LEN](_ => TxRecord(0, 0));
      head, count := 0, 0;
      sent, asOf, merged := [], 0, false;
    }

    method Expire(now: nat)
      requires Valid() && asOf <= now
      modifies this`head, this`count, this`asOf
      ensures Valid() && asOf == now
      ensures Records() == Expired(old(Records()), now)
    {
      hide Sorted, Air, AirAfter, WithinBudget, Counts, View;
      ghost var was := Records();
      ExpiredCounts(was, sent, asOf, now, !merged);
      while count > 0 && rec[head].end + HOUR_MS <= now
        invariant Shape()
        invariant Expired(Records(), now) == Expired(was, now)
        decreases count
      {
        Popped(rec[..], head, count);
        SlotIsMod(head, 1, ACCOUNT_LEN);
        head := (head + 1) % ACCOUNT_LEN;
        count := count - 1;
      }
      if count > 0 {
        Popped(rec[..], head, count);
      }
      asOf := now;
    }

    method Used() returns (used: nat)
      requires Shape()
      ensures used == Air(Records())
    {
      hide Air;
      used := 0;
      ghost var s := Records();
      AirOfNone();
      for i := 0 to count
        invariant used == Air(s[..i])
      {
        assert s[..i + 1] == s[..i] + [s[i]];
        AirConcat(s[..i], [s[i]]);
        One(s[i], 0);
        SlotIsMod(head, i, ACCOUNT_LEN);
        used := used + rec[(head + i) % ACCOUNT_LEN].air;
      }
      assert s[..count] == s;
    }

    /** How long until a frame fits: the least delay after which it is admitted if nothing else is sent. */
    method WaitFor(air: nat, now: nat) returns (w: Wait)
      requires Valid() && asOf <= now
      modifies this`head, this`count, this`asOf
      ensures Valid() && asOf == now && Records() == Expired(old(Records()), now)
      ensures w.Never? <==> air > budget
      ensures w.Never? ==> forall t: nat | t >= now :: !Admitted(old(Records()), budget, air, t)
      ensures w.After? ==> Admitted(old(Records()), budget, air, now + w.ms)
      ensures w.After? ==> forall t: nat | now <= t < now + w.ms :: !Admitted(old(Records()), budget, air, t)
      ensures w == After(0) ==> Air(Records()) + air <= budget
    {
      hide Sorted, Air, AirAfter, WithinBudget, Counts, View, Expired;
      ghost var was := Records();
      Expire(now);
      ghost var s := Records();
      assert forall t: nat | t >= now ::
        Admitted(was, budget, air, t) <==> AirAfter(s, t - HOUR_MS) + air <= budget by {
        AdmittedLater(was, budget, air, now);
      }
      if air > budget {
        return Never;
      }
      var used := Used();
      StillAll(was, now);
      AirOfNone();
      assert s[0..] == s && s[count..] == [];
      var i := 0;
      while used + air > budget && i < count
        modifies {}
        invariant 0 <= i <= count && used == Air(s[i..])
        invariant i > 0 ==> used + air > budget
      {
        SlotIsMod(head, i, ACCOUNT_LEN);
        var r := rec[(head + i) % ACCOUNT_LEN];
        assert r == s[i];
        AirTail(s, i);
        used := used - r.air;
        if used + air <= budget {
          forall t: nat | now <= t ensures Admitted(was, budget, air, t) <==> t >= r.end + HOUR_MS {
            AirAround(s, i, t - HOUR_MS);
          }
          return After(r.end + HOUR_MS - now);
        }
        i := i + 1;
      }
      return After(0);
    }

    /** Records a transmission that was admitted and has ended. */
    method Charge(now: nat, air: nat)
      requires Valid() && UpTo(now) && Air(Records()) + air <= budget
      modifies this, rec
      ensures Valid() && UpTo(now)
      ensures Records() == Charged(old(Records()), now, air)
      ensures sent == old(sent) + [TxRecord(now, air)] && asOf == old(asOf)
      ensures merged == (old(merged) || old(count) == ACCOUNT_LEN)
    {
      hide Sorted, Air, AirAfter, WithinBudget, Counts, View, EndedBy;
      ghost var was := Records();
      ChargeKeeps(was, sent, asOf, now, air, budget, !merged);
      ghost var whole := count == ACCOUNT_LEN;
      if count == ACCOUNT_LEN {
        MergeOldest();
      }
      SlotIsMod(head, count, ACCOUNT_LEN);
      Pushed(rec[..], head, count, TxRecord(now, air));
      rec[(head + count) % ACCOUNT_LEN] := TxRecord(now, air);
      count := count + 1;
      sent := sent + [TxRecord(now, air)];
      merged := merged || whole;
    }

    /** Adds the oldest record to the one after it, which keeps its own end. */
    method MergeOldest()
      requires Shape() && count == ACCOUNT_LEN && Air(Records()) <= HOUR_MS
      modifies rec, this`head, this`count
      ensures Shape() && count == ACCOUNT_LEN - 1
      ensures var s := old(Records()); Records() == [TxRecord(s[1].end, s[0].air + s[1].air)] + s[2..]
    {
      SlotIsMod(head, 1, ACCOUNT_LEN);
      var second := (head + 1) % ACCOUNT_LEN;
      TwoOldest(Records());
      rec[second] := TxRecord(rec[second].end, (rec[second].air + rec[head].air) % 0x1_0000_0000);
      head := second;
      count := count - 1;
    }
  }

  // ---- What the account keeps ----

  ghost predicate EndedBy(s: seq<TxRecord>, t: nat) {
    forall i | 0 <= i < |s| :: s[i].end <= t
  }

  /** For every moment within the last hour, the records count at least what was sent; exactly that when
      nothing was ever merged. */
  ghost predicate Counts(s: seq<TxRecord>, sent: seq<TxRecord>, asOf: nat, exact: bool) {
    && (forall c | c >= asOf - HOUR_MS :: AirAfter(s, c) >= AirAfter(sent, c))
    && (exact ==> forall c | c >= asOf - HOUR_MS :: AirAfter(s, c) == AirAfter(sent, c))
  }

  lemma {:induction false} AirOfNone()
    ensures Air([]) == 0
  {
  }

  lemma {:induction false} TwoOldest(s: seq<TxRecord>)
    requires |s| >= 2
    ensures s[0].air + s[1].air <= Air(s)
  {
  }

  lemma {:induction false} AirTail(s: seq<TxRecord>, i: nat)
    requires i < |s|
    ensures Air(s[i..]) == s[i].air + Air(s[i + 1..])
  {
    assert s[i..][1..] == s[i + 1..];
  }

  lemma {:induction false} ExpiredCounts(s: seq<TxRecord>, sent: seq<TxRecord>, asOf: nat, now: nat, exact: bool)
    requires Sorted(s) && asOf <= now && Counts(s, sent, asOf, exact)
    ensures Sorted(Expired(s, now)) && Air(Expired(s, now)) <= Air(s)
    ensures Counts(Expired(s, now), sent, now, exact)
  {
    hide Sorted, Air, AirAfter;
    ExpiredIs(s, now);
    AirAfterAtMost(s, now - HOUR_MS);
  }

  /** Expiring now and again later is expiring later. */
  lemma {:induction false} AdmittedLater(s: seq<TxRecord>, budget: nat, air: nat, now: nat)
    requires Sorted(s)
    ensures forall t: nat | t >= now ::
              Admitted(s, budget, air, t) <==> AirAfter(Expired(s, now), t - HOUR_MS) + air <= budget
  {
    hide Sorted, Air, AirAfter, Admitted;
    ExpiredIs(s, now);
    forall t: nat | t >= now ensures Admitted(s, budget, air, t) <==>
      AirAfter(Expired(s, now), t - HOUR_MS) + air <= budget {
      AdmittedIff(s, budget, air, t);
    }
  }

  lemma {:induction false} StillAll(s: seq<TxRecord>, now: nat)
    requires Sorted(s)
    ensures AirAfter(Expired(s, now), now - HOUR_MS) == Air(Expired(s, now))
    ensures Sorted(Expired(s, now)) && forall i | 0 <= i < |Expired(s, now)| :: Expired(s, now)[i].end + HOUR_MS > now
  {
    hide Sorted, Air, AirAfter;
    ExpiredIs(s, now);
    AirAfterAtMost(Expired(s, now), now - HOUR_MS);
  }

  /** Charging an admitted transmission keeps all that the account promises. */
  lemma {:induction false} ChargeKeeps(s: seq<TxRecord>, sent: seq<TxRecord>, asOf: nat, now: nat, air: nat,
                                       budget: nat, exact: bool)
    requires |s| <= ACCOUNT_LEN && Sorted(s) && EndedBy(s, now) && EndedBy(sent, now) && asOf <= now
    requires Counts(s, sent, asOf, exact) && WithinBudget(sent, budget) && Air(s) + air <= budget
    ensures var s', sent' := Charged(s, now, air), sent + [TxRecord(now, air)];
            && Sorted(s') && EndedBy(s', now) && EndedBy(sent', now)
            && Air(s') <= budget && WithinBudget(sent', budget)
            && Counts(s', sent', asOf, exact && |s| < ACCOUNT_LEN)
  {
    hide Sorted, Air, AirAfter, WithinBudget, Charged;
    var tx := TxRecord(now, air);
    ChargedSorted(s, now, air);
    ChargedCounts(s, now, air, 0);
    forall c: int ensures AirAfter(sent + [tx], c) == AirAfter(sent, c) + if now > c then air else 0 {
      AirAfterConcat(sent, [tx], c);
      One(tx, c);
    }
    forall c: int
      ensures AirAfter(Charged(s, now, air), c) >= AirAfter(s, c) + if now > c then air else 0
      ensures |s| < ACCOUNT_LEN ==> AirAfter(Charged(s, now, air), c) == AirAfter(s, c) + if now > c then air else 0
    {
      ChargedCounts(s, now, air, c);
    }
    AirAfterAtMost(s, now - HOUR_MS);
    ChargeSafeIff(sent, budget, now, air);
  }
}
