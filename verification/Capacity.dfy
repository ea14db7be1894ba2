/** How much one stage can take, and what the capacity report says of it. */
module Capacity {
  import opened Arith
  import opened Bytes
  import opened BlobRecord
  import opened FlashLayout
  import opened UnitScan
  import opened StageLayout
  import opened PageRules

  // ---- Free runs ----

  /** How many units are free from `c` on before the first used one. */
  ghost function FreeLen(refs: seq<byte>, c: nat): (l: nat)
    requires c <= |refs|
    ensures c + l <= |refs| && FreeRun(refs, c, l)
    ensures c + l < |refs| ==> refs[c + l] != 0
    decreases |refs| - c
  {
    if c == |refs| || refs[c] != 0 then 0 else 1 + FreeLen(refs, c + 1)
  }

  /** The lengths of the longest-possible free runs from unit `c` on, in address order. */
  ghost function RunsFrom(refs: seq<byte>, c: nat): (r: seq<nat>)
    requires c <= |refs|
    ensures forall i | 0 <= i < |r| :: r[i] > 0
    decreases |refs| - c
  {
    if c == |refs| then []
    else if refs[c] != 0 then RunsFrom(refs, c + 1)
    else [FreeLen(refs, c)] + RunsFrom(refs, c + FreeLen(refs, c))
  }

  ghost function Sum(s: seq<nat>): nat {
    if s == [] then 0 else s[0] + Sum(s[1..])
  }

  /** What the elements exceed `t` by, added up. */
  ghost function Excess(s: seq<nat>, t: nat): nat {
    if s == [] then 0 else (if s[0] > t then s[0] - t else 0) + Excess(s[1..], t)
  }

  lemma {:induction false} ExcessConcat(a: seq<nat>, b: seq<nat>, t: nat)
    ensures Excess(a + b, t) == Excess(a, t) + Excess(b, t)
  {
    if a == [] {
      assert a + b == b;
    } else {
      assert (a + b)[1..] == a[1..] + b;
      ExcessConcat(a[1..], b, t);
    }
  }

  lemma {:induction false} ExcessOne(x: nat, t: nat)
    ensures Excess([x], t) == if x > t then x - t else 0
  {
    assert [x][1..] == [];
  }

  /** A sum is what its elements exceed `t` by, and at most `t` more for each. */
  lemma {:induction false} SumByExcess(s: seq<nat>, t: nat)
    ensures Sum(s) <= Excess(s, t) + |s| * t
    ensures (forall i | 0 <= i < |s| :: s[i] >= t) ==> Sum(s) == Excess(s, t) + |s| * t
  {
    if s != [] {
      SumByExcess(s[1..], t);
      assert |s| * t == |s[1..]| * t + t;
    }
  }

  lemma {:induction false} ExcessZero(s: seq<nat>, t: nat)
    requires forall i | 0 <= i < |s| :: s[i] <= t
    ensures Excess(s, t) == 0
  {
    if s != [] {
      ExcessZero(s[1..], t);
    }
  }

  lemma {:induction false} ExcessRemove(s: seq<nat>, j: nat, t: nat)
    requires j < |s|
    ensures Excess(s, t) == Excess([s[j]], t) + Excess(s[..j] + s[j + 1..], t)
    ensures multiset(s[..j] + s[j + 1..]) == multiset(s) - multiset{s[j]}
  {
    assert s == s[..j] + ([s[j]] + s[j + 1..]);
    ExcessConcat(s[..j], [s[j]] + s[j + 1..], t);
    ExcessConcat([s[j]], s[j + 1..], t);
    ExcessConcat(s[..j], s[j + 1..], t);
  }

  /** Fewer of the same elements exceed `t` by no more. */
  lemma {:induction false} RemoveCount(s: seq<nat>, j: nat, y: nat)
    requires j < |s|
    ensures multiset(s)[y] == multiset(s[..j] + s[j + 1..])[y] + if y == s[j] then 1 else 0
  {
    var a, b := s[..j], s[j + 1..];
    assert s == a + ([s[j]] + b);
    assert multiset(s) == multiset(a) + (multiset{s[j]} + multiset(b));
    assert multiset(a + b) == multiset(a) + multiset(b);
  }

  lemma {:induction false} SubRemove(sub: seq<nat>, s: seq<nat>, j: nat)
    requires sub != [] && j < |s| && s[j] == sub[0] && multiset(sub) <= multiset(s)
    ensures multiset(sub[..0] + sub[0 + 1..]) <= multiset(s[..j] + s[j + 1..])
  {
    var a, b := multiset(sub[..0] + sub[0 + 1..]), multiset(s[..j] + s[j + 1..]);
    forall y: nat ensures a[y] <= b[y] {
      assert multiset(sub)[y] <= multiset(s)[y];
      RemoveCount(sub, 0, y);
      RemoveCount(s, j, y);
    }
  }

  lemma {:induction false} ExcessMono(sub: seq<nat>, s: seq<nat>, t: nat)
    requires multiset(sub) <= multiset(s)
    ensures Excess(sub, t) <= Excess(s, t)
    decreases |sub|
  {
    hide Excess;
    if sub == [] {
      ExcessZero(sub, t);
    } else {
      var x := sub[0];
      assert x in multiset(sub);
      assert x in s;
      var j :| 0 <= j < |s| && s[j] == x;
      SubRemove(sub, s, j);
      ExcessRemove(s, j, t);
      ExcessRemove(sub, 0, t);
      ExcessMono(sub[..0] + sub[0 + 1..], s[..j] + s[j + 1..], t);
    }
  }

  /** The most that `k` elements of `s` add up to. */
  ghost predicate IsBest(s: seq<nat>, k: nat, best: nat) {
    && (forall sub: seq<nat> | multiset(sub) <= multiset(s) && |sub| <= k :: Sum(sub) <= best)
    && (exists sub: seq<nat> :: multiset(sub) <= multiset(s) && |sub| <= k && Sum(sub) == best)
  }

  /** The `k` longest seen so far, longest first, and zero where there are fewer. */
  ghost predicate IsTop(top: seq<nat>, s: seq<nat>, k: nat) {
    && |top| == k > 0
    && (forall i, j | 0 <= i < j < k :: top[i] >= top[j])
    && (forall t: nat | t >= top[k - 1] :: Excess(s, t) == Excess(top, t))
    && (forall x: nat | x > 0 :: multiset(top)[x] <= multiset(s)[x])
  }

  ghost function Positives(top: seq<nat>): (r: seq<nat>)
    requires forall i, j | 0 <= i < j < |top| :: top[i] >= top[j]
    ensures r <= top
    ensures forall i | 0 <= i < |r| :: r[i] > 0
    ensures forall i | |r| <= i < |top| :: top[i] == 0
  {
    if top == [] || top[|top| - 1] > 0 then top else Positives(top[..|top| - 1])
  }

  /** The sum of such a list is the most `k` elements add up to. */
  lemma {:induction false} TopIsBest(top: seq<nat>, s: seq<nat>, k: nat)
    requires IsTop(top, s, k)
    ensures IsBest(s, k, Sum(top))
  {
    hide Sum, Excess;
    var t := top[k - 1];
    forall sub: seq<nat> | multiset(sub) <= multiset(s) && |sub| <= k ensures Sum(sub) <= Sum(top) {
      SumByExcess(sub, t);
      SumByExcess(top, t);
      ExcessMono(sub, s, t);
      MulMono(|sub|, k, t);
    }
    var kept := Positives(top);
    SumZeros(top, |kept|);
    assert multiset(kept) <= multiset(s) by {
      assert top == kept + top[|kept|..];
    }
    assert kept == top[..|kept|] && |kept| <= k && Sum(kept) == Sum(top);
  }

  lemma {:induction false} SumConcat(a: seq<nat>, b: seq<nat>)
    ensures Sum(a + b) == Sum(a) + Sum(b)
  {
    if a == [] {
      assert a + b == b;
    } else {
      assert (a + b)[1..] == a[1..] + b;
      SumConcat(a[1..], b);
    }
  }

  lemma {:induction false} SumZeros(s: seq<nat>, n: nat)
    requires n <= |s| && forall i | n <= i < |s| :: s[i] == 0
    ensures Sum(s[..n]) == Sum(s)
    decreases |s| - n
  {
    if n == |s| {
      assert s[..n] == s;
    } else {
      SumZeros(s, n + 1);
      assert s[..n + 1] == s[..n] + [s[n]];
      SumConcat(s[..n], [s[n]]);
      assert [s[n]][1..] == [];
    }
  }

  // ---- The report ----

  /** `run` put where it belongs in the list, and the last element dropped. */
  ghost function Inserted(top: seq<nat>, run: nat, at: nat): seq<nat>
    requires at <= |top|
  {
    if at == |top| then top else top[..at] + [run] + top[at..|top| - 1]
  }

  method Insert(top: array<nat>, run: nat) returns (ghost at: nat)
    requires top.Length == MAX_EXTENTS
    requires forall i, j | 0 <= i < j < top.Length :: top[i] >= top[j]
    modifies top
    ensures at <= MAX_EXTENTS
    ensures forall j | 0 <= j < at :: old(top[j]) >= run
    ensures forall j | at <= j < MAX_EXTENTS :: old(top[j]) < run
    ensures top[..] == Inserted(old(top[..]), run, at)
  {
    hide Lifted;
    var i := MAX_EXTENTS;
    ghost var s := top[..];
    LiftNone(s);
    while i > 0 && top[i - 1] < run
      invariant 0 <= i <= MAX_EXTENTS && Lifted(s, top[..], i)
      invariant forall j | i <= j < MAX_EXTENTS :: s[j] < run
    {
      LiftMore(s, top[..], i);
      if i < MAX_EXTENTS {
        top[i] := top[i - 1];
      }
      i := i - 1;
    }
    if i > 0 {
      LiftMore(s, top[..], i);
    }
    LiftPlace(s, top[..], i, run);
    if i < MAX_EXTENTS {
      top[i] := run;
    }
    at := i;
  }

  /** The elements from `i` on have moved down by one, the last of them out. */
  ghost predicate Lifted(s: seq<nat>, t: seq<nat>, i: nat) {
    && |s| == |t| && i <= |s|
    && (forall j | 0 <= j < i :: t[j] == s[j])
    && (forall j | i < j < |s| :: t[j] == s[j - 1])
  }

  lemma {:induction false} LiftNone(s: seq<nat>)
    ensures Lifted(s, s, |s|)
  {
  }

  lemma {:induction false} LiftMore(s: seq<nat>, t: seq<nat>, i: nat)
    requires Lifted(s, t, i) && 0 < i <= |s| == |t|
    ensures t[i - 1] == s[i - 1] && Lifted(s, if i < |t| then t[i := t[i - 1]] else t, i - 1)
  {
  }

  lemma {:induction false} LiftPlace(s: seq<nat>, t: seq<nat>, i: nat, run: nat)
    requires Lifted(s, t, i) && i <= |s| == |t|
    ensures (if i < |t| then t[i := run] else t) == Inserted(s, run, i)
  {
  }

  /** Inserting a run keeps the list that of the longest. */
  lemma {:induction false} InsertKeeps(top: seq<nat>, s: seq<nat>, k: nat, run: nat, at: nat)
    requires IsTop(top, s, k) && at <= k
    requires forall j | 0 <= j < at :: top[j] >= run
    requires forall j | at <= j < k :: top[j] < run
    ensures IsTop(Inserted(top, run, at), s + [run], k)
  {
    hide Excess;
    var top' := Inserted(top, run, at);
    forall t: nat | t >= top'[k - 1] ensures Excess(s + [run], t) == Excess(top', t) {
      InsertExcess(top, s, k, run, at, t);
    }
    KeptInserted(top, run, at);
    assert multiset(s + [run]) == multiset(s) + multiset{run};
    InsertSorted(top, k, run, at);
  }

  lemma {:induction false} InsertSorted(top: seq<nat>, k: nat, run: nat, at: nat)
    requires |top| == k && at <= k
    requires forall i, j | 0 <= i < j < k :: top[i] >= top[j]
    requires forall j | 0 <= j < at :: top[j] >= run
    requires forall j | at <= j < k :: top[j] < run
    ensures var top' := Inserted(top, run, at); forall i, j | 0 <= i < j < k :: top'[i] >= top'[j]
  {
  }

  lemma {:induction false} InsertExcess(top: seq<nat>, s: seq<nat>, k: nat, run: nat, at: nat, t: nat)
    requires |top| == k > 0 && at <= k
    requires forall i, j | 0 <= i < j < k :: top[i] >= top[j]
    requires forall t: nat | t >= top[k - 1] :: Excess(s, t) == Excess(top, t)
    requires forall j | 0 <= j < at :: top[j] >= run
    requires forall j | at <= j < k :: top[j] < run
    requires t >= Inserted(top, run, at)[k - 1]
    ensures Excess(s + [run], t) == Excess(Inserted(top, run, at), t)
  {
    hide Excess;
    ExcessConcat(s, [run], t);
    ExcessOne(run, t);
    if at < k {
      ExcessInserted(top, run, at, t);
      ExcessOne(top[k - 1], t);
      assert top[k - 1] <= t;
    }
  }

  lemma {:induction false} ExcessInserted(top: seq<nat>, run: nat, at: nat, t: nat)
    requires at < |top|
    ensures Excess(Inserted(top, run, at), t) + Excess([top[|top| - 1]], t) == Excess(top, t) + Excess([run], t)
  {
    hide Excess;
    var n := |top| - 1;
    assert top == top[..at] + (top[at..n] + [top[n]]);
    ExcessConcat(top[..at], top[at..n] + [top[n]], t);
    ExcessConcat(top[at..n], [top[n]], t);
    assert Inserted(top, run, at) == top[..at] + ([run] + top[at..n]);
    ExcessConcat(top[..at], [run] + top[at..n], t);
    ExcessConcat([run], top[at..n], t);
  }

  lemma {:induction false} KeptInserted(top: seq<nat>, run: nat, at: nat)
    requires at <= |top|
    ensures multiset(Inserted(top, run, at)) <= multiset(top) + multiset{run}
  {
    if at < |top| {
      var n := |top| - 1;
      assert top == top[..at] + top[at..n] + [top[n]];
    }
  }

  /** The streak of free units that ends at `u` is the whole run that began with it. */
  lemma {:induction false} StreakIsRun(refs: seq<byte>, c: nat, run: nat)
    requires c + run <= |refs| && FreeRun(refs, c, run)
    requires c + run == |refs| || refs[c + run] != 0
    ensures FreeLen(refs, c) == run
    decreases run
  {
    if run > 0 {
      assert refs[c] == 0;
      StreakIsRun(refs, c + 1, run - 1);
    }
  }

  /** The units the report gives as the largest a stage can take: the longest run on a contiguous store,
      the most that 32 runs have together on a scattered one. */
  method LargestTake(refs: array<byte>, scattered: bool) returns (n: nat)
    ensures scattered ==> IsBest(RunsFrom(refs[..], 0), MAX_EXTENTS, n)
    ensures !scattered ==> exists start: nat :: IsLongestRun(refs[..], start, n)
  {
    hide RunsFrom, IsTop, IsBest;
    if !scattered {
      var best, start := LargestRun(refs);
      return best;
    }
    var top := new nat[MAX_EXTENTS](_ => 0);
    ghost var done: seq<nat> := [];
    var run := 0;
    TopStarts();
    assert top[..] == seq(MAX_EXTENTS, _ => 0);
    assert done + RunsFrom(refs[..], 0) == RunsFrom(refs[..], 0);
    for u := 0 to refs.Length
      modifies top
      invariant 0 <= run <= u && FreeRun(refs[..], u - run, run)
      invariant RunsFrom(refs[..], 0) == done + RunsFrom(refs[..], u - run)
      invariant IsTop(top[..], done, MAX_EXTENTS)
    {
      if refs[u] == 0 {
        run := run + 1;
      } else {
        done := CloseRun(refs, top, u, run, done);
        run := 0;
      }
    }
    done := CloseRun(refs, top, refs.Length, run, done);
    RunsEnd(refs[..]);
    assert done + [] == done;
    n := AddUp(top);
    TopIsBest(top[..], done, MAX_EXTENTS);
  }

  lemma {:induction false} RunsEnd(refs: seq<byte>)
    ensures RunsFrom(refs, |refs|) == []
  {
  }

  method CloseRun(refs: array<byte>, top: array<nat>, u: nat, run: nat,
                  ghost done: seq<nat>) returns (ghost done': seq<nat>)
    requires top.Length == MAX_EXTENTS && u <= refs.Length && run <= u
    requires u == refs.Length || refs[u] != 0
    requires FreeRun(refs[..], u - run, run)
    requires RunsFrom(refs[..], 0) == done + RunsFrom(refs[..], u - run)
    requires IsTop(top[..], done, MAX_EXTENTS)
    modifies top
    ensures RunsFrom(refs[..], 0) == done' + RunsFrom(refs[..], if u < refs.Length then u + 1 else u)
    ensures IsTop(top[..], done', MAX_EXTENTS)
  {
    hide IsTop, Excess, RunsFrom, Inserted, FreeRun;
    ghost var free, before := refs[..], top[..];
    ghost var next := if u < refs.Length then u + 1 else u;
    StreakIsRun(free, u - run, run);
    RunsAfter(free, u, run);
    TopSorted(before, done);
    assert forall i, j | 0 <= i < j < top.Length :: top[i] == before[i] && top[j] == before[j];
    ghost var at := Insert(top, run);
    if run == 0 {
      NoneInserted(before, at);
      done' := done;
    } else {
      InsertKeeps(before, done, MAX_EXTENTS, run, at);
      done' := done + [run];
      assert done + ([run] + RunsFrom(free, next)) == done' + RunsFrom(free, next);
    }
    assert refs[..] == free;
  }

  lemma {:induction false} NoneInserted(top: seq<nat>, at: nat)
    requires at <= |top| && forall j | at <= j < |top| :: top[j] < 0
    ensures Inserted(top, 0, at) == top
  {
  }

  lemma {:induction false} RunsAfter(refs: seq<byte>, u: nat, run: nat)
    requires run <= u <= |refs| && (u == |refs| || refs[u] != 0) && FreeRun(refs, u - run, run)
             && FreeLen(refs, u - run) == run
    ensures var rest := RunsFrom(refs, if u < |refs| then u + 1 else u);
            RunsFrom(refs, u - run) == if run == 0 then rest else [run] + rest
  {
    if run > 0 {
      var c := u - run;
      assert refs[c] == 0 && c + FreeLen(refs, c) == u;
      assert RunsFrom(refs, c) == [run] + RunsFrom(refs, u);
    }
    if u < |refs| {
      assert RunsFrom(refs, u) == RunsFrom(refs, u + 1);
    }
  }

  lemma {:induction false} TopSorted(top: seq<nat>, done: seq<nat>)
    requires IsTop(top, done, MAX_EXTENTS)
    ensures forall i, j | 0 <= i < j < |top| :: top[i] >= top[j]
  {
  }

  lemma {:induction false} TopStarts()
    ensures IsTop(seq(MAX_EXTENTS, _ => 0), [], MAX_EXTENTS)
  {
    var top: seq<nat> := seq(MAX_EXTENTS, _ => 0);
    forall t: nat ensures Excess([], t) == Excess(top, t) {
      ExcessZero(top, t);
    }
    forall x: nat | x > 0 ensures multiset(top)[x] == 0 {
      assert x !in top;
    }
  }

  method AddUp(top: array<nat>) returns (sum: nat)
    ensures sum == Sum(top[..])
  {
    sum := 0;
    for i := 0 to top.Length
      invariant sum == Sum(top[..i])
    {
      assert top[..i + 1] == top[..i] + [top[i]];
      SumConcat(top[..i], [top[i]]);
      assert [top[i]][1..] == [];
      sum := sum + top[i];
    }
    assert top[..top.Length] == top[..];
  }

  // ---- What a stage takes ----

  datatype Taking = Taking(refs: seq<byte>, runs: seq<Run>)

  ghost predicate Took(a: Taking, b: Taking, scattered: bool) {
    exists u: nat :: TakeStep(a.refs, a.runs, scattered, b.refs, b.runs, u)
  }

  /** A fresh stage that took one unit after another, with nothing in between. */
  ghost predicate TakeRun(states: seq<Taking>, scattered: bool) {
    && states != [] && states[0].runs == []
    && forall i | 0 <= i < |states| - 1 :: Took(states[i], states[i + 1], scattered)
  }

  ghost function First(s: seq<nat>, n: nat): seq<nat> {
    if n < |s| then s[..n] else s
  }

  /** Units a sweep from `c` takes with `budget` runs left to begin. */
  ghost function Ahead(refs: seq<byte>, c: nat, budget: nat, inRun: bool): nat
    requires c <= |refs|
    decreases |refs| - c
  {
    if c == |refs| then 0
    else if refs[c] != 0 then Ahead(refs, c + 1, budget, false)
    else if inRun then 1 + Ahead(refs, c + 1, budget, true)
    else if budget > 0 then 1 + Ahead(refs, c + 1, budget - 1, true)
    else 0
  }

  lemma {:induction false} AheadInRun(refs: seq<byte>, c: nat, budget: nat)
    requires c <= |refs|
    ensures Ahead(refs, c, budget, true) == FreeLen(refs, c) + Ahead(refs, c + FreeLen(refs, c), budget, false)
    decreases |refs| - c
  {
    if c < |refs| && refs[c] == 0 {
      AheadInRun(refs, c + 1, budget);
    }
  }

  /** A sweep takes the first runs in address order, whole. */
  lemma {:induction false} AheadIsFirst(refs: seq<byte>, c: nat, budget: nat)
    requires c <= |refs|
    ensures Ahead(refs, c, budget, false) == Sum(First(RunsFrom(refs, c), budget))
    decreases |refs| - c
  {
    if c < |refs| {
      if refs[c] != 0 {
        AheadIsFirst(refs, c + 1, budget);
      } else if budget > 0 {
        AheadInRun(refs, c, budget - 1);
        var l := FreeLen(refs, c);
        AheadIsFirst(refs, c + l, budget - 1);
        FirstCons(l, RunsFrom(refs, c + l), budget);
      }
    }
  }

  lemma {:induction false} FirstCons(l: nat, rest: seq<nat>, budget: nat)
    requires budget > 0
    ensures Sum(First([l] + rest, budget)) == l + Sum(First(rest, budget - 1))
  {
    assert First([l] + rest, budget) == [l] + First(rest, budget - 1);
    assert ([l] + First(rest, budget - 1))[1..] == First(rest, budget - 1);
  }

  lemma {:induction false} AheadSkip(refs: seq<byte>, c: nat, u: nat, budget: nat)
    requires c <= u <= |refs| && forall v | c <= v < u :: refs[v] != 0
    ensures Ahead(refs, c, budget, false) == Ahead(refs, u, budget, false)
    decreases u - c
  {
    if c < u {
      AheadSkip(refs, c + 1, u, budget);
    }
  }

  lemma {:induction false} AheadNoBudget(refs: seq<byte>, c: nat)
    requires c <= |refs|
    ensures Ahead(refs, c, 0, false) == 0
    decreases |refs| - c
  {
    if c < |refs| && refs[c] != 0 {
      AheadNoBudget(refs, c + 1);
    }
  }

  function Cursor(runs: seq<Run>): int {
    if runs == [] then 0 else LastTaken(runs) + 1
  }

  /** Nothing is free behind the cursor, and ahead of it nothing has changed. */
  ghost predicate Swept(refs: seq<byte>, t: Taking) {
    var c := Cursor(t.runs);
    && 0 <= c <= |refs| == |t.refs|
    && |t.runs| <= MAX_EXTENTS
    && (forall v | 0 <= v < c :: t.refs[v] != 0)
    && (forall v | c <= v < |refs| :: t.refs[v] == refs[v])
  }

  ghost function Left(refs: seq<byte>, t: Taking): nat
    requires Swept(refs, t)
  {
    Ahead(refs, Cursor(t.runs), MAX_EXTENTS - |t.runs|, t.runs != [])
  }

  lemma {:induction false} SweepStep(refs: seq<byte>, t: Taking, t': Taking, u: nat)
    requires Swept(refs, t) && TakeStep(t.refs, t.runs, true, t'.refs, t'.runs, u)
    ensures Swept(refs, t') && Left(refs, t) == 1 + Left(refs, t')
  {
    var c := Cursor(t.runs);
    assert c <= u;
    if !Extendable(t.refs, t.runs) {
      if t.runs != [] && c < |refs| {
        assert refs[c] != 0;
        AheadSkip(refs, c + 1, u, MAX_EXTENTS - |t.runs|);
      } else {
        AheadSkip(refs, c, u, MAX_EXTENTS - |t.runs|);
      }
    }
  }

  lemma {:induction false} SweepStuck(refs: seq<byte>, t: Taking)
    requires Swept(refs, t) && TakeStuck(t.refs, t.runs, true)
    ensures Left(refs, t) == 0
  {
    var c := Cursor(t.runs);
    if NoneFree(t.refs) {
      forall v | c <= v < |refs| ensures refs[v] != 0 {
        assert t.refs[v] != 0;
      }
      if c < |refs| {
        AheadSkip(refs, c + 1, |refs|, MAX_EXTENTS - |t.runs|);
      }
    } else if c < |refs| {
      assert refs[c] != 0;
      AheadNoBudget(refs, c + 1);
    }
  }

  /** Over any uninterrupted run of a scattered stage, the units taken and those still ahead are together
      the first 32 free runs in address order. */
  lemma {:induction false} ScatteredTake(states: seq<Taking>)
    requires TakeRun(states, true)
    ensures Swept(states[0].refs, states[|states| - 1])
    ensures |states| - 1 + Left(states[0].refs, states[|states| - 1])
            == Sum(First(RunsFrom(states[0].refs, 0), MAX_EXTENTS))
    decreases |states|
  {
    var n := |states| - 1;
    if n == 0 {
      AheadIsFirst(states[0].refs, 0, MAX_EXTENTS);
    } else {
      var front := states[..n];
      assert forall i | 0 <= i < |front| - 1 :: Took(front[i], front[i + 1], true) by {
        forall i | 0 <= i < |front| - 1 ensures Took(front[i], front[i + 1], true) {
          assert Took(states[i], states[i + 1], true);
        }
      }
      ScatteredTake(front);
      assert Took(states[n - 1], states[n - 1 + 1], true);
      var u: nat :| TakeStep(states[n - 1].refs, states[n - 1].runs, true, states[n].refs, states[n].runs, u);
      SweepStep(states[0].refs, states[n - 1], states[n], u);
    }
  }

  /** The first `k` are the best `k` exactly when none after them is longer than one of them. */
  lemma {:induction false} FirstIsBest(s: seq<nat>, k: nat, best: nat)
    requires IsBest(s, k, best) && k > 0
    ensures Sum(First(s, k)) <= best
    ensures Sum(First(s, k)) == best <==> forall i, j | 0 <= i < k <= j < |s| :: s[j] <= s[i]
  {
    hide Sum;
    var first := First(s, k);
    assert s == first + s[|first|..];
    assert multiset(first) <= multiset(s);
    if i, j :| 0 <= i < k <= j < |s| && s[j] > s[i] {
      SwapGains(s, k, i, j);
    } else {
      var sub: seq<nat> :| multiset(sub) <= multiset(s) && |sub| <= k && Sum(sub) == best;
      FirstDominates(s, k, sub);
    }
  }

  /** Trading one of the first for a longer one later gives `k` elements that add up to more. */
  lemma {:induction false} SwapGains(s: seq<nat>, k: nat, i: nat, j: nat)
    requires i < k <= j < |s| && s[j] > s[i]
    ensures multiset(s[..k][i := s[j]]) <= multiset(s)
    ensures Sum(s[..k][i := s[j]]) > Sum(First(s, k))
  {
    SwapSum(s[..k], i, s[j]);
    SwapSub(s, k, i, j);
  }

  lemma {:induction false} SwapSum(s: seq<nat>, i: nat, x: nat)
    requires i < |s| && x > s[i]
    ensures Sum(s[i := x]) > Sum(s)
  {
    if i == 0 {
      assert s[i := x][1..] == s[1..];
    } else {
      assert s[i := x][1..] == s[1..][i - 1 := x];
      SwapSum(s[1..], i - 1, x);
    }
  }

  lemma {:induction false} SwapSub(s: seq<nat>, k: nat, i: nat, j: nat)
    requires i < k <= j < |s|
    ensures multiset(s[..k][i := s[j]]) <= multiset(s)
  {
    var a, b := s[..k], s[k..];
    assert s == a + b && b[j - k] == s[j];
    assert multiset(s) == multiset(a) + multiset(b);
    assert s[j] in multiset(b);
    assert multiset(a[i := s[j]]) == multiset(a) - multiset{a[i]} + multiset{s[j]};
  }

  lemma {:induction false} FirstDominates(s: seq<nat>, k: nat, sub: seq<nat>)
    requires k > 0 && multiset(sub) <= multiset(s) && |sub| <= k
    requires forall i, j | 0 <= i < k <= j < |s| :: s[j] <= s[i]
    ensures Sum(sub) <= Sum(First(s, k))
  {
    hide Sum, Excess;
    var first := First(s, k);
    if |s| <= k {
      SumByExcess(sub, 0);
      SumByExcess(s, 0);
      ExcessMono(sub, s, 0);
    } else {
      var t := Least(first);
      SumByExcess(sub, t);
      SumByExcess(first, t);
      ExcessMono(sub, s, t);
      assert s == first + s[k..];
      ExcessConcat(first, s[k..], t);
      ExcessZero(s[k..], t);
      MulMono(|sub|, k, t);
    }
  }

  ghost function Least(s: seq<nat>): (t: nat)
    requires s != []
    ensures t in s && forall i | 0 <= i < |s| :: t <= s[i]
  {
    var rest := s[1..];
    if rest == [] then s[0]
    else if s[0] <= Least(rest) then s[0] else Least(rest)
  }

  /** On a scattered store no uninterrupted stage takes more than the report says, and one that takes all it
      can takes exactly that exactly when no free run past the first 32 is longer than one of those. */
  lemma {:induction false} ScatteredReport(states: seq<Taking>, best: nat)
    requires TakeRun(states, true)
    requires IsBest(RunsFrom(states[0].refs, 0), MAX_EXTENTS, best)
    ensures |states| - 1 <= best
    ensures var last, runs := states[|states| - 1], RunsFrom(states[0].refs, 0);
            TakeStuck(last.refs, last.runs, true) ==>
              (|states| - 1 == best <==> forall i, j | 0 <= i < MAX_EXTENTS <= j < |runs| :: runs[j] <= runs[i])
  {
    hide IsBest, Sum, RunsFrom, Took, TakeStuck;
    ScatteredTake(states);
    FirstIsBest(RunsFrom(states[0].refs, 0), MAX_EXTENTS, best);
    var last := states[|states| - 1];
    if TakeStuck(last.refs, last.runs, true) {
      SweepStuck(states[0].refs, last);
    }
  }

  /** The stage of a contiguous store: one run, in the longest free run there was. */
  ghost predicate InLongest(refs: seq<byte>, t: Taking, start: nat, best: nat, k: nat) {
    && |t.refs| == |refs| && k <= best
    && t.runs == (if k == 0 then [] else [Run(start, k)])
    && (forall v | 0 <= v < |refs| :: t.refs[v] == if start <= v < start + k then 1 else refs[v])
  }

  lemma {:induction false} LongestUnique(refs: seq<byte>, s: nat, l: nat, s': nat, l': nat)
    requires IsLongestRun(refs, s, l) && IsLongestRun(refs, s', l')
    ensures s == s' && l == l'
  {
  }

  lemma {:induction false} LongestEnds(refs: seq<byte>, start: nat, best: nat)
    requires IsLongestRun(refs, start, best)
    ensures start + best < |refs| ==> refs[start + best] != 0
  {
    if start + best < |refs| && refs[start + best] == 0 {
      assert FreeRun(refs, start, best + 1);
    }
  }

  /** On a contiguous store a stage takes the longest run unit by unit: never more, and all of it. */
  lemma {:induction false} ContiguousReport(states: seq<Taking>, start: nat, best: nat)
    requires TakeRun(states, false) && IsLongestRun(states[0].refs, start, best)
    ensures |states| - 1 <= best
    ensures InLongest(states[0].refs, states[|states| - 1], start, best, |states| - 1)
    ensures var last := states[|states| - 1]; TakeStuck(last.refs, last.runs, false) ==> |states| - 1 == best
    decreases |states|
  {
    var n := |states| - 1;
    var refs := states[0].refs;
    LongestEnds(refs, start, best);
    if n > 0 {
      var front := states[..n];
      assert forall i | 0 <= i < |front| - 1 :: Took(front[i], front[i + 1], false) by {
        forall i | 0 <= i < |front| - 1 ensures Took(front[i], front[i + 1], false) {
          assert Took(states[i], states[i + 1], false);
        }
      }
      ContiguousReport(front, start, best);
      assert Took(states[n - 1], states[n - 1 + 1], false);
      var u: nat :| TakeStep(states[n - 1].refs, states[n - 1].runs, false, states[n].refs, states[n].runs, u);
      ContiguousStep(refs, states[n - 1], states[n], u, start, best, n - 1);
    }
    if n < best {
      NotStuck(refs, states[n], start, best, n);
    }
  }

  lemma {:induction false} NotStuck(refs: seq<byte>, t: Taking, start: nat, best: nat, k: nat)
    requires IsLongestRun(refs, start, best) && InLongest(refs, t, start, best, k) && k < best
    ensures !TakeStuck(t.refs, t.runs, false)
  {
    assert t.refs[start + k] == 0;
  }

  lemma {:induction false} ContiguousStep(refs: seq<byte>, t: Taking, t': Taking, u: nat, start: nat, best: nat, k: nat)
    requires IsLongestRun(refs, start, best) && InLongest(refs, t, start, best, k)
    requires TakeStep(t.refs, t.runs, false, t'.refs, t'.runs, u)
    ensures k < best && InLongest(refs, t', start, best, k + 1)
  {
    LongestEnds(refs, start, best);
    if k == 0 {
      assert t.refs == refs;
      var l :| l > 0 && IsLongestRun(t.refs, u, l);
      LongestUnique(refs, start, best, u, l);
    } else {
      assert u == start + k;
    }
  }

  /** Sixty-six units: thirty-two single free units apart, then two free together. */
  function Comb(): seq<byte> {
    seq(66, i => if i < 64 && i % 2 == 1 then 1 else 0)
  }

  lemma {:induction false} CombRuns(m: nat)
    requires m <= 32
    ensures RunsFrom(Comb(), 2 * m) == seq(32 - m, _ => 1) + [2]
    decreases 32 - m
  {
    var refs := Comb();
    if m == 32 {
      StreakIsRun(refs, 64, 2);
      assert RunsFrom(refs, 66) == [];
    } else {
      StreakIsRun(refs, 2 * m, 1);
      CombRuns(m + 1);
      assert RunsFrom(refs, 2 * m + 1) == RunsFrom(refs, 2 * m + 2);
      assert seq(32 - m, _ => 1) == [1] + seq(32 - (m + 1), _ => 1);
    }
  }

  lemma {:induction false} SumOnes(n: nat)
    ensures Sum(seq(n, _ => 1)) == n
  {
    if n > 0 {
      assert seq(n, _ => 1)[1..] == seq(n - 1, _ => 1);
      SumOnes(n - 1);
    }
  }

  // ---- A stage can always go on until it is stuck ----

  ghost function Zeros(refs: seq<byte>): set<int> {
    set i | 0 <= i < |refs| && refs[i] == 0
  }

  lemma {:induction false} FewerZeros(refs: seq<byte>, u: nat)
    requires u < |refs| && refs[u] == 0
    ensures |Zeros(refs[u := 1])| < |Zeros(refs)|
  {
    assert Zeros(refs[u := 1]) == Zeros(refs) - {u};
  }

  lemma {:induction false} FirstFreeExists(refs: seq<byte>, at: nat) returns (u: nat)
    requires at < |refs| && refs[at] == 0
    ensures IsFirstFree(refs, u)
    decreases at
  {
    if v: nat :| v < at && refs[v] == 0 {
      u := FirstFreeExists(refs, v);
    } else {
      u := at;
    }
  }

  lemma {:induction false} LeastStart(refs: seq<byte>, l: nat, at: nat) returns (s: nat)
    requires FreeRun(refs, at, l)
    ensures FreeRun(refs, s, l) && forall t: nat | FreeRun(refs, t, l) :: s <= t
    decreases at
  {
    if t: nat :| t < at && FreeRun(refs, t, l) {
      s := LeastStart(refs, l, t);
    } else {
      s := at;
    }
  }

  lemma {:induction false} LongestExists(refs: seq<byte>, l: nat) returns (s: nat, best: nat)
    requires forall t, m | FreeRun(refs, t, m) :: m <= l
    ensures IsLongestRun(refs, s, best)
    decreases l
  {
    if t: nat :| FreeRun(refs, t, l) {
      best := l;
      s := LeastStart(refs, l, t);
    } else {
      assert l > 0 by {
        assert FreeRun(refs, 0, 0);
      }
      s, best := LongestExists(refs, l - 1);
    }
  }

  /** A stage that is not stuck takes another unit. */
  lemma {:induction false} TakesOneMore(t: Taking, scattered: bool) returns (next: Taking)
    requires !TakeStuck(t.refs, t.runs, scattered)
    ensures Took(t, next, scattered) && |Zeros(next.refs)| < |Zeros(t.refs)|
  {
    var u: nat;
    if Extendable(t.refs, t.runs) {
      u := LastTaken(t.runs) + 1;
      next := Taking(t.refs[u := 1], Grown(t.runs));
    } else {
      var at: nat :| at < |t.refs| && t.refs[at] == 0;
      if scattered {
        u := FirstFreeExists(t.refs, at);
      } else {
        var best;
        u, best := LongestExists(t.refs, |t.refs|);
        assert FreeRun(t.refs, at, 1);
      }
      next := Taking(t.refs[u := 1], t.runs + [Run(u, 1)]);
    }
    FewerZeros(t.refs, u);
    assert TakeStep(t.refs, t.runs, scattered, next.refs, next.runs, u);
  }

  /** Every stage goes on to one that can take nothing more. */
  lemma {:induction false} TakesAll(states: seq<Taking>, scattered: bool) returns (more: seq<Taking>)
    requires TakeRun(states, scattered)
    ensures TakeRun(more, scattered) && states <= more
    ensures TakeStuck(more[|more| - 1].refs, more[|more| - 1].runs, scattered)
    decreases |Zeros(states[|states| - 1].refs)|
  {
    hide TakeStuck, Took, Zeros;
    var last := states[|states| - 1];
    if TakeStuck(last.refs, last.runs, scattered) {
      more := states;
    } else {
      var next := TakesOneMore(last, scattered);
      var longer := states + [next];
      forall i | 0 <= i < |longer| - 1 ensures Took(longer[i], longer[i + 1], scattered) {
        assert i < |states| - 1 ==> Took(states[i], states[i + 1], scattered);
      }
      more := TakesAll(longer, scattered);
    }
  }

  /** The report can overstate: here a stage takes 32 units and no more, and the report says more. */
  lemma {:induction false} ReportOverstates(states: seq<Taking>, best: nat)
    requires TakeRun(states, true) && states[0].refs == Comb()
    requires IsBest(RunsFrom(Comb(), 0), MAX_EXTENTS, best)
    requires TakeStuck(states[|states| - 1].refs, states[|states| - 1].runs, true)
    ensures |states| - 1 == 32 < best
  {
    hide IsBest, Took, TakeStuck, RunsFrom, Sum;
    CombRuns(0);
    var runs := RunsFrom(Comb(), 0);
    assert First(runs, MAX_EXTENTS) == seq(32, _ => 1);
    SumOnes(32);
    ScatteredTake(states);
    SweepStuck(states[0].refs, states[|states| - 1]);
    FirstIsBest(runs, MAX_EXTENTS, best);
    assert runs[32] > runs[0];
  }

  /** Such a stage there is: on this flash one takes 32 units and is stuck, and the report says more. */
  lemma {:induction false} OverstatedStage(best: nat) returns (states: seq<Taking>)
    requires IsBest(RunsFrom(Comb(), 0), MAX_EXTENTS, best)
    ensures TakeRun(states, true) && states[0] == Taking(Comb(), []) && |states| - 1 == 32 < best
    ensures TakeStuck(states[32].refs, states[32].runs, true)
  {
    hide IsBest, TakeStuck, RunsFrom, Took;
    states := TakesAll([Taking(Comb(), [])], true);
    assert states[0] == Taking(Comb(), []);
    ReportOverstates(states, best);
  }

  /** The report there, and a stage that takes less and is stuck. */
  method Overstated() returns (n: nat, ghost states: seq<Taking>)
    ensures IsBest(RunsFrom(Comb(), 0), MAX_EXTENTS, n)
    ensures TakeRun(states, true) && states[0] == Taking(Comb(), []) && |states| - 1 == 32 < n
    ensures TakeStuck(states[32].refs, states[32].runs, true)
  {
    hide IsBest, TakeStuck, RunsFrom, Took;
    var comb := Comb();
    var refs := new byte[66](i requires 0 <= i < 66 == |comb| => comb[i]);
    assert refs[..] == Comb();
    n := LargestTake(refs, true);
    states := OverstatedStage(n);
  }
}
