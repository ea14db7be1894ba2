/** Scans of the unit map: the first free unit, the longest free run, the units one stage can take. */
module UnitScan {
  import opened Bytes

  datatype Run = Run(first: nat, count: nat)

  /** Units s .. s + l - 1 are all free. */
  ghost predicate FreeRun(refs: seq<byte>, s: int, l: int) {
    0 <= s && 0 <= l && s + l <= |refs| && forall v | s <= v < s + l :: refs[v] == 0
  }

  ghost predicate IsFirstFree(refs: seq<byte>, u: nat) {
    u < |refs| && refs[u] == 0 && forall v | 0 <= v < u :: refs[v] != 0
  }

  ghost predicate NoneFree(refs: seq<byte>) {
    forall v | 0 <= v < |refs| :: refs[v] != 0
  }

  /** `start` begins a longest free run, and no longest free run begins before it. */
  ghost predicate IsLongestRun(refs: seq<byte>, start: nat, best: nat) {
    && FreeRun(refs, start, best)
    && (forall s, l | FreeRun(refs, s, l) :: l <= best)
    && (forall s | FreeRun(refs, s, best) :: start <= s)
  }

  method CountFree(refs: array<byte>) returns (n: nat)
    ensures n == |set u | 0 <= u < refs.Length && refs[u] == 0|
  {
    n := 0;
    for u := 0 to refs.Length
      invariant n == |set v | 0 <= v < u && refs[v] == 0|
    {
      ghost var before := set v | 0 <= v < u && refs[v] == 0;
      if refs[u] == 0 {
        n := n + 1;
        assert (set v | 0 <= v < u + 1 && refs[v] == 0) == before + {u};
      } else {
        assert (set v | 0 <= v < u + 1 && refs[v] == 0) == before;
      }
    }
  }

  method FirstFree(refs: array<byte>) returns (r: Option<nat>)
    ensures r.Some? ==> IsFirstFree(refs[..], r.value)
    ensures r.None? ==> NoneFree(refs[..])
  {
    for u := 0 to refs.Length
      invariant forall v | 0 <= v < u :: refs[v] != 0
    {
      if refs[u] == 0 {
        return Some(u);
      }
    }
    return None;
  }

  method LargestRun(refs: array<byte>) returns (best: nat, start: nat)
    ensures best == 0 <==> NoneFree(refs[..])
    ensures IsLongestRun(refs[..], start, best)
  {
    best, start := 0, 0;
    var run := 0;
    for u := 0 to refs.Length
      invariant run <= u
      invariant FreeRun(refs[..], u - run, run)
      invariant run < u ==> refs[u - run - 1] != 0
      invariant FreeRun(refs[..], start, best) && start + best <= u
      invariant forall s, l | FreeRun(refs[..], s, l) && s + l <= u :: l <= best
      invariant best > 0 ==> forall s | FreeRun(refs[..], s, best) && s + best <= u :: start <= s
      invariant best == 0 ==> start == 0 && forall v | 0 <= v < u :: refs[v] != 0
    {
      if refs[u] != 0 {
        run := 0;
      } else {
        run := run + 1;
        RunsEndingAt(refs[..], u, run);
        if run > best {
          best := run;
          start := u + 1 - run;
        }
      }
    }
    assert best > 0 ==> refs[..][start] == 0;
    assert NoneFree(refs[..]) <==> forall v | 0 <= v < refs.Length :: refs[v] != 0;
  }

  /** With unit u free and the run ending there `run` units long, no free run ending there is longer. */
  lemma RunsEndingAt(refs: seq<byte>, u: nat, run: nat)
    requires u < |refs| && 1 <= run <= u + 1
    requires run <= u ==> refs[u - run] != 0
    ensures forall s, l | FreeRun(refs, s, l) && s + l == u + 1 :: l <= run
  {
  }
}
