/** The runs of units a stage has taken, and the extents and bytes they stand for. */
module StageLayout {
  import opened Arith
  import opened Bytes
  import opened BlobRecord
  import opened FlashLayout
  import opened UnitScan

  ghost predicate RunsOk(runs: seq<Run>, g: Geometry) {
    forall i | 0 <= i < |runs| :: runs[i].count >= 1 && runs[i].first + runs[i].count <= g.units
  }

  predicate Holds(r: Run, u: nat) {
    r.first <= u < r.first + r.count
  }

  /** How many of the runs hold unit `u`. */
  ghost function RunHits(runs: seq<Run>, u: nat): nat {
    if runs == [] then 0
    else RunHits(runs[..|runs| - 1], u) + if Holds(runs[|runs| - 1], u) then 1 else 0
  }

  /** Units the runs hold in all. */
  ghost function Span(runs: seq<Run>): nat {
    if runs == [] then 0 else Span(runs[..|runs| - 1]) + runs[|runs| - 1].count
  }

  lemma {:induction false} RunFits(r: Run, g: Geometry, off: nat)
    requires g.Ok() && r.count >= 1 && r.first + r.count <= g.units && off <= g.unit
    ensures 0 <= (r.count - 1) * g.unit
    ensures r.first * g.unit + ((r.count - 1) * g.unit + off) <= g.units * g.unit
    ensures r.first * g.unit + (r.count - 1) * g.unit == (r.first + r.count - 1) * g.unit
  {
    MulMono(0, r.count - 1, g.unit);
    Product(r.first, r.count - 1, g.unit);
    Product(r.first + r.count - 1, 1, g.unit);
    MulMono(r.first + r.count, g.units, g.unit);
  }

  /** A run as a byte extent when `off` bytes of its last unit are written. */
  ghost function RunExtent(r: Run, g: Geometry, off: nat): Extent
    requires g.Ok() && r.count >= 1 && r.first + r.count <= g.units && off <= g.unit
  {
    RunFits(r, g, off);
    MulMono(0, r.first, g.unit);
    Extent(r.first * g.unit, (r.count - 1) * g.unit + off)
  }

  /** The extents of the runs: every run full but the last, which has `off` bytes in its last unit. */
  ghost function RunExtents(runs: seq<Run>, g: Geometry, off: nat): (ext: seq<Extent>)
    requires g.Ok() && RunsOk(runs, g) && off <= g.unit
    ensures |ext| == |runs|
    ensures forall i | 0 <= i < |ext| :: ext[i].offset + ext[i].length <= g.units * g.unit
    ensures forall i | 0 <= i < |ext| :: ext[i] == RunExtent(runs[i], g, if i == |runs| - 1 then off else g.unit)
  {
    if runs == [] then []
    else
      var last := runs[|runs| - 1];
      RunFits(last, g, off);
      RunExtents(runs[..|runs| - 1], g, g.unit) + [RunExtent(last, g, off)]
  }

  lemma {:induction false} RunTouches(r: Run, g: Geometry, off: nat, u: nat)
    requires g.Ok() && r.count >= 1 && r.first + r.count <= g.units && 0 < off <= g.unit
    ensures Touches(RunExtent(r, g, off), g.unit, u) <==> Holds(r, u)
  {
    RunFits(r, g, off);
    DivInUnit(r.first, 0, g.unit);
    DivInUnit(r.first + r.count - 1, off - 1, g.unit);
  }

  /** A record made of the stage's extents names exactly the units the stage holds. */
  lemma {:induction false} HitsOfRuns(runs: seq<Run>, g: Geometry, off: nat, u: nat)
    requires g.Ok() && RunsOk(runs, g) && 0 < off <= g.unit
    ensures Hits(RunExtents(runs, g, off), g.unit, u) == RunHits(runs, u)
  {
    if runs != [] {
      var front := runs[..|runs| - 1];
      HitsOfRuns(front, g, g.unit, u);
      RunTouches(runs[|runs| - 1], g, off, u);
      var ext := RunExtents(runs, g, off);
      assert ext[..|ext| - 1] == RunExtents(front, g, g.unit);
    }
  }

  lemma {:induction false} RunHitsPositive(runs: seq<Run>, u: nat)
    ensures RunHits(runs, u) > 0 <==> exists i | 0 <= i < |runs| :: Holds(runs[i], u)
  {
    if runs != [] {
      var front := runs[..|runs| - 1];
      RunHitsPositive(front, u);
      if i :| 0 <= i < |front| && Holds(front[i], u) {
        assert Holds(runs[i], u);
      }
      if i :| 0 <= i < |runs| && Holds(runs[i], u) {
        if i < |front| {
          assert Holds(front[i], u);
        }
      }
    }
  }

  lemma {:induction false} RunHitsStep(runs: seq<Run>, i: nat, u: nat)
    requires i < |runs|
    ensures RunHits(runs[..i + 1], u) == RunHits(runs[..i], u) + if Holds(runs[i], u) then 1 else 0
  {
    assert runs[..i + 1][..i] == runs[..i];
  }

  lemma {:induction false} RunHitsPrefix(runs: seq<Run>, i: nat, u: nat)
    requires i <= |runs|
    ensures RunHits(runs[..i], u) <= RunHits(runs, u)
    decreases |runs| - i
  {
    if i < |runs| {
      RunHitsStep(runs, i, u);
      RunHitsPrefix(runs, i + 1, u);
    } else {
      assert runs[..i] == runs;
    }
  }

  /** Growing the last run by the unit after it. */
  function Grown(runs: seq<Run>): seq<Run>
    requires runs != []
  {
    var n := |runs| - 1;
    runs[n := Run(runs[n].first, runs[n].count + 1)]
  }

  lemma {:induction false} RunHitsGrown(runs: seq<Run>, u: nat)
    requires runs != []
    ensures RunHits(Grown(runs), u)
         == RunHits(runs, u) + if u == runs[|runs| - 1].first + runs[|runs| - 1].count then 1 else 0
  {
    assert Grown(runs)[..|runs| - 1] == runs[..|runs| - 1];
  }

  lemma {:induction false} RunHitsSnoc(runs: seq<Run>, r: Run, u: nat)
    ensures RunHits(runs + [r], u) == RunHits(runs, u) + if Holds(r, u) then 1 else 0
  {
    assert (runs + [r])[..|runs|] == runs;
  }

  lemma {:induction false} SpanSnoc(runs: seq<Run>, r: Run)
    ensures Span(runs + [r]) == Span(runs) + r.count
  {
    assert (runs + [r])[..|runs|] == runs;
  }

  lemma {:induction false} SpanGrown(runs: seq<Run>)
    requires runs != []
    ensures Span(Grown(runs)) == Span(runs) + 1
  {
    assert Grown(runs)[..|runs| - 1] == runs[..|runs| - 1];
  }

  /** Taking a unit and writing nothing there yet stands for the same bytes. */
  lemma {:induction false} GatherGrown(cells: seq<Cell>, runs: seq<Run>, g: Geometry)
    requires g.Ok() && |cells| == g.units * g.unit
    requires runs != [] && RunsOk(runs, g) && RunsOk(Grown(runs), g)
    ensures Gather(cells, RunExtents(Grown(runs), g, 0)) == Gather(cells, RunExtents(runs, g, g.unit))
  {
    var n := |runs| - 1;
    var more := Grown(runs);
    assert more[..n] == runs[..n];
    Product(runs[n].count - 1, 1, g.unit);
    assert RunExtent(more[n], g, 0) == RunExtent(runs[n], g, g.unit);
  }

  lemma {:induction false} GatherSnoc(cells: seq<Cell>, runs: seq<Run>, u: nat, g: Geometry)
    requires g.Ok() && |cells| == g.units * g.unit
    requires RunsOk(runs, g) && u < g.units
    ensures RunsOk(runs + [Run(u, 1)], g)
    ensures Gather(cells, RunExtents(runs + [Run(u, 1)], g, 0)) == Gather(cells, RunExtents(runs, g, g.unit))
  {
    var more := runs + [Run(u, 1)];
    assert more[..|runs|] == runs;
    var ext := RunExtents(more, g, 0);
    assert ext == RunExtents(runs, g, g.unit) + [RunExtent(Run(u, 1), g, 0)];
    assert ext[..|runs|] == RunExtents(runs, g, g.unit);
  }

  /** `after` is `before` with `data` written at `addr`. */
  ghost predicate Wrote(before: seq<Cell>, after: seq<Cell>, addr: nat, data: seq<byte>) {
    && |after| == |before|
    && addr + |data| <= |before|
    && (forall a | 0 <= a < |before| && !(addr <= a < addr + |data|) :: after[a] == before[a])
    && (forall i | 0 <= i < |data| :: after[addr + i].value == data[i])
  }

  lemma {:induction false} SliceGrows(before: seq<Cell>, after: seq<Cell>, from: nat, addr: nat, data: seq<byte>)
    requires from <= addr && Wrote(before, after, addr, data)
    ensures Values(after[from..addr + |data|]) == Values(before[from..addr]) + data
  {
    var l, r := Values(after[from..addr + |data|]), Values(before[from..addr]) + data;
    forall i | 0 <= i < |l| ensures l[i] == r[i] {
      assert l[i] == after[from + i].value;
      if from + i >= addr {
        assert after[addr + (from + i - addr)].value == data[from + i - addr];
      }
    }
  }

  /** Only unit `u` differs. */
  predicate OnlyUnit(before: seq<Cell>, after: seq<Cell>, unit: nat, u: nat)
    requires unit > 0
  {
    |after| == |before| && forall a | 0 <= a < |before| && a / unit != u :: after[a] == before[a]
  }

  lemma {:induction false} WroteOnlyUnit(before: seq<Cell>, after: seq<Cell>, unit: nat, u: nat, off: nat, addr: nat,
                                         data: seq<byte>)
    requires off + |data| <= unit && addr == u * unit + off && 0 < unit
    requires Wrote(before, after, addr, data)
    ensures OnlyUnit(before, after, unit, u)
  {
    forall a | 0 <= a < |before| && a / unit != u ensures after[a] == before[a] {
      if addr <= a < addr + |data| {
        DivInUnit(u, a - u * unit, unit);
      }
    }
  }

  lemma {:induction false} RunsUnchanged(before: seq<Cell>, after: seq<Cell>, runs: seq<Run>, g: Geometry, u: nat)
    requires g.Ok() && |before| == g.units * g.unit
    requires RunsOk(runs, g) && RunHits(runs, u) == 0
    requires OnlyUnit(before, after, g.unit, u)
    ensures Gather(after, RunExtents(runs, g, g.unit)) == Gather(before, RunExtents(runs, g, g.unit))
  {
    var ext := RunExtents(runs, g, g.unit);
    RunHitsPositive(runs, u);
    forall i | 0 <= i < |ext| ensures !Touches(ext[i], g.unit, u) {
      RunTouches(runs[i], g, g.unit, u);
    }
    GatherFrame(before, after, ext, g.unit, u);
  }

  /** The last extent ends where the last unit taken has `off` bytes. */
  lemma {:induction false} LastExtentEnd(runs: seq<Run>, g: Geometry, off: nat)
    requires g.Ok() && runs != [] && RunsOk(runs, g) && off <= g.unit
    ensures var e := RunExtents(runs, g, off)[|runs| - 1];
            e.offset == runs[|runs| - 1].first * g.unit && e.offset + e.length == LastTaken(runs) * g.unit + off
  {
    RunFits(runs[|runs| - 1], g, off);
  }

  lemma {:induction false} GatherAppend(before: seq<Cell>, after: seq<Cell>, front: seq<Extent>, e: Extent, e': Extent,
                                        data: seq<byte>)
    requires forall i | 0 <= i < |front| :: front[i].offset + front[i].length <= |before|
    requires e.offset + e.length <= |before| == |after|
    requires e'.offset + e'.length <= |after|
    requires Gather(after, front) == Gather(before, front)
    requires Values(after[e'.offset..e'.offset + e'.length]) == Values(before[e.offset..e.offset + e.length]) + data
    ensures Gather(after, front + [e']) == Gather(before, front + [e]) + data
  {
    assert (front + [e])[..|front|] == front && (front + [e'])[..|front|] == front;
  }

  /** Writing the next bytes of the last unit appends them to what the stage holds. */
  lemma {:induction false} GatherWrite(before: seq<Cell>, after: seq<Cell>, runs: seq<Run>, g: Geometry, off: nat,
                                       addr: nat, data: seq<byte>)
    requires g.Ok() && |before| == g.units * g.unit
    requires runs != [] && RunsOk(runs, g) && off + |data| <= g.unit
    requires RunHits(runs, LastTaken(runs)) == 1
    requires addr == LastTaken(runs) * g.unit + off
    requires Wrote(before, after, addr, data)
    ensures Gather(after, RunExtents(runs, g, off + |data|)) == Gather(before, RunExtents(runs, g, off)) + data
  {
    hide Gather, Wrote, OnlyUnit, RunHits, RunExtent, RunExtents;
    var n, u := |runs| - 1, LastTaken(runs);
    assert runs[..n + 1] == runs;
    RunHitsStep(runs, n, u);
    WroteSame(before, after, addr, data);
    WroteOnlyUnit(before, after, g.unit, u, off, addr, data);
    RunsUnchanged(before, after, runs[..n], g, u);
    LastExtents(runs, g, off);
    LastExtents(runs, g, off + |data|);
    var e, e' := RunExtent(runs[n], g, off), RunExtent(runs[n], g, off + |data|);
    SliceGrows(before, after, e.offset, addr, data);
    GatherAppend(before, after, RunExtents(runs[..n], g, g.unit), e, e', data);
  }

  lemma {:induction false} WroteSame(before: seq<Cell>, after: seq<Cell>, addr: nat, data: seq<byte>)
    requires Wrote(before, after, addr, data)
    ensures |after| == |before| && addr + |data| <= |before|
  {
  }

  /** The last extent follows those of the whole runs, and ends where the last unit taken has `off` bytes. */
  lemma {:induction false} LastExtents(runs: seq<Run>, g: Geometry, off: nat)
    requires g.Ok() && runs != [] && RunsOk(runs, g) && off <= g.unit
    ensures var n := |runs| - 1;
            var e := RunExtent(runs[n], g, off);
            && RunExtents(runs, g, off) == RunExtents(runs[..n], g, g.unit) + [e]
            && e.offset == runs[n].first * g.unit && e.offset + e.length == LastTaken(runs) * g.unit + off
  {
    LastExtentEnd(runs, g, off);
  }

  /** The unit the stage took last. */
  function LastTaken(runs: seq<Run>): int
    requires runs != []
  {
    runs[|runs| - 1].first + runs[|runs| - 1].count - 1
  }
}
