/** What keeps the unit map, the stage and the record files in step. */
module PageRules {
  import opened Arith
  import opened Bytes
  import opened BlobRecord
  import opened FlashLayout
  import opened UnitScan
  import opened StageLayout

  /** What a call reports. `Failed` is an error of the medium. */
  datatype Status = Done | Invalid | NoEntry | Exists | Failed

  /** The unit map says what the records and the stage say. */
  ghost predicate Agree(refs: seq<byte>, adopted: seq<bool>, recs: Records, runs: seq<Run>, unit: nat)
    requires unit > 0
  {
    && |refs| == |adopted|
    && (forall u | 0 <= u < |refs| :: refs[u] as int == Owners(recs, unit, u) + RunHits(runs, u))
    && (forall u | 0 <= u < |refs| :: adopted[u] <==> AdoptedNamed(recs, unit, u))
  }

  /** The stage after a run of writes that all succeeded. */
  ghost predicate Intact(g: Geometry, cells: seq<Cell>, runs: seq<Run>, curOff: nat, total: nat, staged: seq<byte>)
    requires g.Ok() && RunsOk(runs, g) && |cells| == g.units * g.unit && curOff <= g.unit
  {
    && total == |staged| == (Span(runs) - 1) * g.unit + curOff
    && Gather(cells, RunExtents(runs, g, curOff)) == staged
    && (runs != [] ==> BlankFrom(cells, g.unit, LastTaken(runs), curOff))
  }

  /** The bytes of unit `u` from `off` on are erased and not written since. */
  ghost predicate BlankFrom(cells: seq<Cell>, unit: nat, u: int, off: nat)
    requires unit > 0
  {
    forall a | 0 <= a < |cells| && a / unit == u && a % unit >= off :: cells[a].blank
  }

  ghost predicate Extendable(refs: seq<byte>, runs: seq<Run>) {
    runs != [] && LastTaken(runs) + 1 < |refs| && refs[LastTaken(runs) + 1] == 0
  }

  /** One unit taken: the one after the last when it is free, else a unit elsewhere. */
  ghost predicate TakeStep(refs: seq<byte>, runs: seq<Run>, scattered: bool, refs': seq<byte>, runs': seq<Run>,
                           u: nat) {
    && u < |refs| && refs[u] == 0 && refs' == refs[u := 1]
    && if Extendable(refs, runs) then u == LastTaken(runs) + 1 && runs' == Grown(runs)
       else
         && |runs| < MAX_EXTENTS && runs' == runs + [Run(u, 1)]
         && if scattered then IsFirstFree(refs, u)
            else runs == [] && exists best | best > 0 :: IsLongestRun(refs, u, best)
  }

  /** No unit the stage may take. */
  ghost predicate TakeStuck(refs: seq<byte>, runs: seq<Run>, scattered: bool) {
    && !Extendable(refs, runs)
    && ((runs != [] && !scattered) || |runs| >= MAX_EXTENTS || NoneFree(refs))
  }

  /** Taking a unit keeps the map in step, and the unit taken was named by nothing. */
  lemma {:induction false} TakeKeeps(g: Geometry, refs: seq<byte>, adopted: seq<bool>, recs: Records, runs: seq<Run>,
                                     refs': seq<byte>, runs': seq<Run>, u: nat)
    requires g.Ok() && |refs| == g.units && RunsOk(runs, g)
    requires Agree(refs, adopted, recs, runs, g.unit)
    requires forall v | 0 <= v < |refs| && RunHits(runs, v) > 0 :: refs[v] == 1
    requires TakeStep(refs, runs, g.scattered, refs', runs', u)
    ensures RunsOk(runs', g)
    ensures runs' != [] && LastTaken(runs') == u
    ensures Agree(refs', adopted, recs, runs', g.unit)
    ensures forall v | 0 <= v < |refs'| && RunHits(runs', v) > 0 :: refs'[v] == 1
    ensures RunHits(runs, u) == 0
    ensures forall d | d in recs :: !Names(recs[d], g.unit, u)
  {
    hide IsLongestRun, IsFirstFree, AdoptedNamed, Owners, RunHits;
    forall v: nat ensures RunHits(runs', v) == RunHits(runs, v) + if v == u then 1 else 0 {
      if Extendable(refs, runs) {
        RunHitsGrown(runs, v);
      } else {
        RunHitsSnoc(runs, Run(u, 1), v);
      }
    }
    OwnersPositive(recs, g.unit, u);
  }

  lemma {:induction false} LastUnitUnnamed(g: Geometry, refs: seq<byte>, adopted: seq<bool>, recs: Records,
                                           runs: seq<Run>)
    requires g.Ok() && |refs| == g.units && RunsOk(runs, g) && runs != []
    requires Agree(refs, adopted, recs, runs, g.unit)
    requires forall v | 0 <= v < |refs| && RunHits(runs, v) > 0 :: refs[v] == 1
    ensures RunHits(runs, LastTaken(runs)) == 1
    ensures forall d | d in recs :: !Names(recs[d], g.unit, LastTaken(runs))
  {
    var u := LastTaken(runs);
    assert Holds(runs[|runs| - 1], u);
    RunHitsPositive(runs, u);
    OwnersPositive(recs, g.unit, u);
  }

  /** Taking and erasing a unit leaves what the stage holds. */
  lemma {:induction false} StillStaged(g: Geometry, before: seq<Cell>, after: seq<Cell>, runs: seq<Run>,
                                       runs': seq<Run>,
                                       u: nat, total: nat, staged: seq<byte>)
    requires g.Ok() && |before| == g.units * g.unit && RunsOk(runs, g) && RunsOk(runs', g) && u < g.units
    requires Intact(g, before, runs, g.unit, total, staged)
    requires OnlyUnit(before, after, g.unit, u) && BlankFrom(after, g.unit, u, 0)
    requires RunHits(runs, u) == 0
    requires runs' == runs + [Run(u, 1)] || (runs != [] && u == LastTaken(runs) + 1 && runs' == Grown(runs))
    ensures Intact(g, after, runs', 0, total, staged)
  {
    hide Gather, RunExtents, RunHits, Span;
    RunsUnchanged(before, after, runs, g, u);
    if runs' == runs + [Run(u, 1)] {
      GatherSnoc(after, runs, u, g);
      SpanSnoc(runs, Run(u, 1));
    } else {
      GatherGrown(after, runs, g);
      SpanGrown(runs);
    }
    Product(Span(runs) - 1, 1, g.unit);
  }

  function Counted(n: byte, on: bool): byte {
    if on then (if n < 255 then n + 1 else n) else if n > 0 then n - 1 else n
  }

  ghost function Saturated(n: nat): nat {
    if n <= 255 then n else 255
  }

  /** The extent is inside the partition, and its units are free or shared between adopted blobs. */
  ghost predicate ClaimableExtent(g: Geometry, refs: seq<byte>, adopted: seq<bool>, e: Extent, isAdopted: bool)
    requires g.Ok() && |refs| == |adopted| == g.units
  {
    && InRange(e, g.units * g.unit)
    && forall u: nat | Touches(e, g.unit, u) :: u < g.units && (refs[u] == 0 || (isAdopted && adopted[u]))
  }

  ghost predicate Claimable(g: Geometry, refs: seq<byte>, adopted: seq<bool>, b: Blob)
    requires g.Ok() && |refs| == |adopted| == g.units
  {
    forall i | 0 <= i < |b.ext| :: ClaimableExtent(g, refs, adopted, b.ext[i], b.Adopted())
  }

  function Spliced(cells: seq<Cell>, addr: nat, part: seq<Cell>): (r: seq<Cell>)
    requires addr + |part| <= |cells|
    ensures |r| == |cells|
  {
    cells[..addr] + part + cells[addr + |part|..]
  }

  lemma {:induction false} WroteOver(before: seq<Cell>, torn: seq<Cell>, written: seq<Cell>, after: seq<Cell>,
                                     addr: nat, data: seq<byte>)
    requires addr + |data| <= |before| && |torn| == |written| == |data|
    requires after == Spliced(Spliced(before, addr, torn), addr, written)
    requires forall i | 0 <= i < |data| :: written[i].value == data[i]
    ensures Wrote(before, after, addr, data)
  {
    forall i | 0 <= i < |data| ensures after[addr + i].value == data[i] {
      assert after[addr + i] == written[i];
    }
  }

  lemma {:induction false} StillBlank(before: seq<Cell>, after: seq<Cell>, unit: nat, u: nat, off: nat, addr: nat,
                                      n: nat)
    requires 0 < unit && |before| == |after| && addr == u * unit + off && off + n <= unit
    requires forall a | 0 <= a < |before| && !(addr <= a < addr + n) :: after[a] == before[a]
    requires BlankFrom(before, unit, u, off)
    ensures BlankFrom(after, unit, u, off + n)
  {
    forall a | 0 <= a < |after| && a / unit == u && a % unit >= off + n ensures after[a].blank {
      assert a == u * unit + a % unit;
    }
  }

  lemma {:induction false} SpanEmpty()
    ensures Span([]) == 0
  {
  }

  lemma {:induction false} SpanStep(runs: seq<Run>, i: nat)
    requires i < |runs|
    ensures Span(runs[..i + 1]) == Span(runs[..i]) + runs[i].count
  {
    assert runs[..i + 1][..i] == runs[..i];
  }

  lemma {:induction false} SpanPrefix(runs: seq<Run>, i: nat)
    requires i <= |runs|
    ensures Span(runs[..i]) <= Span(runs)
    decreases |runs| - i
  {
    if i < |runs| {
      SpanStep(runs, i);
      SpanPrefix(runs, i + 1);
    } else {
      assert runs[..i] == runs;
    }
  }

  /** What is left of the data at run `i`: it fills that run, and the last run takes the rest. */
  /** The bytes of a stage in the runs from `i` on, when its last unit is full to `curOff`. */
  ghost function BytesFrom(runs: seq<Run>, i: nat, g: Geometry, curOff: nat): int
    requires i <= |runs|
  {
    if i == |runs| then 0 else (Span(runs) - Span(runs[..i]) - 1) * g.unit + curOff
  }

  lemma {:induction false} BytesFromAll(runs: seq<Run>, g: Geometry, curOff: nat)
    requires runs != []
    ensures BytesFrom(runs, 0, g, curOff) == (Span(runs) - 1) * g.unit + curOff
  {
    assert runs[..0] == [];
  }

  lemma {:induction false} LeftAt(runs: seq<Run>, i: nat, g: Geometry, curOff: nat, left: int)
    requires g.Ok() && RunsOk(runs, g) && i < |runs| && 0 < curOff <= g.unit
    requires left == BytesFrom(runs, i, g, curOff)
    ensures var off := if i == |runs| - 1 then curOff else g.unit;
            var span := runs[i].count * g.unit;
            var length := if span < left then span else left;
            && length == (runs[i].count - 1) * g.unit + off
            && left - length == BytesFrom(runs, i + 1, g, curOff)
  {
    hide Span, RunsOk;
    var c: int, rest: int := runs[i].count, Span(runs) - Span(runs[..i + 1]);
    SpanStep(runs, i);
    Product(c - 1, 1, g.unit);
    Product(c, rest - 1, g.unit);
    if i == |runs| - 1 {
      assert runs[..i + 1] == runs;
    } else {
      SpanStep(runs, i + 1);
      SpanPrefix(runs, i + 2);
      assert runs[i + 1].count >= 1 by { RunAt(runs, g, i + 1); }
      MulMono(0, rest - 1, g.unit);
    }
  }

  lemma {:induction false} RunAt(runs: seq<Run>, g: Geometry, i: nat)
    requires RunsOk(runs, g) && i < |runs|
    ensures runs[i].count >= 1
  {
  }

  /** A record of the stage's extents can join the others: the stage shares no unit with them. */
  lemma {:induction false} StageCompatible(g: Geometry, refs: seq<byte>, adopted: seq<bool>, recs: Records,
                                           runs: seq<Run>, off: nat, d: Digest, b: Blob)
    requires g.Ok() && |refs| == g.units && RunsOk(runs, g) && 0 < off <= g.unit
    requires Agree(refs, adopted, recs, runs, g.unit) && Compatible(recs, g.unit, g.units)
    requires forall u | 0 <= u < |refs| && RunHits(runs, u) > 0 :: refs[u] == 1
    requires b.digest == d && b.ext == RunExtents(runs, g, off)
    requires d !in recs
    ensures Compatible(recs[d := b], g.unit, g.units)
  {
    hide RunHits, Hits, Owners, RunExtents;
    var recs' := recs[d := b];
    forall i | 0 <= i < |b.ext| ensures InRange(b.ext[i], g.units * g.unit) {
      RunAt(runs, g, i);
      RunFits(runs[i], g, off);
    }
    forall e, u: nat | e in recs && Names(recs[e], g.unit, u) ensures !Names(b, g.unit, u) {
      OwnersPositive(recs, g.unit, u);
      HitsOfRuns(runs, g, off, u);
      HitsPositive(b.ext, g.unit, u);
      NamedIsUnit(recs[e], g, u);
    }
  }

  lemma {:induction false} NamedIsUnit(b: Blob, g: Geometry, u: nat)
    requires g.Ok() && Names(b, g.unit, u)
    requires forall i | 0 <= i < |b.ext| :: InRange(b.ext[i], g.units * g.unit)
    ensures u < g.units
  {
    var i :| 0 <= i < |b.ext| && Touches(b.ext[i], g.unit, u);
    TouchedIsUnit(b.ext[i], g.unit, g.units, u);
  }

  /** The units pass from the stage to the record with no change to the map. */
  lemma {:induction false} StageHandsOver(g: Geometry, refs: seq<byte>, adopted: seq<bool>, recs: Records,
                                          runs: seq<Run>, off: nat, d: Digest, b: Blob)
    requires g.Ok() && |refs| == g.units && RunsOk(runs, g) && 0 < off <= g.unit
    requires Agree(refs, adopted, recs, runs, g.unit)
    requires b.ext == RunExtents(runs, g, off) && !b.Adopted() && d !in recs
    ensures Agree(refs, adopted, recs[d := b], [], g.unit)
  {
    hide RunExtents, Owners, Hits;
    forall u | 0 <= u < |refs| ensures refs[u] as int == Owners(recs[d := b], g.unit, u) + RunHits([], u) {
      OwnersAdd(recs, d, b, g.unit, u);
      HitsOfRuns(runs, g, off, u);
    }
    forall u: nat ensures AdoptedNamed(recs[d := b], g.unit, u) <==> AdoptedNamed(recs, g.unit, u) {
      if e :| e in recs && recs[e].Adopted() && Names(recs[e], g.unit, u) {
        assert recs[d := b][e].Adopted() && Names(recs[d := b][e], g.unit, u);
      }
    }
  }

  /** What the new record shows is what was staged; every other blob is as before. */
  lemma {:induction false} StageContents(g: Geometry, cells: seq<Cell>, files: Files, runs: seq<Run>, off: nat,
                                         total: nat, staged: seq<byte>, d: Digest, b: Blob)
    requires g.Ok() && RunsOk(runs, g) && runs != [] && off <= g.unit && |runs| <= MAX_EXTENTS
    requires !g.scattered ==> |runs| <= 1
    requires g.Good(Medium(cells, files)) && Intact(g, cells, runs, off, total, staged)
    requires b.ext == RunExtents(runs, g, off) && b.length == total
    requires Compatible(RecordsOf(files)[d := b], g.unit, g.units)
    ensures var m := Medium(cells, files[d := BlobBytes(b)]);
            g.Good(m) && g.Contents(m) == g.Contents(Medium(cells, files))[d := staged]
  {
    hide Compatible, RunExtents, Gather, BlobBytes, BlobFrom;
    RecordsAfterPut(files, d, b);
    var files' := files[d := BlobBytes(b)];
    forall k | k in files' ensures Load(files', k).Some? {
      if k != d {
        assert Load(files', k) == Load(files, k);
      }
    }
    var shown := if g.scattered || b.ext == [] then b.ext else b.ext[..1];
    assert shown == b.ext;
    assert g.Mapped(cells, b) == staged;
  }

  lemma {:induction false} NoRuns(g: Geometry)
    ensures RunsOk([], g) && forall u: nat :: RunHits([], u) == 0
  {
  }

  /** A sound file is a record and so has bytes that fit the buffer. */
  lemma {:induction false} LoadedSize(files: Files, d: Digest, g: Geometry)
    requires g.Ok() && Sound(files, g.unit, g.units)
    ensures d in files ==> 0 < |files[d]| <= RECORD_MAX
  {
    assert d in files ==> Load(files, d).Some?;
  }

  ghost function Range(a: int, b: int): (s: set<int>)
    requires a <= b
    ensures forall u :: u in s <==> a <= u < b
    ensures |s| == b - a
    decreases b - a
  {
    if a == b then {} else Range(a, b - 1) + {b - 1}
  }

  ghost function Held(runs: seq<Run>, units: nat): set<int> {
    set u | u in Range(0, units) && RunHits(runs, u) > 0
  }

  /** Units no two runs share are no more than there are. */
  lemma {:induction false} SpanCounts(runs: seq<Run>, g: Geometry)
    requires RunsOk(runs, g)
    requires forall u | 0 <= u < g.units :: RunHits(runs, u) <= 1
    ensures Span(runs) == |Held(runs, g.units)|
  {
    if runs == [] {
      assert Held(runs, g.units) == {};
    } else {
      var front, last := runs[..|runs| - 1], runs[|runs| - 1];
      forall u: nat ensures RunHits(runs, u) == RunHits(front, u) + if Holds(last, u) then 1 else 0 {}
      forall u | 0 <= u < g.units ensures RunHits(front, u) <= 1 {
        assert RunHits(runs, u) <= 1;
      }
      SpanCounts(front, g);
      var ofLast := Range(last.first, last.first + last.count);
      assert Held(runs, g.units) == Held(front, g.units) + ofLast;
      forall u | u in ofLast ensures u !in Held(front, g.units) {
        assert RunHits(runs, u) <= 1;
      }
      assert Held(front, g.units) !! ofLast;
    }
  }

  /** What is staged fits the partition, so its length fits the record. */
  lemma {:induction false} StageFits(runs: seq<Run>, g: Geometry, off: nat)
    requires g.Ok() && RunsOk(runs, g) && off <= g.unit
    requires forall u | 0 <= u < g.units :: RunHits(runs, u) <= 1
    ensures (Span(runs) - 1) * g.unit + off <= g.units * g.unit
  {
    hide RunHits, Span;
    SpanCounts(runs, g);
    SubsetSize(Held(runs, g.units), Range(0, g.units));
    MulMono(Span(runs), g.units, g.unit);
    Product(Span(runs) - 1, 1, g.unit);
  }

  lemma {:induction false} SubsetSize<T>(a: set<T>, b: set<T>)
    requires a <= b
    ensures |a| <= |b|
  {
    assert b == a + (b - a);
  }

  // ---- Claiming and giving back ----

  /** As Agree, with each count stopped at the largest a byte holds. */
  ghost predicate AgreeUpTo255(refs: seq<byte>, adopted: seq<bool>, recs: Records, runs: seq<Run>, unit: nat)
    requires unit > 0
  {
    && |refs| == |adopted|
    && (forall u | 0 <= u < |refs| :: refs[u] as int == Saturated(Owners(recs, unit, u) + RunHits(runs, u)))
    && (forall u | 0 <= u < |refs| :: adopted[u] <==> AdoptedNamed(recs, unit, u))
  }

  /** What marking a claimed blob does to the map. */
  ghost predicate Marked(g: Geometry, refs: seq<byte>, adopted: seq<bool>, b: Blob, refs': seq<byte>,
                         adopted': seq<bool>)
    requires g.Ok() && |refs| == |adopted| == |refs'| == |adopted'|
  {
    && (forall u | 0 <= u < |refs| :: refs'[u] as int == Saturated(refs[u] + Hits(b.ext, g.unit, u)))
    && (forall u | 0 <= u < |refs| :: adopted'[u] <==> adopted[u] || (b.Adopted() && Hits(b.ext, g.unit, u) > 0))
  }

  /** A claim succeeds exactly on a blob that can join the records. */
  lemma {:induction false} ClaimableIff(g: Geometry, refs: seq<byte>, adopted: seq<bool>, recs: Records, d: Digest,
                                        b: Blob)
    requires g.Ok() && |refs| == |adopted| == g.units
    requires AgreeUpTo255(refs, adopted, recs, [], g.unit) && Compatible(recs, g.unit, g.units)
    requires b.digest == d && d !in recs
    ensures Claimable(g, refs, adopted, b) <==> Compatible(recs[d := b], g.unit, g.units)
  {
    if Claimable(g, refs, adopted, b) {
      ClaimCompatible(g, refs, adopted, recs, [], d, b);
    }
    if Compatible(recs[d := b], g.unit, g.units) {
      hide Hits, Owners, RunHits;
      var recs' := recs[d := b];
      forall i | 0 <= i < |b.ext| ensures ClaimableExtent(g, refs, adopted, b.ext[i], b.Adopted()) {
        assert InRange(recs'[d].ext[i], g.units * g.unit);
        forall u: nat | Touches(b.ext[i], g.unit, u) ensures u < g.units
          && (refs[u] == 0 || (b.Adopted() && adopted[u])) {
          TouchedIsUnit(b.ext[i], g.unit, g.units, u);
          assert Names(recs'[d], g.unit, u);
          OwnersPositive(recs, g.unit, u);
          NoRuns(g);
          if refs[u] != 0 {
            var e :| e in recs && Names(recs[e], g.unit, u);
            assert Names(recs'[e], g.unit, u) && recs'[e].Adopted() && recs'[d].Adopted();
          }
        }
      }
    }
  }

  /** A blob that was claimed can join the records and holds no unit of the stage. */
  lemma {:induction false} ClaimCompatible(g: Geometry, refs: seq<byte>, adopted: seq<bool>, recs: Records,
                                           runs: seq<Run>, d: Digest, b: Blob)
    requires g.Ok() && |refs| == |adopted| == g.units
    requires AgreeUpTo255(refs, adopted, recs, runs, g.unit) && Compatible(recs, g.unit, g.units)
    requires forall u | 0 <= u < |refs| && RunHits(runs, u) > 0 :: refs[u] == 1
    requires Claimable(g, refs, adopted, b) && b.digest == d && d !in recs
    ensures Compatible(recs[d := b], g.unit, g.units)
    ensures forall u | 0 <= u < |refs| && RunHits(runs, u) > 0 :: Hits(b.ext, g.unit, u) == 0
  {
    hide Hits, Owners, RunHits;
    var recs' := recs[d := b];
    forall i | 0 <= i < |b.ext| ensures InRange(b.ext[i], g.units * g.unit) {
      assert ClaimableExtent(g, refs, adopted, b.ext[i], b.Adopted());
    }
    forall e, u: nat | e in recs && Names(recs[e], g.unit, u) && Names(b, g.unit, u)
      ensures recs[e].Adopted() && b.Adopted()
    {
      ClaimedUnit(g, refs, adopted, b, u);
      OwnersPositive(recs, g.unit, u);
      assert AdoptedNamed(recs, g.unit, u);
    }
    forall u | 0 <= u < |refs| && RunHits(runs, u) > 0 ensures Hits(b.ext, g.unit, u) == 0 {
      HitsPositive(b.ext, g.unit, u);
      OwnersPositive(recs, g.unit, u);
      if Names(b, g.unit, u) {
        ClaimedUnit(g, refs, adopted, b, u);
      }
    }
  }

  lemma {:induction false} ClaimedUnit(g: Geometry, refs: seq<byte>, adopted: seq<bool>, b: Blob, u: nat)
    requires g.Ok() && |refs| == |adopted| == g.units
    requires Claimable(g, refs, adopted, b) && Names(b, g.unit, u)
    ensures u < g.units && (refs[u] == 0 || (b.Adopted() && adopted[u]))
  {
    var i :| 0 <= i < |b.ext| && Touches(b.ext[i], g.unit, u);
    assert ClaimableExtent(g, refs, adopted, b.ext[i], b.Adopted());
  }

  lemma {:induction false} AdoptedNamedAdd(recs: Records, d: Digest, b: Blob, unit: nat, u: nat)
    requires unit > 0 && d !in recs
    ensures AdoptedNamed(recs[d := b], unit, u) <==> AdoptedNamed(recs, unit, u) || (b.Adopted() && Names(b, unit, u))
  {
    var recs' := recs[d := b];
    if e :| e in recs && recs[e].Adopted() && Names(recs[e], unit, u) {
      assert recs'[e].Adopted() && Names(recs'[e], unit, u);
    }
    if b.Adopted() && Names(b, unit, u) {
      assert recs'[d].Adopted() && Names(recs'[d], unit, u);
    }
  }

  /** Marking a claimed blob keeps the map in step with one more record. */
  lemma {:induction false} MarkKeeps(g: Geometry, refs: seq<byte>, adopted: seq<bool>, recs: Records, runs: seq<Run>,
                                     d: Digest, b: Blob, refs': seq<byte>, adopted': seq<bool>)
    requires g.Ok() && |refs| == |adopted| == |refs'| == |adopted'| == g.units && d !in recs
    requires AgreeUpTo255(refs, adopted, recs, runs, g.unit)
    requires Marked(g, refs, adopted, b, refs', adopted')
    ensures AgreeUpTo255(refs', adopted', recs[d := b], runs, g.unit)
  {
    hide Hits, Owners, RunHits, AdoptedNamed;
    forall u | 0 <= u < |refs|
      ensures refs'[u] as int == Saturated(Owners(recs[d := b], g.unit, u) + RunHits(runs, u))
    {
      OwnersAdd(recs, d, b, g.unit, u);
    }
    forall u | 0 <= u < |refs| ensures adopted'[u] <==> AdoptedNamed(recs[d := b], g.unit, u) {
      AdoptedNamedAdd(recs, d, b, g.unit, u);
      HitsPositive(b.ext, g.unit, u);
    }
  }

  /** What giving back the units of a blob does to the map. */
  ghost predicate Unmarked(g: Geometry, refs: seq<byte>, adopted: seq<bool>, ext: seq<Extent>, refs': seq<byte>,
                           adopted': seq<bool>)
    requires g.Ok() && |refs| == |adopted| == |refs'| == |adopted'|
  {
    && (forall u | 0 <= u < |refs| :: refs'[u] + Hits(ext, g.unit, u) == refs[u])
    && (forall u | 0 <= u < |refs| :: adopted'[u] <==> adopted[u] && (Hits(ext, g.unit, u) == 0 || refs'[u] > 0))
  }

  /** Giving back a blob's units keeps the map in step with one record less. */
  lemma {:induction false} UnmarkKeeps(g: Geometry, refs: seq<byte>, adopted: seq<bool>, recs: Records, runs: seq<Run>,
                                       d: Digest, refs': seq<byte>, adopted': seq<bool>)
    requires g.Ok() && |refs| == |adopted| == |refs'| == |adopted'| == g.units && d in recs
    requires Agree(refs, adopted, recs, runs, g.unit) && Compatible(recs, g.unit, g.units)
    requires forall u | 0 <= u < |refs| && RunHits(runs, u) > 0 :: refs[u] == 1
    requires Unmarked(g, refs, adopted, recs[d].ext, refs', adopted')
    ensures Agree(refs', adopted', recs - {d}, runs, g.unit)
    ensures forall u | 0 <= u < |refs'| && RunHits(runs, u) > 0 :: refs'[u] == 1
    ensures Compatible(recs - {d}, g.unit, g.units)
  {
    hide Hits, Owners, RunHits, AdoptedNamed;
    var rest, b := recs - {d}, recs[d];
    assert rest[d := b] == recs;
    forall u | 0 <= u < |refs|
      ensures refs'[u] as int == Owners(rest, g.unit, u) + RunHits(runs, u)
      ensures adopted'[u] <==> AdoptedNamed(rest, g.unit, u)
      ensures RunHits(runs, u) > 0 ==> refs'[u] == 1
    {
      OwnersSplit(recs, d, g.unit, u);
      AdoptedNamedAdd(rest, d, b, g.unit, u);
      HitsPositive(b.ext, g.unit, u);
      OthersOnUnit(recs, d, g, u);
    }
  }

  /** Another blob on a unit of this one: both are adopted, and then it is marked so. */
  lemma {:induction false} OthersOnUnit(recs: Records, d: Digest, g: Geometry, u: nat)
    requires g.Ok() && d in recs && Compatible(recs, g.unit, g.units)
    ensures Names(recs[d], g.unit, u) && Owners(recs - {d}, g.unit, u) > 0 ==> AdoptedNamed(recs - {d}, g.unit, u)
    ensures AdoptedNamed(recs - {d}, g.unit, u) ==> Owners(recs - {d}, g.unit, u) > 0
  {
    hide Owners;
    OwnersPositive(recs - {d}, g.unit, u);
    if Names(recs[d], g.unit, u) && Owners(recs - {d}, g.unit, u) > 0 {
      var e :| e in recs - {d} && Names((recs - {d})[e], g.unit, u);
      assert Names(recs[e], g.unit, u);
    }
  }

  /** Exact counts are counts that never stopped. */
  lemma {:induction false} AgreeIff(refs: seq<byte>, adopted: seq<bool>, recs: Records, runs: seq<Run>, unit: nat)
    requires unit > 0
    ensures Agree(refs, adopted, recs, runs, unit) <==>
            AgreeUpTo255(refs, adopted, recs, runs, unit)
            && forall u | 0 <= u < |refs| :: Owners(recs, unit, u) + RunHits(runs, u) <= 255
  {
    hide Owners, RunHits, AdoptedNamed;
    if Agree(refs, adopted, recs, runs, unit) {
      forall u | 0 <= u < |refs| ensures Owners(recs, unit, u) + RunHits(runs, u) <= 255 {
        assert refs[u] <= 255;
      }
      assert AgreeUpTo255(refs, adopted, recs, runs, unit);
    } else if AgreeUpTo255(refs, adopted, recs, runs, unit) {
      var u :| 0 <= u < |refs| && refs[u] as int != Owners(recs, unit, u) + RunHits(runs, u);
      assert Owners(recs, unit, u) + RunHits(runs, u) > 255;
    }
  }

  lemma {:induction false} DropContents(g: Geometry, cells: seq<Cell>, files: Files, d: Digest)
    requires g.Ok() && g.Good(Medium(cells, files))
    requires Compatible(RecordsOf(files) - {d}, g.unit, g.units)
    ensures var m := Medium(cells, files - {d});
            g.Good(m) && g.Contents(m) == g.Contents(Medium(cells, files)) - {d}
  {
    hide Compatible, Gather, BlobFrom;
    RecordsAfterDelete(files, d);
    forall k | k in files - {d} ensures Load(files - {d}, k).Some? {
      assert Load(files - {d}, k) == Load(files, k);
    }
  }

  lemma {:induction false} AdoptContents(g: Geometry, cells: seq<Cell>, files: Files, d: Digest, b: Blob)
    requires g.Ok() && g.Good(Medium(cells, files))
    requires |b.ext| == 1 && b.length == b.ext[0].length && InRange(b.ext[0], g.units * g.unit)
    requires Compatible(RecordsOf(files)[d := b], g.unit, g.units)
    ensures var m := Medium(cells, files[d := BlobBytes(b)]);
            var e := b.ext[0];
            g.Good(m)
            && g.Contents(m) == g.Contents(Medium(cells, files))[d := Values(cells[e.offset..e.offset + e.length])]
  {
    hide Compatible, BlobBytes, BlobFrom;
    RecordsAfterPut(files, d, b);
    var files' := files[d := BlobBytes(b)];
    forall k | k in files' ensures Load(files', k).Some? {
      if k != d {
        assert Load(files', k) == Load(files, k);
      }
    }
    assert b.ext[..1] == b.ext && b.ext[..0] == [];
    assert Gather(cells, b.ext) == Values(cells[b.ext[0].offset..b.ext[0].offset + b.ext[0].length]);
  }

  lemma {:induction false} HitsOfOne(e: Extent, unit: nat, u: nat)
    requires unit > 0
    ensures Hits([e], unit, u) == if Touches(e, unit, u) then 1 else 0
  {
  }

  lemma {:induction false} AgreeAt(refs: seq<byte>, adopted: seq<bool>, recs: Records, runs: seq<Run>, unit: nat,
                                   u: nat)
    requires unit > 0 && Agree(refs, adopted, recs, runs, unit) && u < |refs|
    ensures refs[u] as int == Owners(recs, unit, u) + RunHits(runs, u)
  {
  }

  lemma {:induction false} ExtentInRange(recs: Records, d: Digest, g: Geometry, i: nat)
    requires g.Ok() && Compatible(recs, g.unit, g.units) && d in recs && i < |recs[d].ext|
    ensures InRange(recs[d].ext[i], g.units * g.unit)
  {
  }

  lemma {:induction false} HitsPrefix(ext: seq<Extent>, i: nat, unit: nat, u: nat)
    requires unit > 0 && i <= |ext|
    ensures Hits(ext[..i], unit, u) <= Hits(ext, unit, u)
    decreases |ext| - i
  {
    if i < |ext| {
      assert ext[..i + 1][..i] == ext[..i];
      HitsPrefix(ext, i + 1, unit, u);
    } else {
      assert ext[..i] == ext;
    }
  }

  /** A unit of the extent already has as many owners as the map can count. */
  ghost predicate Crowded(g: Geometry, refs: seq<byte>, e: Extent)
    requires g.Ok() && |refs| == g.units
  {
    exists u | 0 <= u < g.units && Touches(e, g.unit, u) :: refs[u] == 255
  }

  /** One more record keeps the counts exact exactly when none of its units is full. */
  lemma {:induction false} AdoptExact(g: Geometry, refs: seq<byte>, adopted: seq<bool>, recs: Records, runs: seq<Run>,
                                      d: Digest, b: Blob, refs': seq<byte>, adopted': seq<bool>)
    requires g.Ok() && |refs| == |adopted| == |refs'| == |adopted'| == g.units && d !in recs && |b.ext| == 1
    requires Agree(refs, adopted, recs, runs, g.unit)
    requires Marked(g, refs, adopted, b, refs', adopted')
    ensures Agree(refs', adopted', recs[d := b], runs, g.unit) <==> !Crowded(g, refs, b.ext[0])
  {
    hide Hits, Owners, RunHits, AdoptedNamed;
    AgreeIff(refs, adopted, recs, runs, g.unit);
    MarkKeeps(g, refs, adopted, recs, runs, d, b, refs', adopted');
    AgreeIff(refs', adopted', recs[d := b], runs, g.unit);
    assert b.ext == [b.ext[0]];
    forall u | 0 <= u < g.units
      ensures Owners(recs[d := b], g.unit, u) + RunHits(runs, u)
              == (refs[u] as int) + if Touches(b.ext[0], g.unit, u) then 1 else 0
    {
      OwnersAdd(recs, d, b, g.unit, u);
      HitsOfOne(b.ext[0], g.unit, u);
      AgreeAt(refs, adopted, recs, runs, g.unit, u);
    }
    if Crowded(g, refs, b.ext[0]) {
      var u :| 0 <= u < g.units && Touches(b.ext[0], g.unit, u) && refs[u] == 255;
      assert Owners(recs[d := b], g.unit, u) + RunHits(runs, u) > 255;
    }
  }

  /** What giving back one extent does to the map. */
  ghost predicate GivenBack(g: Geometry, refs: seq<byte>, adopted: seq<bool>, e: Extent, refs': seq<byte>,
                            adopted': seq<bool>)
    requires g.Ok() && |refs| == |adopted| == |refs'| == |adopted'|
  {
    && (forall u | 0 <= u < |refs| :: refs'[u] == if Touches(e, g.unit, u) then Counted(refs[u], false) else refs[u])
    && (forall u | 0 <= u < |refs| ::
          adopted'[u] <==> if Touches(e, g.unit, u) then refs'[u] > 0 && adopted[u] else adopted[u])
  }

  /** Claiming and giving back again restores the map exactly when none of the units was full. */
  lemma {:induction false} AdoptUndone(g: Geometry, refs: seq<byte>, adopted: seq<bool>, recs: Records, runs: seq<Run>,
                                       b: Blob, mid: seq<byte>, midAdopted: seq<bool>, refs': seq<byte>,
                                       adopted': seq<bool>)
    requires g.Ok() && |refs| == |adopted| == |mid| == |midAdopted| == |refs'| == |adopted'| == g.units
    requires |b.ext| == 1 && b.Adopted() && Claimable(g, refs, adopted, b)
    requires Agree(refs, adopted, recs, runs, g.unit)
    requires Marked(g, refs, adopted, b, mid, midAdopted)
    requires GivenBack(g, mid, midAdopted, b.ext[0], refs', adopted')
    ensures !Crowded(g, refs, b.ext[0]) ==> refs' == refs && adopted' == adopted
    ensures Crowded(g, refs, b.ext[0]) ==> !Agree(refs', adopted', recs, runs, g.unit)
  {
    hide Hits, Owners, RunHits, AdoptedNamed;
    var e := b.ext[0];
    assert b.ext == [e] && ClaimableExtent(g, refs, adopted, e, true);
    forall u | 0 <= u < g.units
      ensures refs'[u] as int == if Touches(e, g.unit, u) && refs[u] == 255 then 254 else refs[u]
      ensures refs[u] < 255 ==> (adopted'[u] <==> adopted[u])
    {
      HitsOfOne(e, g.unit, u);
      AdoptedIsUsed(refs, adopted, recs, runs, g.unit, u);
    }
    if Crowded(g, refs, e) {
      var u :| 0 <= u < g.units && Touches(e, g.unit, u) && refs[u] == 255;
      assert refs'[u] as int != Owners(recs, g.unit, u) + RunHits(runs, u);
    } else {
      forall u | 0 <= u < g.units ensures refs'[u] == refs[u] && adopted'[u] == adopted[u] {
        HitsOfOne(e, g.unit, u);
      }
    }
  }

  lemma {:induction false} AdoptedIsUsed(refs: seq<byte>, adopted: seq<bool>, recs: Records, runs: seq<Run>,
                                         unit: nat, u: nat)
    requires unit > 0 && Agree(refs, adopted, recs, runs, unit) && u < |refs|
    ensures adopted[u] ==> refs[u] > 0
  {
    hide Owners;
    OwnersPositive(recs, unit, u);
  }

  lemma {:induction false} ClaimedRange(g: Geometry, refs: seq<byte>, adopted: seq<bool>, b: Blob)
    requires g.Ok() && |refs| == |adopted| == g.units && Claimable(g, refs, adopted, b)
    ensures forall i | 0 <= i < |b.ext| :: InRange(b.ext[i], g.units * g.unit)
  {
    forall i | 0 <= i < |b.ext| ensures InRange(b.ext[i], g.units * g.unit) {
      assert ClaimableExtent(g, refs, adopted, b.ext[i], b.Adopted());
    }
  }

  /** Marking a claimed blob leaves the stage's units as they were. */
  lemma {:induction false} StageKept(g: Geometry, refs: seq<byte>, adopted: seq<bool>, runs: seq<Run>, b: Blob,
                                     refs': seq<byte>, adopted': seq<bool>)
    requires g.Ok() && |refs| == |adopted| == |refs'| == |adopted'| == g.units
    requires Marked(g, refs, adopted, b, refs', adopted')
    requires forall u | 0 <= u < |refs| && RunHits(runs, u) > 0 :: refs[u] == 1 && Hits(b.ext, g.unit, u) == 0
    ensures forall u | 0 <= u < |refs| && RunHits(runs, u) > 0 :: refs'[u] == 1
  {
    hide Hits, RunHits;
  }

  /** No unit has more owners than the map can count. */
  ghost predicate Countable(files: Files, g: Geometry)
    requires g.Ok()
  {
    forall u | 0 <= u < g.units :: Owners(RecordsOf(files), g.unit, u) <= 255
  }

  // ---- Starting on a medium ----

  ghost predicate Within(sub: Records, recs: Records) {
    forall d | d in sub :: d in recs && sub[d] == recs[d]
  }

  lemma {:induction false} SubsetCompatible(sub: Records, recs: Records, g: Geometry)
    requires g.Ok() && Compatible(recs, g.unit, g.units) && Within(sub, recs)
    ensures Compatible(sub, g.unit, g.units)
  {
    forall d, i | d in sub && 0 <= i < |sub[d].ext| ensures InRange(sub[d].ext[i], g.units * g.unit) {
      assert sub[d] == recs[d] && InRange(recs[d].ext[i], g.units * g.unit);
    }
    forall d, e, u: nat | d in sub && e in sub && d != e && Names(sub[d], g.unit, u) && Names(sub[e], g.unit, u)
      ensures sub[d].Adopted() && sub[e].Adopted()
    {
      assert Names(recs[d], g.unit, u) && Names(recs[e], g.unit, u);
    }
  }

  lemma {:induction false} NothingClaimed(g: Geometry, refs: seq<byte>, adopted: seq<bool>)
    requires g.Ok() && |refs| == |adopted| == g.units
    requires forall u | 0 <= u < g.units :: refs[u] == 0 && !adopted[u]
    ensures AgreeUpTo255(refs, adopted, map[], [], g.unit) && Compatible(map[], g.unit, g.units)
  {
  }

  /** The directory walk has looked at the files in `done` and kept the records `cur` of them. */
  ghost predicate Walked(g: Geometry, before: Files, files: Files, done: seq<Digest>, cur: Records)
    requires g.Ok()
  {
    && (forall d | d in cur :: d in done && d in files && Load(files, d) == Some(cur[d]))
    && (forall d | d in files && d in done :: d in cur)
    && (forall d | d in files :: d in before && files[d] == before[d])
    && (forall d | d in before && d !in done :: d in files)
    && (Sound(before, g.unit, g.units) ==> files == before)
    && Compatible(cur, g.unit, g.units)
  }

  /** Among files that are all sound, the next one can join those kept so far. */
  lemma {:induction false} NextIsSound(g: Geometry, before: Files, files: Files, done: seq<Digest>, cur: Records,
                                       d: Digest)
    requires g.Ok() && Walked(g, before, files, done, cur)
    requires Sound(before, g.unit, g.units) && d in before && d !in done
    ensures Load(files, d).Some?
    ensures var b := Load(files, d).value; b.digest == d && Compatible(cur[d := b], g.unit, g.units)
  {
    hide Compatible;
    assert Load(files, d).Some?;
    var b := Load(files, d).value;
    var recs := RecordsOf(before);
    assert recs[d] == b;
    assert Within(cur[d := b], recs);
    SubsetCompatible(cur[d := b], recs, g);
    CompatibleDigest(recs, d, g);
  }

  lemma {:induction false} CompatibleDigest(recs: Records, d: Digest, g: Geometry)
    requires g.Ok() && Compatible(recs, g.unit, g.units) && d in recs
    ensures recs[d].digest == d
  {
  }

  lemma {:induction false} WalkKeeps(g: Geometry, before: Files, files: Files, done: seq<Digest>, cur: Records,
                                     d: Digest, b: Blob)
    requires g.Ok() && Walked(g, before, files, done, cur) && d in files && d !in done
    requires Load(files, d) == Some(b) && Compatible(cur[d := b], g.unit, g.units)
    ensures Walked(g, before, files, done + [d], cur[d := b])
  {
    hide Compatible, Sound;
  }

  lemma {:induction false} WalkDiscards(g: Geometry, before: Files, files: Files, done: seq<Digest>, cur: Records,
                                        d: Digest)
    requires g.Ok() && Walked(g, before, files, done, cur) && d in files && d !in done
    requires !Sound(before, g.unit, g.units)
    ensures Walked(g, before, files - {d}, done + [d], cur)
  {
    hide Compatible, Sound;
    forall k | k in cur ensures Load(files - {d}, k) == Some(cur[k]) {
      assert k != d && Load(files, k) == Some(cur[k]);
    }
  }

  lemma {:induction false} WalkDone(g: Geometry, before: Files, files: Files, done: seq<Digest>, cur: Records)
    requires g.Ok() && Walked(g, before, files, done, cur)
    requires forall d | d in before :: d in done
    ensures RecordsOf(files) == cur && Sound(files, g.unit, g.units)
    ensures files == before <==> Sound(before, g.unit, g.units)
    ensures forall d | d in files :: d in before && files[d] == before[d]
  {
    hide Compatible;
    forall d | d in files ensures Load(files, d).Some? {
      assert d in done;
      assert d in cur;
    }
    assert RecordsOf(files) == cur;
  }

  lemma {:induction false} WalkStarts(g: Geometry, files: Files)
    requires g.Ok()
    ensures Walked(g, files, files, [], map[])
  {
  }

  lemma {:induction false} WalkNext(g: Geometry, before: Files, files: Files, order: seq<Digest>, i: nat, cur: Records)
    requires g.Ok() && i < |order| && Walked(g, before, files, order[..i], cur)
    requires forall d | d in order :: d in before
    requires forall i, j | 0 <= i < j < |order| :: order[i] != order[j]
    ensures order[i] in files && order[i] !in order[..i] && order[i] !in cur
  {
    hide Compatible, Sound;
  }

  lemma {:induction false} WalkHas(g: Geometry, before: Files, files: Files, done: seq<Digest>, cur: Records, d: Digest)
    requires g.Ok() && Walked(g, before, files, done, cur) && d in files
    ensures d in before
  {
    hide Compatible, Sound;
  }

  // ---- Counting the records in a listing ----

  ghost function Listed(recs: Records, names: seq<Digest>): Records {
    map d | d in recs && d in names :: recs[d]
  }

  lemma {:induction false} SoundRecords(files: Files, g: Geometry)
    requires g.Ok() && Sound(files, g.unit, g.units)
    ensures RecordsOf(files).Keys == files.Keys
  {
    hide Compatible;
  }

  lemma {:induction false} OwnersEmpty(unit: nat)
    requires unit > 0
    ensures forall recs: Records :: Listed(recs, []) == map[]
    ensures forall u: nat :: Owners(map[], unit, u) == 0
  {
  }

  lemma {:induction false} ListedNext(recs: Records, order: seq<Digest>, i: nat)
    requires i < |order| && order[i] in recs
    requires forall i, j | 0 <= i < j < |order| :: order[i] != order[j]
    ensures order[i] !in Listed(recs, order[..i])
    ensures Listed(recs, order[..i + 1]) == Listed(recs, order[..i])[order[i] := recs[order[i]]]
  {
    assert order[..i + 1] == order[..i] + [order[i]];
  }

  lemma {:induction false} ListedAll(recs: Records, order: seq<Digest>)
    requires forall d | d in recs :: d in order
    ensures Listed(recs, order[..|order|]) == recs
  {
    assert order[..|order|] == order;
  }

  lemma {:induction false} SoundRecord(files: Files, d: Digest, g: Geometry)
    requires g.Ok() && Sound(files, g.unit, g.units) && d in files
    ensures Load(files, d).Some? && RecordsOf(files)[d] == Load(files, d).value
    ensures forall i | 0 <= i < |RecordsOf(files)[d].ext| :: InRange(RecordsOf(files)[d].ext[i], g.units * g.unit)
  {
  }

  /** How many units below `n` more than one record extent touches. */
  ghost function SharedBelow(recs: Records, unit: nat, n: nat): nat
    requires unit > 0
  {
    if n == 0 then 0 else SharedBelow(recs, unit, n - 1) + if Owners(recs, unit, n - 1) > 1 then 1 else 0
  }

  lemma {:induction false} LoadedFile(files: Files, d: Digest)
    ensures Load(files, d).Some? ==> d in files && 1 <= |Load(files, d).value.ext|
  {
  }

  lemma {:induction false} AgreeIffCountable(refs: seq<byte>, adopted: seq<bool>, files: Files, g: Geometry)
    requires g.Ok() && |refs| == g.units
    ensures Agree(refs, adopted, RecordsOf(files), [], g.unit)
       <==> AgreeUpTo255(refs, adopted, RecordsOf(files), [], g.unit) && Countable(files, g)
  {
    hide Owners, Agree, AgreeUpTo255;
    var recs := RecordsOf(files);
    AgreeIff(refs, adopted, recs, [], g.unit);
    NoRuns(g);
    if Agree(refs, adopted, recs, [], g.unit) {
      forall u | 0 <= u < g.units ensures Owners(recs, g.unit, u) <= 255 {
        assert Owners(recs, g.unit, u) + RunHits([], u) <= 255;
      }
    } else if Countable(files, g) {
      forall u | 0 <= u < |refs| ensures Owners(recs, g.unit, u) + RunHits([], u) <= 255 {
        assert Owners(RecordsOf(files), g.unit, u) <= 255;
      }
    }
  }

  // ---- Where a byte cannot count ----

  function NthDigest(i: nat): Digest
    requires i < 256
  {
    [i] + seq(31, _ => 0)
  }

  /** `n` one-byte adopted blobs, all in the first unit. */
  function Crowd(n: nat): Records
    requires n <= 256
  {
    if n == 0 then map[]
    else Crowd(n - 1)[NthDigest(n - 1) := Blob(NthDigest(n - 1), 1, 1, [Extent(0, 1)])]
  }

  lemma {:induction false} CrowdMembers(n: nat)
    requires n <= 256
    ensures forall d | d in Crowd(n) :: Crowd(n)[d] == Blob(d, 1, 1, [Extent(0, 1)])
    ensures forall d | d in Crowd(n) :: exists i: nat | i < n :: d == NthDigest(i)
  {
    if n > 0 {
      CrowdMembers(n - 1);
    }
  }

  lemma {:induction false} CrowdOwners(n: nat, unit: nat)
    requires unit > 0 && n <= 256
    ensures Owners(Crowd(n), unit, 0) == n
  {
    hide Owners, Hits;
    if n == 0 {
      OwnersEmpty(unit);
    } else {
      var d := NthDigest(n - 1);
      CrowdOwners(n - 1, unit);
      CrowdMembers(n - 1);
      forall i: nat | i < n - 1 ensures NthDigest(i) != d {
        assert NthDigest(i)[0] == i && d[0] == n - 1;
      }
      assert d !in Crowd(n - 1);
      var b := Blob(d, 1, 1, [Extent(0, 1)]);
      OwnersAdd(Crowd(n - 1), d, b, unit, 0);
      HitsOfOne(Extent(0, 1), unit, 0);
      assert Touches(Extent(0, 1), unit, 0);
    }
  }

  /** 256 adopted blobs on one unit are records a partition can hold, and no map of bytes counts them. */
  lemma {:induction false} CrowdHasNoMap(g: Geometry, refs: seq<byte>, adopted: seq<bool>)
    requires g.Ok() && g.units > 0 && |refs| == g.units
    ensures Compatible(Crowd(256), g.unit, g.units)
    ensures !Agree(refs, adopted, Crowd(256), [], g.unit)
  {
    hide Owners, Crowd;
    CrowdMembers(256);
    CrowdOwners(256, g.unit);
    MulMono(1, g.units, g.unit);
  }
}
