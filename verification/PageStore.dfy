/** The page store: blobs on raw flash, in allocation units a blob takes as it needs. */
module PageStore {
  import opened Arith
  import opened Bytes
  import opened BlobRecord
  import opened FlashLayout
  import opened UnitScan
  import opened StageLayout
  import opened PageRules

  datatype Report = Report(units: nat, freeUnits: nat, shared: nat, outOfRange: nat, mismatch: nat)

  class PageStore {
    const g: Geometry
    const refs: array<byte>
    const adopted: array<bool>
    var active: bool
    var runs: seq<Run>
    var curOff: nat
    var total: nat

    // What a reset leaves.
    var cells: seq<Cell>
    var files: Files

    /** Which of the calls to the flash and the files fail, and how many were made. */
    const fails: nat -> bool
    var calls: nat

    /** Every medium a cut could have left, a cut inside an erase or a write included. */
    var seen: set<Medium>
    /** What the stage was given, while every write to it succeeded. */
    ghost var staged: seq<byte>
    ghost var intact: bool

    function Now(): Medium
      reads this`cells, this`files
    {
      Medium(cells, files)
    }

    ghost predicate Shape()
      reads this`runs, this`cells
    {
      && g.Ok()
      && refs.Length == g.units
      && adopted.Length == g.units
      && |cells| == g.units * g.unit
      && RunsOk(runs, g)
      && |runs| <= MAX_EXTENTS
    }

    ghost predicate Core()
      reads this`active, this`runs, this`curOff, this`total, this`cells, this`files, this`staged, this`intact, refs,
        adopted
    {
      && Shape()
      && Sound(files, g.unit, g.units)
      && Agree(refs[..], adopted[..], RecordsOf(files), runs, g.unit)
      && (forall u | 0 <= u < g.units && RunHits(runs, u) > 0 :: refs[u] == 1)
      && (!active ==> runs == [])
      && (!g.scattered ==> |runs| <= 1)
      && (active && intact ==>
            && curOff <= g.unit
            && (runs == [] ==> curOff == g.unit)
            && Intact(g, cells, runs, curOff, total, staged))
    }

    ghost predicate Valid()
      reads this`active, this`runs, this`curOff, this`total, this`cells, this`files, this`staged, this`intact, refs,
        adopted
    {
      Core() && (active && intact ==> curOff > 0)
    }

    ghost function Contents(): map<Digest, seq<byte>>
      requires g.Ok() && g.Good(Now())
      reads this`cells, this`files
    {
      g.Contents(Now())
    }

    // ---- The medium ----

    /** How many of the first calls failed. */
    ghost function Faults(n: nat): nat {
      if n == 0 then 0 else Faults(n - 1) + if fails(n - 1) then 1 else 0
    }

    /** One call was made, and this was the answer. */
    ghost predicate Answered(c: nat, ok: bool)
      reads this`calls
    {
      calls == c + 1 && ok == !fails(c) && Faults(calls) == Faults(c) + if ok then 0 else 1
    }

    /** One call to the flash or the files. */
    method Ask() returns (failed: bool)
      modifies this`calls
      ensures calls == old(calls) + 1 && failed == fails(old(calls))
      ensures Faults(calls) == Faults(old(calls)) + if failed then 1 else 0
    {
      failed := fails(calls);
      calls := calls + 1;
    }


    /** Erases a unit. A failed or cut erase leaves anything in that unit and nothing elsewhere. */
    method FlashErase(u: nat) returns (ok: bool)
      requires g.Ok() && g.Good(Now()) && u < g.units
      requires forall d | d in RecordsOf(files) :: !Names(RecordsOf(files)[d], g.unit, u)
      modifies this`cells, this`seen, this`calls
      ensures Answered(old(calls), ok)
      ensures OnlyUnit(old(cells), cells, g.unit, u)
      ensures ok ==> BlankFrom(cells, g.unit, u, 0)
      ensures g.Good(Now()) && Contents() == old(Contents())
      ensures old(seen) <= seen
      ensures forall m | m in seen :: m in old(seen) || g.Shows(m, files, old(Contents()))
    {
      var torn: seq<Cell> := *;
      if !OnlyUnit(cells, torn, g.unit, u) {
        torn := cells;
      }
      g.ContentsFrame(Now(), Medium(torn, files), u);
      cells := torn;
      seen := seen + {Now()};
      var failed := Ask();
      ok := !failed;
      if ok {
        var erased := seq(|torn|, a requires 0 <= a < |torn| => if a / g.unit == u then ERASED else torn[a]);
        g.ContentsFrame(Now(), Medium(erased, files), u);
        cells := erased;
        seen := seen + {Now()};
      }
    }

    /** Writes erased bytes of one unit. A failed or cut write leaves anything in those bytes. */
    method FlashWrite(addr: nat, data: seq<byte>, ghost u: nat, ghost off: nat) returns (ok: bool)
      requires g.Ok() && g.Good(Now()) && u < g.units && off + |data| <= g.unit
      requires addr == u * g.unit + off && addr + |data| <= |cells|
      requires forall d | d in RecordsOf(files) :: !Names(RecordsOf(files)[d], g.unit, u)
      requires BlankFrom(cells, g.unit, u, off)
      modifies this`cells, this`seen, this`calls
      ensures Answered(old(calls), ok)
      ensures OnlyUnit(old(cells), cells, g.unit, u)
      ensures ok ==> Wrote(old(cells), cells, addr, data)
      ensures ok ==> BlankFrom(cells, g.unit, u, off + |data|)
      ensures g.Good(Now()) && Contents() == old(Contents())
      ensures old(seen) <= seen
      ensures forall m | m in seen :: m in old(seen) || g.Shows(m, files, old(Contents()))
    {
      ghost var before := cells;
      var torn: seq<Cell> := *;
      if |torn| != |data| {
        torn := cells[addr..addr + |data|];
      }
      Splice(addr, torn, u, off);
      var failed := Ask();
      ok := !failed;
      if ok {
        var written := seq(|data|, i requires 0 <= i < |data| => Cell(data[i], false));
        Splice(addr, written, u, off);
        WroteOver(before, torn, written, cells, addr, data);
        StillBlank(before, cells, g.unit, u, off, addr, |data|);
      }
    }

    /** Replaces the cells from `addr` on, inside unit `u`. */
    method Splice(addr: nat, part: seq<Cell>, ghost u: nat, ghost off: nat)
      requires g.Ok() && g.Good(Now()) && u < g.units && off + |part| <= g.unit
      requires addr == u * g.unit + off && addr + |part| <= |cells|
      requires forall d | d in RecordsOf(files) :: !Names(RecordsOf(files)[d], g.unit, u)
      modifies this`cells, this`seen
      ensures cells == Spliced(old(cells), addr, part)
      ensures OnlyUnit(old(cells), cells, g.unit, u)
      ensures g.Good(Now()) && Contents() == old(Contents())
      ensures seen == old(seen) + {Now()}
    {
      var next := Spliced(cells, addr, part);
      assert OnlyUnit(cells, next, g.unit, u) by {
        forall a | 0 <= a < |cells| && a / g.unit != u ensures next[a] == cells[a] {
          if addr <= a < addr + |part| {
            DivInUnit(u, a - u * g.unit, g.unit);
          }
        }
      }
      g.ContentsFrame(Now(), Medium(next, files), u);
      cells := next;
      seen := seen + {Now()};
    }

    /** Puts a record file whole or not at all. */
    method FilePut(d: Digest, bytes: seq<byte>) returns (ok: bool)
      modifies this`files, this`seen, this`calls
      ensures Answered(old(calls), ok)
      ensures files == if ok then old(files)[d := bytes] else old(files)
      ensures seen == if ok then old(seen) + {Now()} else old(seen)
    {
      var failed := Ask();
      ok := !failed;
      if ok {
        files := files[d := bytes];
        seen := seen + {Now()};
      }
    }

    method FileDelete(d: Digest) returns (ok: bool)
      modifies this`files, this`seen, this`calls
      ensures Answered(old(calls), ok)
      ensures files == if ok then old(files) - {d} else old(files)
      ensures seen == if ok then old(seen) + {Now()} else old(seen)
    {
      var failed := Ask();
      ok := !failed;
      if ok {
        files := files - {d};
        seen := seen + {Now()};
      }
    }

    // ---- The unit map ----

    method SetUnit(u: nat, on: bool)
      requires u < refs.Length
      modifies refs
      ensures refs[..] == old(refs[..])[u := Counted(old(refs[u]), on)]
    {
      if on && refs[u] < 255 {
        refs[u] := refs[u] + 1;
      } else if !on && refs[u] > 0 {
        refs[u] := refs[u] - 1;
      }
    }

    /** Takes or gives back the units an extent touches. */
    method MarkRange(e: Extent, on: bool, isAdopted: bool)
      requires Shape() && e.length > 0
      modifies refs, adopted
      ensures forall u | 0 <= u < g.units ::
                refs[u] == if Touches(e, g.unit, u) then Counted(old(refs[u]), on) else old(refs[u])
      ensures forall u | 0 <= u < g.units ::
                adopted[u] <==> if Touches(e, g.unit, u) then refs[u] > 0 && (old(adopted[u]) || (isAdopted && on))
                                else old(adopted[u])
    {
      var u := FirstUnit(e, g.unit);
      var last := LastUnit(e, g.unit);
      while u <= last && u < g.units
        invariant FirstUnit(e, g.unit) <= u
        invariant forall v | 0 <= v < g.units ::
                    refs[v] == if Touches(e, g.unit, v) && v < u then Counted(old(refs[v]), on) else old(refs[v])
        invariant forall v | 0 <= v < g.units ::
                    adopted[v] <==>
                      if Touches(e, g.unit, v) && v < u then refs[v] > 0 && (old(adopted[v]) || (isAdopted && on))
                                    else old(adopted[v])
      {
        SetUnit(u, on);
        if isAdopted && on {
          adopted[u] := true;
        }
        if refs[u] == 0 {
          adopted[u] := false;
        }
        u := u + 1;
      }
    }

    /** Whether nothing on the map speaks against the extent. */
    method CheckExtent(e: Extent, isAdopted: bool) returns (ok: bool)
      requires Shape()
      ensures ok <==> ClaimableExtent(g, refs[..], adopted[..], e, isAdopted)
    {
      if e.length == 0 || e.offset + e.length > g.units * g.unit {
        return false;
      }
      var u := FirstUnit(e, g.unit);
      var last := LastUnit(e, g.unit);
      while u <= last
        invariant FirstUnit(e, g.unit) <= u
        invariant forall v: nat | v < u && Touches(e, g.unit, v) ::
                    v < g.units && (refs[v] == 0 || (isAdopted && adopted[v]))
      {
        TouchedIsUnit(e, g.unit, g.units, u);
        if refs[u] > 0 && !(isAdopted && adopted[u]) {
          assert Touches(e, g.unit, u);
          return false;
        }
        u := u + 1;
      }
      return true;
    }

    method MarkBlob(b: Blob)
      requires Shape() && Claimable(g, refs[..], adopted[..], b)
      modifies refs, adopted
      ensures forall u | 0 <= u < g.units ::
                refs[u] as int == Saturated(old(refs[u]) + Hits(b.ext, g.unit, u))
      ensures forall u | 0 <= u < g.units ::
                adopted[u] <==> old(adopted[u]) || (b.Adopted() && Hits(b.ext, g.unit, u) > 0)
    {
      for i := 0 to |b.ext|
        invariant forall u | 0 <= u < g.units ::
                    refs[u] as int == Saturated(old(refs[u]) + Hits(b.ext[..i], g.unit, u))
        invariant forall u | 0 <= u < g.units ::
                    adopted[u] <==> old(adopted[u]) || (b.Adopted() && Hits(b.ext[..i], g.unit, u) > 0)
      {
        assert ClaimableExtent(g, old(refs[..]), old(adopted[..]), b.ext[i], b.Adopted());
        MarkRange(b.ext[i], true, b.Adopted());
        assert b.ext[..i + 1][..i] == b.ext[..i];
      }
      assert b.ext[..|b.ext|] == b.ext;
    }

    /** Whether nothing on the map speaks against the blob; only then is it marked. */
    method ClaimBlob(b: Blob) returns (ok: bool)
      requires Shape()
      modifies refs, adopted
      ensures ok <==> Claimable(g, old(refs[..]), old(adopted[..]), b)
      ensures !ok ==> refs[..] == old(refs[..]) && adopted[..] == old(adopted[..])
      ensures ok ==> forall u | 0 <= u < g.units ::
                refs[u] as int == Saturated(old(refs[u]) + Hits(b.ext, g.unit, u))
      ensures ok ==> forall u | 0 <= u < g.units ::
                adopted[u] <==> old(adopted[u]) || (b.Adopted() && Hits(b.ext, g.unit, u) > 0)
    {
      for i := 0 to |b.ext|
        modifies {}
        invariant forall k | 0 <= k < i :: ClaimableExtent(g, refs[..], adopted[..], b.ext[k], b.Adopted())
      {
        ok := CheckExtent(b.ext[i], b.Adopted());
        if !ok {
          return;
        }
      }
      MarkBlob(b);
      ok := true;
    }

    /** Gives back the units the stage holds. */
    method FreeStageUnits()
      requires Shape()
      requires forall u | 0 <= u < g.units :: refs[u] as int >= RunHits(runs, u)
      modifies this`active, this`runs, this`curOff, this`total, refs
      ensures forall u | 0 <= u < g.units :: refs[u] as int == old(refs[u]) - old(RunHits(runs, u))
      ensures !active && runs == [] && curOff == 0 && total == 0
      ensures cells == old(cells) && files == old(files) && seen == old(seen)
    {
      for i := 0 to |runs|
        modifies refs
        invariant forall v | 0 <= v < g.units :: refs[v] + RunHits(runs[..i], v) == old(refs[v])
      {
        for k := 0 to runs[i].count
          modifies refs
          invariant forall v | 0 <= v < g.units ::
                      refs[v] + RunHits(runs[..i], v) + (if runs[i].first <= v < runs[i].first + k then 1 else 0)
                      == old(refs[v])
        {
          var u := runs[i].first + k;
          RunHitsStep(runs, i, u);
          RunHitsPrefix(runs, i + 1, u);
          SetUnit(u, false);
        }
        forall v | 0 <= v < g.units ensures refs[v] + RunHits(runs[..i + 1], v) == old(refs[v]) {
          RunHitsStep(runs, i, v);
        }
      }
      assert runs[..|runs|] == runs;
      active, runs, curOff, total := false, [], 0, 0;
    }

    /** Takes the next unit for the stage. */
    method TakeUnit() returns (r: Option<nat>)
      requires Shape()
      modifies this`runs, refs
      ensures r.Some? ==> TakeStep(old(refs[..]), old(runs), g.scattered, refs[..], runs, r.value)
      ensures r.None? <==> TakeStuck(old(refs[..]), old(runs), g.scattered)
      ensures r.None? ==> runs == old(runs) && refs[..] == old(refs[..])
    {
      var u := 0;
      var extend := false;
      if runs != [] {
        u := LastTaken(runs) + 1;
        extend := u < g.units && refs[u] == 0;
      }
      if extend {
        runs := Grown(runs);
      } else {
        if runs != [] && !g.scattered {
          return None;
        }
        if |runs| >= MAX_EXTENTS {
          return None;
        }
        if g.scattered {
          var first := FirstFree(refs);
          if first.None? {
            return None;
          }
          u := first.value;
        } else {
          var best, start := LargestRun(refs);
          if best == 0 {
            return None;
          }
          u := start;
          assert refs[..][start] == 0;
        }
        runs := runs + [Run(u, 1)];
      }
      SetUnit(u, true);
      return Some(u);
    }

    // ---- Staging ----

    method StageBegin() returns (ok: bool)
      requires Valid()
      modifies this`active, this`runs, this`curOff, this`total, this`staged, this`intact
      ensures Valid()
      ensures ok == !old(active)
      ensures ok ==> active && intact && staged == []
      ensures !ok ==> active == old(active) && runs == old(runs) && curOff == old(curOff) && total == old(total)
                      && staged == old(staged) && intact == old(intact)
    {
      if active {
        return false;
      }
      active, runs, curOff, total := true, [], g.unit, 0;
      staged, intact := [], true;
      return true;
    }

    /** Takes and erases the next unit. A failure leaves the stage fit only to abort. */
    method PrepareUnit() returns (ok: bool)
      requires Valid() && active && intact && curOff >= g.unit
      modifies this`runs, this`curOff, this`cells, this`seen, this`intact, this`calls, refs
      ensures Core() && Faults(old(calls)) <= Faults(calls)
      ensures ok <==> Faults(calls) == Faults(old(calls)) && !TakeStuck(old(refs[..]), old(runs), g.scattered)
      ensures !ok && Faults(calls) == Faults(old(calls)) ==> runs == old(runs) && refs[..] == old(refs[..])
      ensures ok ==> intact && runs != [] && curOff == 0
      ensures !ok ==> !intact
      ensures Contents() == old(Contents())
      ensures old(seen) <= seen
      ensures forall m | m in seen :: m in old(seen) || g.Shows(m, files, old(Contents()))
    {
      hide Compatible, Intact, Agree, TakeStuck, IsLongestRun, IsFirstFree, RunHits, BlankFrom, OnlyUnit,
        PageStore.Faults;
      ghost var refs0, runs0, cells0 := refs[..], runs, cells;
      var r := TakeUnit();
      if r.None? {
        intact := false;
        assert Core() by { assert refs[..] == refs0; }
        return false;
      }
      var u := r.value;
      TakeKeeps(g, refs0, adopted[..], RecordsOf(files), runs0, refs[..], runs, u);
      ok := FlashErase(u);
      if !ok {
        intact := false;
        return;
      }
      curOff := 0;
      StillStaged(g, cells0, cells, runs0, runs, u, total, staged);
    }

    /** Writes bytes that fit in the last unit taken. */
    method WriteChunk(chunk: seq<byte>) returns (ok: bool)
      requires Core() && active && intact && runs != []
      requires 0 < |chunk| <= g.unit - curOff
      modifies this`curOff, this`total, this`cells, this`seen, this`intact, this`staged, this`calls
      ensures Valid() && Answered(old(calls), ok)
      ensures ok ==> intact && staged == old(staged) + chunk
      ensures !ok ==> !intact
      ensures Contents() == old(Contents())
      ensures old(seen) <= seen
      ensures forall m | m in seen :: m in old(seen) || g.Shows(m, files, old(Contents()))
    {
      hide Compatible, Agree, RunHits, BlankFrom, OnlyUnit, Wrote, Gather, RunExtents, PageStore.Faults;
      var last := runs[|runs| - 1];
      var u := last.first + last.count - 1;
      var addr := u * g.unit + curOff;
      LastUnitUnnamed(g, refs[..], adopted[..], RecordsOf(files), runs);
      assert 0 <= addr && addr + |chunk| <= |cells| by { RunFits(Run(u, 1), g, curOff + |chunk|); }
      ghost var before := cells;
      ok := FlashWrite(addr, chunk, u, curOff);
      if !ok {
        intact := false;
        return;
      }
      GatherWrite(before, cells, runs, g, curOff, addr, chunk);
      curOff := curOff + |chunk|;
      total := total + |chunk|;
      staged := staged + chunk;
    }

    /** Appends to the stage, or reports why it is now fit only to abort. */
    method StageWrite(buf: seq<byte>) returns (ok: bool)
      requires Valid() && active && intact
      modifies this`runs, this`curOff, this`total, this`cells, this`seen, this`intact, this`staged, this`calls, refs
      ensures Valid() && Faults(old(calls)) <= Faults(calls)
      ensures ok ==> Faults(calls) == Faults(old(calls))
      ensures !ok && Faults(calls) == Faults(old(calls)) ==> TakeStuck(refs[..], runs, g.scattered)
      ensures ok ==> intact && staged == old(staged) + buf
      ensures !ok ==> !intact
      ensures Contents() == old(Contents())
      ensures old(seen) <= seen
      ensures forall m | m in seen :: m in old(seen) || g.Shows(m, files, old(Contents()))
    {
      hide Compatible, Intact, Agree, RunHits, RunsOk, PageStore.Faults;
      var done := 0;
      while done < |buf|
        invariant 0 <= done <= |buf|
        invariant Valid() && active && intact && Faults(calls) == Faults(old(calls))
        invariant staged == old(staged) + buf[..done]
        invariant Contents() == old(Contents())
        invariant old(seen) <= seen
        invariant forall m | m in seen :: m in old(seen) || g.Shows(m, files, old(Contents()))
      {
        if curOff >= g.unit {
          ok := PrepareUnit();
          if !ok {
            return;
          }
        }
        var room := g.unit - curOff;
        var chunk := if |buf| - done < room then |buf| - done else room;
        ok := WriteChunk(buf[done..done + chunk]);
        if !ok {
          return;
        }
        assert buf[..done + chunk] == buf[..done] + buf[done..done + chunk];
        done := done + chunk;
      }
      assert buf[..done] == buf;
      return true;
    }

    /** The runs the stage took as byte extents; the last one ends with the data. */
    method StageExtents() returns (ext: seq<Extent>)
      requires Shape() && runs != [] && 0 < curOff <= g.unit
      requires total == (Span(runs) - 1) * g.unit + curOff
      ensures ext == RunExtents(runs, g, curOff)
    {
      hide RunExtents, Span, BytesFrom;
      var left := total;
      ext := [];
      BytesFromAll(runs, g, curOff);
      for i := 0 to |runs|
        invariant |ext| == i
        invariant left == BytesFrom(runs, i, g, curOff)
        invariant forall k | 0 <= k < i :: ext[k] == RunExtent(runs[k], g, if k == |runs| - 1 then curOff else g.unit)
      {
        var span := runs[i].count * g.unit;
        RunFits(runs[i], g, if i == |runs| - 1 then curOff else g.unit);
        MulMono(0, runs[i].first, g.unit);
        LeftAt(runs, i, g, curOff, left);
        ext := ext + [Extent(runs[i].first * g.unit, if span < left then span else left)];
        left := left - ext[i].length;
      }
    }

    /** Ends the stage without a record. */
    method DropStage()
      requires Core()
      modifies this`active, this`runs, this`curOff, this`total, refs
      ensures Valid() && !active
      ensures cells == old(cells) && files == old(files) && seen == old(seen)
    {
      hide Compatible, Intact, AdoptedNamed, Owners;
      FreeStageUnits();
      NoRuns(g);
    }

    method StageAbort()
      requires Valid()
      modifies this`active, this`runs, this`curOff, this`total, refs
      ensures Valid() && !active
      ensures cells == old(cells) && files == old(files) && seen == old(seen)
    {
      DropStage();
    }

    /** The record of the stage, as bytes. */
    method BuildRecord(d: Digest) returns (bytes: seq<byte>, ghost b: Blob)
      requires Valid() && active && intact && runs != []
      ensures b.digest == d && b.length == total && !b.Adopted() && b.ext == RunExtents(runs, g, curOff)
      ensures bytes == BlobBytes(b)
    {
      hide Compatible, Agree, BlobBytes, RunHits, BlankFrom, Gather, RunExtents;
      var ext := StageExtents();
      assert total < 0x1_0000_0000 by {
        MapBoundsStage();
        StageFits(runs, g, curOff);
      }
      var rec := new byte[RECORD_MAX](_ => 0);
      b := Blob(d, total, 0, ext);
      var n := EncodeBlob(Blob(d, total, 0, ext), rec);
      bytes := rec[..n];
    }

    /** Writes the record of the stage; the units pass from the stage to the record. */
    method KeepStage(d: Digest) returns (r: Status)
      requires Valid() && active && intact && runs != [] && d !in files
      modifies this`active, this`runs, this`curOff, this`total, this`files, this`seen, this`calls
      ensures r == if fails(old(calls)) || fails(old(calls) + 1) then Failed else Done
      ensures r == Done <==> Faults(calls) == Faults(old(calls))
      ensures Faults(old(calls)) <= Faults(calls)
      ensures r == Done ==> Valid() && !active && Contents() == old(Contents())[d := staged]
      ensures r == Done ==> seen == old(seen) + {Now()}
      ensures r == Failed ==> Valid() && files == old(files) && seen == old(seen) && active && runs == old(runs)
    {
      hide PageStore.Valid, Sound, Agree, BlobBytes, RunExtents, PageStore.Faults;
      hide g.Contents;
      Known();
      var bytes, b := BuildRecord(d);
      StagePut(d, b);
      var ok := SyncPut(d, bytes);
      r := Failed;
      if ok {
        CloseStage();
        r := Done;
      }
    }

    lemma {:induction false} Known()
      requires Valid()
      ensures g.Ok() && g.Good(Now()) && Shape()
    {
      hide Agree, Intact, RunsOk;
    }

    /** Waits for the flash, then puts a record file; both or nothing. */
    method SyncPut(d: Digest, bytes: seq<byte>) returns (ok: bool)
      modifies this`files, this`seen, this`calls
      ensures ok == (!fails(old(calls)) && !fails(old(calls) + 1))
      ensures Faults(old(calls)) <= Faults(calls) && (ok <==> Faults(calls) == Faults(old(calls)))
      ensures files == if ok then old(files)[d := bytes] else old(files)
      ensures seen == if ok then old(seen) + {Now()} else old(seen)
    {
      hide PageStore.Faults;
      var failed := Ask();
      ok := false;
      if !failed {
        ok := FilePut(d, bytes);
      }
    }

    /** The stage's units are its record's now. */
    method CloseStage()
      requires Shape() && Sound(files, g.unit, g.units)
      requires Agree(refs[..], adopted[..], RecordsOf(files), [], g.unit)
      modifies this`active, this`runs, this`curOff, this`total
      ensures Valid() && !active && runs == []
    {
      hide Sound, Agree, RunHits;
      NoRuns(g);
      active, runs, curOff, total := false, [], 0, 0;
    }

    /** What the store would be with the stage's record in it. */
    lemma {:induction false} StagePut(d: Digest, b: Blob)
      requires Valid() && active && intact && runs != [] && d !in files
      requires b.digest == d && b.length == total && !b.Adopted() && b.ext == RunExtents(runs, g, curOff)
      ensures var m := Medium(cells, files[d := BlobBytes(b)]);
              && Sound(m.files, g.unit, g.units) && Agree(refs[..], adopted[..], RecordsOf(m.files), [], g.unit)
              && g.Good(m) && g.Contents(m) == Contents()[d := staged]
    {
      hide Compatible, Agree, BlobBytes, RunHits, Intact, RunExtents, Load, RunsOk;
      hide g.Contents;
      StageCompatible(g, refs[..], adopted[..], RecordsOf(files), runs, curOff, d, b);
      StageHandsOver(g, refs[..], adopted[..], RecordsOf(files), runs, curOff, d, b);
      StageContents(g, cells, files, runs, curOff, total, staged, d, b);
      RecordsAfterPut(files, d, b);
    }

    /** Keeps the staged bytes as a blob, or drops them when the store already holds the digest. */
    method StageEnd(d: Digest, len: nat) returns (r: Status)
      requires Valid() && active && intact
      modifies this, refs
      ensures Valid() && !active
      ensures d in old(files) ==> r == Done && Contents() == old(Contents())
      ensures d !in old(files) && (len == 0 || len != |old(staged)|) ==> r == Invalid && Contents() == old(Contents())
      ensures d !in old(files) && 0 < len == |old(staged)| ==>
                && (r == if fails(old(calls)) || fails(old(calls) + 1) then Failed else Done)
                && Contents() == if r == Done then old(Contents())[d := old(staged)] else old(Contents())
      ensures Faults(old(calls)) <= Faults(calls) && (r == Failed <==> Faults(calls) > Faults(old(calls)))
      ensures old(seen) <= seen
      ensures forall m | m in seen :: m in old(seen) || g.Shows(m, files, Contents())
    {
      hide Sound, Intact, Agree, RunHits, RunsOk, PageStore.Faults;
      if d in files && 0 < |files[d]| <= RECORD_MAX {
        DropStage();
        return Done;
      }
      assert d !in files by { LoadedSize(files, d, g); }
      IntactTotal();
      if len == 0 || total != len {
        DropStage();
        return Invalid;
      }
      r := KeepStage(d);
      if r == Failed {
        DropStage();
      }
    }

    /** What Intact says of the length, on its own. */
    lemma {:induction false} IntactTotal()
      requires Core() && active && intact
      ensures total == |staged|
      ensures runs == [] ==> total == 0
    {
    }

    lemma {:induction false} MapBoundsStage()
      requires Core()
      ensures forall u | 0 <= u < g.units :: RunHits(runs, u) <= 1
    {
    }

    // ---- Blobs ----

    method LoadBlob(d: Digest) returns (r: Option<Blob>)
      ensures r == Load(files, d)
    {
      if d !in files || |files[d]| > RECORD_MAX {
        return None;
      }
      r := DecodeBlob(files[d]);
    }

    /** Joins the extents in order, as the platform's mapping does. */
    method JoinExtents(ext: seq<Extent>) returns (joined: seq<byte>)
      requires forall i | 0 <= i < |ext| :: ext[i].offset + ext[i].length <= |cells|
      ensures joined == Gather(cells, ext)
    {
      joined := [];
      for i := 0 to |ext|
        invariant joined == Gather(cells, ext[..i])
      {
        assert ext[..i + 1][..i] == ext[..i];
        joined := joined + Values(cells[ext[i].offset..ext[i].offset + ext[i].length]);
      }
      assert ext[..|ext|] == ext;
    }

    /** The bytes a mapping of the blob shows; reading its record or mapping it may fail. */
    method BlobMap(d: Digest) returns (r: Option<seq<byte>>, failed: bool)
      requires Valid()
      modifies this`calls
      ensures failed <==> d in Contents() && fails(old(calls))
      ensures Faults(calls) == Faults(old(calls)) + if failed then 1 else 0
      ensures r == if d in Contents() && !failed then Some(Contents()[d]) else None
    {
      hide Intact, Agree, RunsOk, Compatible, Load, Gather;
      ContentsKeys();
      r, failed := None, false;
      var b := LoadBlob(d);
      if b.Some? {
        LoadedFile(files, d);
        SoundRecord(files, d, g);
        failed := Ask();
        if !failed {
          var joined := JoinExtents(if g.scattered then b.value.ext else b.value.ext[..1]);
          r := Some(if |joined| <= b.value.length then joined else joined[..b.value.length]);
        }
      }
    }

    /** Deletes the record, then gives its units back. */
    method BlobDrop(d: Digest) returns (r: Status)
      requires Valid()
      modifies this`files, this`seen, this`calls, refs, adopted
      ensures Valid() && Faults(old(calls)) <= Faults(calls)
      ensures r == if d !in old(Contents()) then NoEntry else if fails(old(calls)) then Failed else Done
      ensures r == Failed <==> Faults(calls) > Faults(old(calls))
      ensures Contents() == if r == Done then old(Contents()) - {d} else old(Contents())
      ensures old(seen) <= seen
      ensures forall m | m in seen :: m in old(seen) || g.Shows(m, files, Contents())
    {
      hide Compatible, Intact, Agree, Load, RunsOk, RunHits, Hits, Unmarked, PageStore.Faults;
      hide g.Contents;
      ContentsKeys();
      var b := LoadBlob(d);
      if b.None? {
        return NoEntry;
      }
      ghost var recs, refs0, adopted0 := RecordsOf(files), refs[..], adopted[..];
      var ok := FileDelete(d);
      if !ok {
        return Failed;
      }
      UnmarkBlob(b.value.ext, recs, d);
      UnmarkKeeps(g, refs0, adopted0, recs, runs, d, refs[..], adopted[..]);
      RecordsAfterDelete(old(files), d);
      DropContents(g, cells, old(files), d);
      return Done;
    }

    lemma {:induction false} ContentsKeys()
      requires Shape() && Sound(files, g.unit, g.units)
      ensures forall d :: d in Contents() <==> Load(files, d).Some?
      ensures forall d | Load(files, d).Some? :: d in RecordsOf(files) && RecordsOf(files)[d] == Load(files, d).value
    {
      forall d | Load(files, d).Some? ensures d in RecordsOf(files) {}
    }

    method UnmarkBlob(ext: seq<Extent>, ghost recs: Records, ghost d: Digest)
      requires Shape() && d in recs && recs[d].ext == ext && Compatible(recs, g.unit, g.units)
      requires Agree(refs[..], adopted[..], recs, runs, g.unit)
      modifies refs, adopted
      ensures Unmarked(g, old(refs[..]), old(adopted[..]), ext, refs[..], adopted[..])
    {
      hide Agree, RunHits, Compatible;
      assert forall u | 0 <= u < g.units :: refs[u] as int >= Hits(ext, g.unit, u) by {
        forall u | 0 <= u < g.units ensures refs[u] as int >= Hits(ext, g.unit, u) {
          OwnersSplit(recs, d, g.unit, u);
          AgreeAt(refs[..], adopted[..], recs, runs, g.unit, u);
        }
      }
      for i := 0 to |ext|
        invariant Unmarked(g, old(refs[..]), old(adopted[..]), ext[..i], refs[..], adopted[..])
      {
        ExtentInRange(recs, d, g, i);
        assert ext[..i + 1][..i] == ext[..i];
        forall u: nat ensures Hits(ext[..i + 1], g.unit, u) <= Hits(ext, g.unit, u) {
          HitsPrefix(ext, i + 1, g.unit, u);
        }
        MarkRange(ext[i], false, false);
      }
      assert ext[..|ext|] == ext;
    }

    /** Takes over bytes that a layout without units placed. */
    method Adopt(d: Digest, offset: uint32, length: uint32) returns (r: Status)
      requires Valid()
      modifies this`files, this`seen, this`calls, refs, adopted
      ensures g.Good(Now()) && Faults(old(calls)) <= Faults(calls)
      ensures r == Failed <==> Faults(calls) > Faults(old(calls))
      ensures length == 0 ==> r == Invalid
      ensures length > 0 && d in old(Contents()) ==> r == Done
      ensures length > 0 && d !in old(Contents()) ==>
                (r == Exists <==>
                  !old(Claimable(g, refs[..], adopted[..], Blob(d, length, 1, [Extent(offset, length)]))))
      ensures length > 0 && d !in old(Contents()) && r != Exists ==>
                r == if fails(old(calls)) || fails(old(calls) + 1) then Failed else Done
      ensures r == Done && d !in old(Contents()) ==>
                && offset + length <= |cells|
                && Contents() == old(Contents())[d := Values(cells[offset..offset + length])]
      ensures r != Done || d in old(Contents()) ==> Contents() == old(Contents())
      ensures old(seen) <= seen
      ensures forall m | m in seen :: m in old(seen) || g.Shows(m, files, Contents())
      ensures Valid() <==>
              !(length > 0 && d !in old(Contents()) && r != Exists && Crowded(g, old(refs[..]), Extent(offset, length)))
    {
      hide Compatible, Intact, Agree, Load, RunsOk, RunHits, Hits, Claimable, Crowded, PageStore.Faults;
      hide g.Contents;
      if length == 0 {
        return Invalid;
      }
      ContentsKeys();
      var have := LoadBlob(d);
      if have.Some? {
        return Done;
      }
      var e := Extent(offset, length);
      var b := Blob(d, length, 1, [e]);
      ghost var refs0, adopted0 := refs[..], adopted[..];
      var ok := ClaimBlob(b);
      if !ok {
        assert refs[..] == refs0 && adopted[..] == adopted0;
        return Exists;
      }
      r := FinishAdopt(d, b, refs0, adopted0);
    }

    /** Writes the record of a claimed blob, or gives its units back. */
    method FinishAdopt(d: Digest, b: Blob, ghost refs0: seq<byte>, ghost adopted0: seq<bool>) returns (r: Status)
      requires Shape() && Sound(files, g.unit, g.units) && |refs0| == |adopted0| == g.units
      requires b.digest == d && |b.ext| == 1 && b.Adopted() && b.length == b.ext[0].length && d !in RecordsOf(files)
      requires Agree(refs0, adopted0, RecordsOf(files), runs, g.unit) && Claimable(g, refs0, adopted0, b)
      requires Marked(g, refs0, adopted0, b, refs[..], adopted[..])
      requires forall u | 0 <= u < g.units && RunHits(runs, u) > 0 :: refs0[u] == 1
      modifies this`files, this`seen, this`calls, refs, adopted
      ensures r == if fails(old(calls)) || fails(old(calls) + 1) then Failed else Done
      ensures Faults(old(calls)) <= Faults(calls) && (r == Failed <==> Faults(calls) > Faults(old(calls)))
      ensures g.Good(Now())
      ensures r == Done ==>
                var e := b.ext[0];
                && e.offset + e.length <= |cells|
                && Contents() == old(Contents())[d := Values(cells[e.offset..e.offset + e.length])]
                && seen == old(seen) + {Now()}
      ensures r == Failed ==> files == old(files) && seen == old(seen)
      ensures !Crowded(g, refs0, b.ext[0]) ==> forall u | 0 <= u < g.units && RunHits(runs, u) > 0 :: refs[u] == 1
      ensures Agree(refs[..], adopted[..], RecordsOf(files), runs, g.unit) <==> !Crowded(g, refs0, b.ext[0])
    {
      hide Compatible, Agree, AgreeUpTo255, Marked, RunsOk, RunHits, Hits, Claimable, BlobBytes, Owners, Crowded,
        Load, PageStore.Faults;
      hide g.Contents;
      ghost var recs, mid, midAdopted := RecordsOf(files), refs[..], adopted[..];
      AgreeIff(refs0, adopted0, recs, runs, g.unit);
      ClaimCompatible(g, refs0, adopted0, recs, runs, d, b);
      ClaimedRange(g, refs0, adopted0, b);
      AdoptContents(g, cells, files, d, b);
      AdoptExact(g, refs0, adopted0, recs, runs, d, b, mid, midAdopted);
      StageKept(g, refs0, adopted0, runs, b, mid, midAdopted);
      RecordsAfterPut(files, d, b);
      var rec := new byte[RECORD_MAX](_ => 0);
      var n := EncodeBlob(b, rec);
      var ok := SyncPut(d, rec[..n]);
      if ok {
        return Done;
      }
      MarkRange(b.ext[0], false, true);
      assert GivenBack(g, mid, midAdopted, b.ext[0], refs[..], adopted[..]);
      AdoptUndone(g, refs0, adopted0, recs, runs, b, mid, midAdopted, refs[..], adopted[..]);
      return Failed;
    }

    // ---- Start ----

    /** The store over a medium, before it has looked at it. */
    constructor (g: Geometry, m: Medium, fails: nat -> bool)
      requires g.Ok() && |m.cells| == g.units * g.unit
      ensures this.g == g && Now() == m && seen == {} && this.fails == fails && calls == 0
      ensures Shape() && fresh(refs) && fresh(adopted) && !active
    {
      this.g, this.fails, calls := g, fails, 0;
      refs := new byte[g.units](_ => 0);
      adopted := new bool[g.units](_ => false);
      active, runs, curOff, total := false, [], 0, 0;
      cells, files := m.cells, m.files;
      seen, staged, intact := {}, [], false;
    }

    /** Rebuilds the unit map from whatever files there are, in the order the directory gives them. */
    method Init(order: seq<Digest>)
      requires Shape()
      requires forall d :: d in files <==> d in order
      requires forall i, j | 0 <= i < j < |order| :: order[i] != order[j]
      modifies this, refs, adopted
      ensures cells == old(cells) && !active && calls == old(calls)
      ensures forall d | d in files :: d in old(files) && files[d] == old(files)[d]
      ensures files == old(files) <==> Sound(old(files), g.unit, g.units)
      ensures Shape() && Sound(files, g.unit, g.units)
      ensures AgreeUpTo255(refs[..], adopted[..], RecordsOf(files), [], g.unit)
      ensures Valid() <==> Countable(files, g)
      ensures g.Good(old(Now())) ==> Contents() == g.Contents(old(Now()))
    {
      hide Compatible, Sound, AgreeUpTo255, Agree, Walked, Marked, Claimable, Load, RecordsOf, Owners, RunHits, Hits;
      hide g.Contents;
      forall u | 0 <= u < g.units {
        refs[u] := 0;
      }
      forall u | 0 <= u < g.units {
        adopted[u] := false;
      }
      active, runs, curOff, total := false, [], 0, 0;
      ghost var cur: Records := map[];
      NothingClaimed(g, refs[..], adopted[..]);
      WalkStarts(g, files);
      for i := 0 to |order|
        modifies this`files, refs, adopted
        invariant Walked(g, old(files), files, order[..i], cur)
        invariant AgreeUpTo255(refs[..], adopted[..], cur, [], g.unit)
        invariant Compatible(cur, g.unit, g.units)
      {
        assert order[..i + 1] == order[..i] + [order[i]];
        WalkNext(g, old(files), files, order, i, cur);
        cur := VisitRebuild(order[i], order[..i], cur, old(files));
      }
      assert order[..|order|] == order;
      WalkDone(g, old(files), files, order, cur);
      NoRuns(g);
      AgreeIffCountable(refs[..], adopted[..], files, g);
    }

    /** One file of the walk: claimed if it is a record that fits with those before it, else deleted. */
    method VisitRebuild(d: Digest, ghost done: seq<Digest>, ghost cur: Records,
                        ghost before: Files) returns (ghost cur': Records)
      requires Shape() && Walked(g, before, files, done, cur)
      requires AgreeUpTo255(refs[..], adopted[..], cur, [], g.unit) && Compatible(cur, g.unit, g.units)
      requires d in files && d !in done && d !in cur
      modifies this`files, refs, adopted
      ensures Walked(g, before, files, done + [d], cur')
      ensures AgreeUpTo255(refs[..], adopted[..], cur', [], g.unit) && Compatible(cur', g.unit, g.units)
    {
      hide Compatible, Sound, AgreeUpTo255, Walked, Claimable, Load, Hits;
      ghost var refs0, adopted0 := refs[..], adopted[..];
      var b := LoadBlob(d);
      ghost var sound := Sound(before, g.unit, g.units);
      if sound {
        WalkHas(g, before, files, done, cur, d);
        NextIsSound(g, before, files, done, cur, d);
      }
      var keep := b.Some? && b.value.digest == d;
      if keep {
        ClaimableIff(g, refs0, adopted0, cur, d, b.value);
        keep := ClaimBlob(b.value);
      }
      if keep {
        MarkKeeps(g, refs0, adopted0, cur, [], d, b.value, refs[..], adopted[..]);
        WalkKeeps(g, before, files, done, cur, d, b.value);
        cur' := cur[d := b.value];
      } else {
        assert refs[..] == refs0 && adopted[..] == adopted0;
        WalkDiscards(g, before, files, done, cur, d);
        files := files - {d};
        cur' := cur;
      }
    }

    // ---- Self check ----

    /** Counts one extent of a record into `owners`. */
    method CountExtent(e: Extent, owners: array<byte>) returns (inside: bool)
      requires Shape() && owners.Length == g.units
      modifies owners
      ensures inside == InRange(e, g.units * g.unit)
      ensures forall u | 0 <= u < g.units ::
                owners[u] == if inside && Touches(e, g.unit, u) then Counted(old(owners[u]), true) else old(owners[u])
    {
      if e.length == 0 || e.offset + e.length > g.units * g.unit {
        return false;
      }
      var u := FirstUnit(e, g.unit);
      var last := LastUnit(e, g.unit);
      while u <= last
        invariant FirstUnit(e, g.unit) <= u
        invariant forall v | 0 <= v < g.units ::
                    owners[v]
                    == if Touches(e, g.unit, v) && v < u then Counted(old(owners[v]), true) else old(owners[v])
      {
        TouchedIsUnit(e, g.unit, g.units, u);
        if owners[u] < 255 {
          owners[u] := owners[u] + 1;
        }
        u := u + 1;
      }
      return true;
    }

    /** Counts one record into `owners`; how many of its extents lie outside the partition. */
    method VisitCheck(b: Blob, owners: array<byte>) returns (outside: nat)
      requires Shape() && owners.Length == g.units
      modifies owners
      ensures outside == |b.ext| - |Inside(b.ext, g.units * g.unit)|
      ensures forall u | 0 <= u < g.units ::
                owners[u] as int == Saturated(old(owners[u]) + Hits(Inside(b.ext, g.units * g.unit), g.unit, u))
    {
      hide RunsOk, Inside, Hits;
      outside := 0;
      NoneInside(g.units * g.unit, g.unit);
      assert b.ext[..0] == [];
      for i := 0 to |b.ext|
        invariant outside == i - |Inside(b.ext[..i], g.units * g.unit)|
        invariant forall u | 0 <= u < g.units ::
                    owners[u] as int
                    == Saturated(old(owners[u]) + Hits(Inside(b.ext[..i], g.units * g.unit), g.unit, u))
      {
        ghost var size, e := g.units * g.unit, b.ext[i];
        InsideMore(b.ext, i, size, g.unit, 0);
        forall u: nat
          ensures Hits(Inside(b.ext[..i + 1], size), g.unit, u)
                  == Hits(Inside(b.ext[..i], size), g.unit, u)
                     + if InRange(e, size) && Touches(e, g.unit, u) then 1 else 0
        {
          InsideMore(b.ext, i, size, g.unit, u);
        }
        var inside := CountExtent(b.ext[i], owners);
        if !inside {
          outside := outside + 1;
        }
      }
      assert b.ext[..|b.ext|] == b.ext;
    }

    /** The same for a record that lies inside. */
    method VisitInside(b: Blob, owners: array<byte>) returns (outside: nat)
      requires Shape() && owners.Length == g.units
      requires forall i | 0 <= i < |b.ext| :: InRange(b.ext[i], g.units * g.unit)
      modifies owners
      ensures outside == 0
      ensures forall u | 0 <= u < g.units :: owners[u] as int == Saturated(old(owners[u]) + Hits(b.ext, g.unit, u))
    {
      hide RunsOk, Inside, Hits;
      AllInside(b.ext, g.units * g.unit);
      outside := VisitCheck(b, owners);
    }

    /** Counts every record of the directory. */
    method CountOwners(order: seq<Digest>, owners: array<byte>) returns (outOfRange: int)
      requires Shape() && Sound(files, g.unit, g.units) && owners.Length == g.units
      requires forall u | 0 <= u < g.units :: owners[u] == 0
      requires forall d :: d in files <==> d in order
      requires forall i, j | 0 <= i < j < |order| :: order[i] != order[j]
      modifies owners
      ensures outOfRange == 0
      ensures forall u | 0 <= u < g.units :: owners[u] as int == Saturated(Owners(RecordsOf(files), g.unit, u))
    {
      hide Sound, RunsOk, Owners, Hits, Listed, Load;
      outOfRange := 0;
      ghost var recs := RecordsOf(files);
      SoundRecords(files, g);
      OwnersEmpty(g.unit);
      assert order[..0] == [];
      for i := 0 to |order|
        invariant outOfRange == 0
        invariant forall u | 0 <= u < g.units ::
                    owners[u] as int == Saturated(Owners(Listed(recs, order[..i]), g.unit, u))
      {
        ListedNext(recs, order, i);
        SoundRecord(files, order[i], g);
        var b := LoadBlob(order[i]);
        var n := VisitInside(b.value, owners);
        outOfRange := outOfRange + n;
        forall u | 0 <= u < g.units
          ensures owners[u] as int == Saturated(Owners(Listed(recs, order[..i + 1]), g.unit, u))
        {
          OwnersAdd(Listed(recs, order[..i]), order[i], recs[order[i]], g.unit, u);
        }
      }
      ListedAll(recs, order);
    }

    /** Walks every record and the map. The two never differ, and no record names a byte outside. */
    method Check(order: seq<Digest>) returns (report: Report)
      requires Valid()
      requires forall d :: d in files <==> d in order
      requires forall i, j | 0 <= i < j < |order| :: order[i] != order[j]
      ensures report.units == g.units
      ensures report.mismatch == 0 && report.outOfRange == 0
      ensures report.shared == SharedBelow(RecordsOf(files), g.unit, g.units)
      ensures report.freeUnits == |set u | 0 <= u < g.units && refs[u] == 0|
    {
      hide Sound, Agree, RunsOk, Intact, Owners, RunHits, Load;
      var owners := new byte[g.units](_ => 0);
      var outOfRange := CountOwners(order, owners);
      ghost var recs := RecordsOf(files);
      var shared, mismatch := 0, 0;
      NoRuns(g);
      for u := 0 to g.units
        modifies {}
        invariant shared == SharedBelow(recs, g.unit, u)
        invariant mismatch == 0
      {
        AgreeAt(refs[..], adopted[..], recs, runs, g.unit, u);
        if owners[u] > 1 {
          shared := shared + 1;
        }
        if (owners[u] > 0) != (refs[u] > 0) && !active {
          mismatch := mismatch + 1;
        }
      }
      var free := CountFree(refs);
      report := Report(g.units, free, shared, outOfRange, mismatch);
    }
  }

  /** The extents that lie in the partition. */
  ghost function Inside(ext: seq<Extent>, size: nat): (r: seq<Extent>)
    ensures |r| <= |ext|
  {
    if ext == [] then []
    else
      var last := ext[|ext| - 1];
      Inside(ext[..|ext| - 1], size) + if InRange(last, size) then [last] else []
  }

  /** What one more extent adds to those inside, and to a unit's hits. */
  lemma {:induction false} InsideMore(ext: seq<Extent>, i: nat, size: nat, unit: nat, u: nat)
    requires i < |ext| && unit > 0
    ensures var a, b := Inside(ext[..i], size), Inside(ext[..i + 1], size);
            && |b| == |a| + (if InRange(ext[i], size) then 1 else 0)
            && Hits(b, unit, u) == Hits(a, unit, u) + if InRange(ext[i], size) && Touches(ext[i], unit, u) then 1 else 0
  {
    assert ext[..i + 1][..i] == ext[..i];
    var a := Inside(ext[..i], size);
    if InRange(ext[i], size) {
      assert (a + [ext[i]])[..|a|] == a;
      assert Inside(ext[..i + 1], size) == a + [ext[i]];
    } else {
      assert Inside(ext[..i + 1], size) == a;
    }
  }

  lemma {:induction false} NoneInside(size: nat, unit: nat)
    requires unit > 0
    ensures Inside([], size) == [] && forall u: nat :: Hits([], unit, u) == 0
  {
  }

  lemma {:induction false} AllInside(ext: seq<Extent>, size: nat)
    requires forall i | 0 <= i < |ext| :: InRange(ext[i], size)
    ensures Inside(ext, size) == ext
  {
    if ext != [] {
      AllInside(ext[..|ext| - 1], size);
    }
  }

  /** A store started on a medium: after a reset, on whatever the reset left. */
  method Recover(g: Geometry, m: Medium, order: seq<Digest>, fails: nat -> bool) returns (s: PageStore)
    requires g.Ok() && g.Good(m)
    requires forall d :: d in m.files <==> d in order
    requires forall i, j | 0 <= i < j < |order| :: order[i] != order[j]
    requires Countable(m.files, g)
    ensures fresh(s) && s.g == g && s.Valid() && !s.active
    ensures s.Now() == m && s.Contents() == g.Contents(m)
  {
    s := new PageStore(g, m, fails);
    s.Init(order);
  }
}
