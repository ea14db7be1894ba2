/** What records say about the partition: which units they name and which bytes they hold. */
module FlashLayout {
  import opened Arith
  import opened Bytes
  import opened BlobRecord

  /** One byte of flash. `blank` means erased and not written since. */
  datatype Cell = Cell(value: byte, blank: bool)

  const ERASED := Cell(0xFF, true)

  type Files = map<Digest, seq<byte>>
  type Records = map<Digest, Blob>

  /** Everything a reset leaves: the flash and the record files. */
  datatype Medium = Medium(cells: seq<Cell>, files: Files)

  // ---- Units ----

  function FirstUnit(e: Extent, unit: nat): nat
    requires unit > 0
  {
    e.offset / unit
  }

  function LastUnit(e: Extent, unit: nat): int
    requires unit > 0
  {
    (e.offset + e.length - 1) / unit
  }

  /** The extent has a byte in unit `u`. */
  predicate Touches(e: Extent, unit: nat, u: nat)
    requires unit > 0
  {
    FirstUnit(e, unit) <= u <= LastUnit(e, unit)
  }

  predicate Names(b: Blob, unit: nat, u: nat)
    requires unit > 0
  {
    exists i | 0 <= i < |b.ext| :: Touches(b.ext[i], unit, u)
  }

  predicate InRange(e: Extent, size: nat) {
    e.length > 0 && e.offset + e.length <= size
  }

  /** A unit an in-range extent touches is a unit of the partition. */
  lemma {:induction false} TouchedIsUnit(e: Extent, unit: nat, units: nat, u: nat)
    requires unit > 0 && InRange(e, units * unit) && Touches(e, unit, u)
    ensures u < units
  {
    var last := e.offset + e.length - 1;
    if last / unit >= units {
      MulMono(units, last / unit, unit);
      assert false;
    }
  }

  // ---- How often records name a unit ----

  /** How many of the extents touch unit `u`. */
  ghost function Hits(ext: seq<Extent>, unit: nat, u: nat): nat
    requires unit > 0
  {
    if ext == [] then 0
    else Hits(ext[..|ext| - 1], unit, u) + if Touches(ext[|ext| - 1], unit, u) then 1 else 0
  }

  /** How many extents of all the records touch unit `u`. */
  ghost function Owners(recs: Records, unit: nat, u: nat): nat
    requires unit > 0
  {
    if recs == map[] then 0
    else
      var d :| d in recs;
      Hits(recs[d].ext, unit, u) + Owners(recs - {d}, unit, u)
  }

  lemma {:induction false} HitsPositive(ext: seq<Extent>, unit: nat, u: nat)
    requires unit > 0
    ensures Hits(ext, unit, u) > 0 <==> exists i | 0 <= i < |ext| :: Touches(ext[i], unit, u)
  {
    if ext != [] {
      var front := ext[..|ext| - 1];
      HitsPositive(front, unit, u);
      forall i | 0 <= i < |front| ensures front[i] == ext[i] {}
      if Hits(ext, unit, u) > 0 {
        if Touches(ext[|ext| - 1], unit, u) {
        } else {
          var i :| 0 <= i < |front| && Touches(front[i], unit, u);
          assert Touches(ext[i], unit, u);
        }
      }
      if i :| 0 <= i < |ext| && Touches(ext[i], unit, u) {
        if i < |front| {
          assert Touches(front[i], unit, u);
        }
      }
    }
  }

  /** The choice of the first record to count does not matter. */
  lemma {:induction false} OwnersSplit(recs: Records, d: Digest, unit: nat, u: nat)
    requires unit > 0 && d in recs
    ensures Owners(recs, unit, u) == Hits(recs[d].ext, unit, u) + Owners(recs - {d}, unit, u)
    decreases |recs|
  {
    var e :| e in recs && Owners(recs, unit, u) == Hits(recs[e].ext, unit, u) + Owners(recs - {e}, unit, u);
    if e != d {
      assert |recs - {e}| < |recs| && |recs - {d}| < |recs| by {
        assert (recs - {e}).Keys == recs.Keys - {e};
        assert (recs - {d}).Keys == recs.Keys - {d};
      }
      OwnersSplit(recs - {e}, d, unit, u);
      OwnersSplit(recs - {d}, e, unit, u);
      assert recs - {e} - {d} == recs - {d} - {e};
    }
  }

  lemma {:induction false} OwnersAdd(recs: Records, d: Digest, b: Blob, unit: nat, u: nat)
    requires unit > 0 && d !in recs
    ensures Owners(recs[d := b], unit, u) == Hits(b.ext, unit, u) + Owners(recs, unit, u)
  {
    OwnersSplit(recs[d := b], d, unit, u);
    assert recs[d := b] - {d} == recs;
  }

  lemma {:induction false} OwnersPositive(recs: Records, unit: nat, u: nat)
    requires unit > 0
    ensures Owners(recs, unit, u) > 0 <==> exists d | d in recs :: Names(recs[d], unit, u)
    decreases |recs|
  {
    if recs != map[] {
      var d :| d in recs;
      assert |recs - {d}| < |recs| by {
        assert (recs - {d}).Keys == recs.Keys - {d};
      }
      OwnersSplit(recs, d, unit, u);
      HitsPositive(recs[d].ext, unit, u);
      OwnersPositive(recs - {d}, unit, u);
      var rest := recs - {d};
      if k :| k in rest && Names(rest[k], unit, u) {
        assert Names(recs[k], unit, u);
      }
      if k :| k in recs && Names(recs[k], unit, u) {
        if k != d {
          assert Names(rest[k], unit, u);
        }
      }
    }
  }

  // ---- Record files ----

  /** The record a file holds: a file past the buffer or with other bytes holds none. */
  function Load(files: Files, d: Digest): (r: Option<Blob>)
    ensures r.Some? ==> 1 <= |r.value.ext| <= MAX_EXTENTS
  {
    if d !in files || |files[d]| > RECORD_MAX then None else BlobFrom(files[d])
  }

  function RecordsOf(files: Files): Records {
    map d | d in files && Load(files, d).Some? :: Load(files, d).value
  }

  lemma {:induction false} RecordsAfterPut(files: Files, d: Digest, b: Blob)
    requires 1 <= |b.ext| <= MAX_EXTENTS
    ensures Load(files[d := BlobBytes(b)], d) == Some(b)
    ensures RecordsOf(files[d := BlobBytes(b)]) == RecordsOf(files)[d := b]
  {
    BlobRoundTrip(b);
    var files' := files[d := BlobBytes(b)];
    forall k | k != d ensures Load(files', k) == Load(files, k) {}
  }

  lemma {:induction false} RecordsAfterDelete(files: Files, d: Digest)
    ensures RecordsOf(files - {d}) == RecordsOf(files) - {d}
  {
    forall k | k in files && k != d ensures Load(files - {d}, k) == Load(files, k) {}
  }

  // ---- What the records hold ----

  function Values(cells: seq<Cell>): (r: seq<byte>)
    ensures |r| == |cells|
  {
    seq(|cells|, i requires 0 <= i < |cells| => cells[i].value)
  }

  /** The bytes of the extents, joined in order. */
  ghost function Gather(cells: seq<Cell>, ext: seq<Extent>): seq<byte>
    requires forall i | 0 <= i < |ext| :: ext[i].offset + ext[i].length <= |cells|
  {
    if ext == [] then []
    else
      var e := ext[|ext| - 1];
      Gather(cells, ext[..|ext| - 1]) + Values(cells[e.offset..e.offset + e.length])
  }

  /** Cells outside the named units do not matter to what a blob reads as. */
  lemma {:induction false} GatherFrame(before: seq<Cell>, after: seq<Cell>, ext: seq<Extent>, unit: nat, u: nat)
    requires unit > 0
    requires |before| == |after|
    requires forall i | 0 <= i < |ext| :: ext[i].offset + ext[i].length <= |before|
    requires forall i | 0 <= i < |ext| :: !Touches(ext[i], unit, u)
    requires forall a | 0 <= a < |before| && a / unit != u :: after[a] == before[a]
    ensures Gather(after, ext) == Gather(before, ext)
  {
    if ext != [] {
      var e := ext[|ext| - 1];
      GatherFrame(before, after, ext[..|ext| - 1], unit, u);
      forall a | e.offset <= a < e.offset + e.length ensures after[a] == before[a] {
        DivMono(e.offset, a, unit);
        DivMono(a, e.offset + e.length - 1, unit);
      }
      assert after[e.offset..e.offset + e.length] == before[e.offset..e.offset + e.length];
    }
  }

  // ---- Media a store can start from ----

  /** Records that one partition can hold together: inside it, and on a shared unit only
      between blobs an older layout placed. */
  ghost predicate Compatible(recs: Records, unit: nat, units: nat)
    requires unit > 0
  {
    && (forall d | d in recs :: recs[d].digest == d)
    && (forall d, i | d in recs && 0 <= i < |recs[d].ext| :: InRange(recs[d].ext[i], units * unit))
    && (forall d, e, u: nat | d in recs && e in recs && d != e && Names(recs[d], unit, u) && Names(recs[e], unit, u) ::
          recs[d].Adopted() && recs[e].Adopted())
  }

  ghost predicate Sound(files: Files, unit: nat, units: nat)
    requires unit > 0
  {
    && (forall d | d in files :: Load(files, d).Some?)
    && Compatible(RecordsOf(files), unit, units)
  }

  ghost predicate AdoptedNamed(recs: Records, unit: nat, u: nat)
    requires unit > 0
  {
    exists d | d in recs :: recs[d].Adopted() && Names(recs[d], unit, u)
  }

  /** The partition: `units` allocation units of `unit` bytes. `scattered` when a mapping can
      join extents that are not adjacent. */
  datatype Geometry = Geometry(unit: nat, units: nat, scattered: bool) {
    ghost predicate Ok() {
      0 < unit && units <= 4096 && units * unit < 0x1_0000_0000
    }

    ghost predicate Good(m: Medium)
      requires Ok()
    {
      |m.cells| == units * unit && Sound(m.files, unit, units)
    }

    /** What mapping a blob shows: its extents joined, or the first one alone, cut to its length. */
    ghost function Mapped(cells: seq<Cell>, b: Blob): seq<byte>
      requires forall i | 0 <= i < |b.ext| :: b.ext[i].offset + b.ext[i].length <= |cells|
    {
      var joined := Gather(cells, if scattered || b.ext == [] then b.ext else b.ext[..1]);
      if |joined| <= b.length then joined else joined[..b.length]
    }

    /** The blobs a medium holds, each as the bytes a mapping shows. */
    ghost function Contents(m: Medium): map<Digest, seq<byte>>
      requires Ok() && Good(m)
    {
      var recs := RecordsOf(m.files);
      map d | d in recs :: Mapped(m.cells, recs[d])
    }

    /** The medium has these files, and the blobs they name read as `held`. */
    ghost predicate Shows(m: Medium, files: Files, held: map<Digest, seq<byte>>)
      requires Ok()
    {
      m.files == files && Good(m) && Contents(m) == held
    }

    /** Changing one unit no record names changes no blob. */
    lemma {:induction false} ContentsFrame(m: Medium, m': Medium, u: nat)
      requires Ok() && Good(m)
      requires m'.files == m.files && |m'.cells| == |m.cells|
      requires forall a | 0 <= a < |m.cells| && a / unit != u :: m'.cells[a] == m.cells[a]
      requires forall d | d in RecordsOf(m.files) :: !Names(RecordsOf(m.files)[d], unit, u)
      ensures Good(m') && Contents(m') == Contents(m)
    {
      var recs := RecordsOf(m.files);
      forall d | d in recs ensures Mapped(m'.cells, recs[d]) == Mapped(m.cells, recs[d]) {
        var b := recs[d];
        var ext := if scattered || b.ext == [] then b.ext else b.ext[..1];
        forall i | 0 <= i < |ext| ensures !Touches(ext[i], unit, u) {
          assert ext[i] == b.ext[i];
        }
        GatherFrame(m.cells, m'.cells, ext, unit, u);
      }
    }
  }
}
