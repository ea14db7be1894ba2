/** The blob record of the page store: which bytes of the partition hold a blob. */
module BlobRecord {
  import opened Bytes

  const BLOB_MAGIC: uint32 := 0x314c4257
  const HEADER_LEN := 44
  const EXTENT_LEN := 8
  const MAX_EXTENTS := 32
  const RECORD_MAX := 300

  datatype Extent = Extent(offset: uint32, length: uint32)

  datatype Blob = Blob(digest: Digest, length: uint32, flags: byte, ext: seq<Extent>) {
    /** Placed by a layout whose extents need not align to units. */
    predicate Adopted() {
      flags % 2 == 1
    }
  }

  function ExtentBytes(ext: seq<Extent>): (r: seq<byte>)
    ensures |r| == EXTENT_LEN * |ext|
  {
    if ext == [] then []
    else
      var last := ext[|ext| - 1];
      ExtentBytes(ext[..|ext| - 1]) + Put32(last.offset) + Put32(last.length)
  }

  function HeaderBytes(b: Blob): (r: seq<byte>)
    requires |b.ext| <= MAX_EXTENTS
    ensures |r| == HEADER_LEN
  {
    Put32(BLOB_MAGIC) + [|b.ext|, b.flags, 0, 0] + Put32(b.length) + b.digest
  }

  /** The stored form of a record. */
  function BlobBytes(b: Blob): (r: seq<byte>)
    requires |b.ext| <= MAX_EXTENTS
    ensures |r| == HEADER_LEN + EXTENT_LEN * |b.ext|
  {
    HeaderBytes(b) + ExtentBytes(b.ext)
  }

  function ExtentAt(s: seq<byte>, i: nat): Extent
    requires HEADER_LEN + EXTENT_LEN * (i + 1) <= |s|
  {
    var at := HEADER_LEN + EXTENT_LEN * i;
    Extent(Get32(s[at..at + 4]), Get32(s[at + 4..at + 8]))
  }

  /** The record that stored bytes stand for, if they are a record. */
  function BlobFrom(s: seq<byte>): (r: Option<Blob>)
    ensures r.Some? ==> 1 <= |r.value.ext| <= MAX_EXTENTS
  {
    if |s| < HEADER_LEN || Get32(s[..4]) != BLOB_MAGIC then None
    else
      var n := s[4];
      if n == 0 || n > MAX_EXTENTS || |s| < HEADER_LEN + n * EXTENT_LEN then None
      else
        Some(Blob(s[12..44], Get32(s[8..12]), s[5],
                  seq(n, i requires 0 <= i < n => ExtentAt(s, i))))
  }

  lemma {:induction false} ExtentBytesAt(ext: seq<Extent>, i: nat)
    requires i < |ext|
    ensures ExtentBytes(ext)[EXTENT_LEN * i..EXTENT_LEN * i + 4] == Put32(ext[i].offset)
    ensures ExtentBytes(ext)[EXTENT_LEN * i + 4..EXTENT_LEN * i + 8] == Put32(ext[i].length)
  {
    if i < |ext| - 1 {
      ExtentBytesAt(ext[..|ext| - 1], i);
    }
  }

  /** Where each field of a stored record is. */
  lemma {:induction false} BlobLayout(b: Blob)
    requires |b.ext| <= MAX_EXTENTS
    ensures var s := BlobBytes(b);
            && s[..4] == Put32(0x314c4257) && s[4] == |b.ext| && s[5] == b.flags && s[6] == s[7] == 0
            && s[8..12] == Put32(b.length) && s[12..44] == b.digest
            && forall i | 0 <= i < |b.ext| ::
                 s[44 + 8 * i..48 + 8 * i] == Put32(b.ext[i].offset)
                   && s[48 + 8 * i..52 + 8 * i] == Put32(b.ext[i].length)
  {
    hide Put32, ExtentBytes;
    var s, e := BlobBytes(b), ExtentBytes(b.ext);
    forall i | 0 <= i < |b.ext|
      ensures s[44 + 8 * i..48 + 8 * i] == Put32(b.ext[i].offset) && s[48 + 8 * i..52 + 8 * i] == Put32(b.ext[i].length)
    {
      ExtentBytesAt(b.ext, i);
      assert s[44 + 8 * i..48 + 8 * i] == e[8 * i..8 * i + 4] && s[48 + 8 * i..52 + 8 * i] == e[8 * i + 4..8 * i + 8];
    }
  }

  /** Decoding undoes encoding for every record of 1 to 32 extents. */
  lemma {:induction false} BlobRoundTrip(b: Blob)
    requires 1 <= |b.ext| <= MAX_EXTENTS
    ensures BlobFrom(BlobBytes(b)) == Some(b)
  {
    var s := BlobBytes(b);
    assert s[..4] == Put32(BLOB_MAGIC);
    assert s[8..12] == Put32(b.length);
    assert s[12..44] == b.digest;
    Get32OfPut32(BLOB_MAGIC);
    Get32OfPut32(b.length);
    forall i: nat | i < |b.ext| ensures ExtentAt(s, i) == b.ext[i] {
      ExtentBytesAt(b.ext, i);
      var at := HEADER_LEN + EXTENT_LEN * i;
      assert s[at..at + 4] == ExtentBytes(b.ext)[EXTENT_LEN * i..EXTENT_LEN * i + 4];
      assert s[at + 4..at + 8] == ExtentBytes(b.ext)[EXTENT_LEN * i + 4..EXTENT_LEN * i + 8];
      Get32OfPut32(b.ext[i].offset);
      Get32OfPut32(b.ext[i].length);
    }
    assert BlobFrom(s).value.ext == b.ext;
  }

  /** Fills `out` piece by piece and reports how much of it is the record. */
  method EncodeBlob(b: Blob, out: array<byte>) returns (n: nat)
    requires |b.ext| <= MAX_EXTENTS
    requires out.Length == RECORD_MAX
    modifies out
    ensures n == HEADER_LEN + EXTENT_LEN * |b.ext|
    ensures out[..n] == BlobBytes(b)
  {
    EncodeHeader(b, out);
    n := HEADER_LEN;
    for i := 0 to |b.ext|
      invariant n == HEADER_LEN + EXTENT_LEN * i
      invariant out[..n] == HeaderBytes(b) + ExtentBytes(b.ext[..i])
    {
      ghost var head, body := HeaderBytes(b), ExtentBytes(b.ext[..i]);
      Fill(out, n, Put32(b.ext[i].offset) + Put32(b.ext[i].length));
      ExtentBytesSnoc(b.ext, i);
      assert head + body + (Put32(b.ext[i].offset) + Put32(b.ext[i].length))
          == head + ExtentBytes(b.ext[..i + 1]);
      n := n + EXTENT_LEN;
    }
    assert b.ext[..|b.ext|] == b.ext;
  }

  lemma {:induction false} ExtentBytesSnoc(ext: seq<Extent>, i: nat)
    requires i < |ext|
    ensures ExtentBytes(ext[..i + 1])
         == ExtentBytes(ext[..i]) + (Put32(ext[i].offset) + Put32(ext[i].length))
  {
    assert ext[..i + 1][..i] == ext[..i];
  }

  method EncodeHeader(b: Blob, out: array<byte>)
    requires |b.ext| <= MAX_EXTENTS
    requires out.Length == RECORD_MAX
    modifies out
    ensures out[..HEADER_LEN] == HeaderBytes(b)
  {
    Fill(out, 0, Put32(BLOB_MAGIC) + [|b.ext|, b.flags, 0, 0]);
    Fill(out, 8, Put32(b.length));
    Fill(out, 12, b.digest);
    assert out[..0] == [];
  }

  method Fill(out: array<byte>, at: nat, bytes: seq<byte>)
    requires at + |bytes| <= out.Length
    modifies out
    ensures out[..at + |bytes|] == old(out[..at]) + bytes
  {
    for i := 0 to |bytes|
      invariant out[..at + i] == old(out[..at]) + bytes[..i]
    {
      out[at + i] := bytes[i];
    }
  }

  method DecodeBlob(s: seq<byte>) returns (r: Option<Blob>)
    ensures r == BlobFrom(s)
  {
    if |s| < HEADER_LEN || Get32(s[..4]) != BLOB_MAGIC {
      return None;
    }
    var n := s[4];
    if n == 0 || n > MAX_EXTENTS || |s| < HEADER_LEN + n * EXTENT_LEN {
      return None;
    }
    var ext: seq<Extent> := [];
    for i := 0 to n
      invariant |ext| == i
      invariant forall k: nat | k < i :: ext[k] == ExtentAt(s, k)
    {
      ext := ext + [ExtentAt(s, i)];
    }
    assert ext == BlobFrom(s).value.ext;
    return Some(Blob(s[12..44], Get32(s[8..12]), s[5], ext));
  }
}
