/** The entry record: an image's layers, times and signature as stored bytes. */
module RecordCodec {
  import opened Bytes
  import BlobRecord

  const MAGIC: uint32 := 0x57415034
  const MAGIC_V3: uint32 := 0x57415033
  const HEADER_LEN := 36
  const LAYER_LEN := 36
  const SIG_LEN := 64
  const HEX_LEN := 64

  /** The most layers any build holds; a build's own limit is a parameter. */
  const ABS_MAX_LAYERS := 16

  type Signature = s: seq<byte> | |s| == 64 witness seq(64, _ => 0)

  datatype Layer = Layer(length: uint32, digest: Digest)

  datatype Meta = Meta(
    flags: byte,
    keyId: uint32,
    installSeq: uint32,
    size: uint32,
    installed: int64,
    created: int64,
    layers: seq<Layer>,
    signature: Signature)

  function LayerBytes(layers: seq<Layer>): (r: seq<byte>)
    ensures |r| == LAYER_LEN * |layers|
  {
    if layers == [] then []
    else
      var last := layers[|layers| - 1];
      LayerBytes(layers[..|layers| - 1]) + (Put32(last.length) + last.digest)
  }

  function HeaderBytes(m: Meta): (r: seq<byte>)
    requires |m.layers| < 0x100
    ensures |r| == HEADER_LEN
  {
    Put32(MAGIC) + [m.flags, |m.layers|, 0, 0]
    + Put32(m.keyId) + Put32(m.installSeq) + Put32(m.size)
    + Put64(m.installed) + Put64(m.created)
  }

  /** The stored form of an entry record. */
  function RecordBytes(m: Meta): (r: seq<byte>)
    requires |m.layers| < 0x100
    ensures |r| == HEADER_LEN + LAYER_LEN * |m.layers| + SIG_LEN
  {
    HeaderBytes(m) + LayerBytes(m.layers) + m.signature
  }

  function LayerAt(s: seq<byte>, i: nat): Layer
    requires HEADER_LEN + LAYER_LEN * (i + 1) <= |s|
  {
    var at := HEADER_LEN + LAYER_LEN * i;
    Layer(Get32(s[at..at + 4]), s[at + 4..at + 36])
  }

  function V4From(s: seq<byte>, max: nat): Option<Meta>
    requires |s| >= HEADER_LEN
  {
    var n := s[5];
    var need := HEADER_LEN + LAYER_LEN * n + SIG_LEN;
    if n > max || |s| < need then None
    else
      Some(Meta(s[4], Get32(s[8..12]), Get32(s[12..16]), Get32(s[16..20]),
                Get64(s[20..28]), Get64(s[28..36]),
                seq(n, i requires 0 <= i < n => LayerAt(s, i)),
                s[need - SIG_LEN..need]))
  }

  /** The clock-unset flag, set. */
  function ClockUnset(flags: byte): byte {
    if flags / 4 % 2 == 1 then flags else flags + 4
  }

  function V3Digest(s: seq<byte>, i: nat): Digest
    requires 16 + DIGEST_LEN * (i + 1) <= |s|
  {
    s[16 + DIGEST_LEN * i..16 + DIGEST_LEN * i + DIGEST_LEN]
  }

  /** A structure dump of the older format: a digest for each layer slot, one length, no times. */
  function V3From(s: seq<byte>, max: nat): Option<Meta> {
    var need := 16 + max * DIGEST_LEN + SIG_LEN;
    if |s| < need || s[12] > max then None
    else
      var n, size := s[12], Get32(s[4..8]);
      Some(Meta(ClockUnset(s[13]), Get32(s[8..12]), 0, size, 0, 0,
                seq(n, i requires 0 <= i < n => Layer(if n == 1 then size else 0, V3Digest(s, i))),
                s[need - SIG_LEN..need]))
  }

  /** The record that stored bytes stand for, if they are one this build holds. */
  function RecordFrom(s: seq<byte>, max: nat): Option<Meta> {
    if |s| < 4 then None
    else if Get32(s[..4]) == MAGIC_V3 then V3From(s, max)
    else if Get32(s[..4]) != MAGIC || |s| < HEADER_LEN then None
    else V4From(s, max)
  }

  // ---- Round trips ----

  lemma {:induction false} LayerBytesAt(layers: seq<Layer>, i: nat)
    requires i < |layers|
    ensures LayerBytes(layers)[LAYER_LEN * i..LAYER_LEN * i + 4] == Put32(layers[i].length)
    ensures LayerBytes(layers)[LAYER_LEN * i + 4..LAYER_LEN * i + 36] == layers[i].digest
  {
    if i < |layers| - 1 {
      LayerBytesAt(layers[..|layers| - 1], i);
    }
  }

  lemma {:induction false} HeaderRead(m: Meta, s: seq<byte>)
    requires |m.layers| < 0x100 && |s| >= HEADER_LEN && s[..HEADER_LEN] == HeaderBytes(m)
    ensures Get32(s[..4]) == MAGIC && s[4] == m.flags && s[5] == |m.layers|
    ensures Get32(s[8..12]) == m.keyId && Get32(s[12..16]) == m.installSeq && Get32(s[16..20]) == m.size
    ensures Get64(s[20..28]) == m.installed && Get64(s[28..36]) == m.created
  {
    hide Put32, Get32, Put64, Get64;
    var h := s[..HEADER_LEN];
    assert s[..4] == h[..4] == Put32(MAGIC);
    assert s[4] == h[4] && s[5] == h[5];
    assert s[8..12] == h[8..12] == Put32(m.keyId);
    assert s[12..16] == h[12..16] == Put32(m.installSeq);
    assert s[16..20] == h[16..20] == Put32(m.size);
    assert s[20..28] == h[20..28] == Put64(m.installed);
    assert s[28..36] == h[28..36] == Put64(m.created);
    Get32OfPut32(MAGIC);
    Get32OfPut32(m.keyId);
    Get32OfPut32(m.installSeq);
    Get32OfPut32(m.size);
    Get64OfPut64(m.installed);
    Get64OfPut64(m.created);
  }

  /** Where each field of a stored record is. */
  lemma {:induction false} RecordLayout(m: Meta)
    requires |m.layers| < 0x100
    ensures var s, n := RecordBytes(m), |m.layers|;
            && s[..4] == Put32(0x57415034) && s[4] == m.flags && s[5] == n && s[6] == s[7] == 0
            && s[8..12] == Put32(m.keyId) && s[12..16] == Put32(m.installSeq) && s[16..20] == Put32(m.size)
            && s[20..28] == Put64(m.installed) && s[28..36] == Put64(m.created)
            && (forall i | 0 <= i < n ::
                  s[36 + 36 * i..40 + 36 * i] == Put32(m.layers[i].length)
                    && s[40 + 36 * i..72 + 36 * i] == m.layers[i].digest)
            && s[36 + 36 * n..100 + 36 * n] == m.signature && |s| == 100 + 36 * n
  {
    hide Put32, Put64, LayerBytes, HeaderBytes;
    var s, b, n := RecordBytes(m), LayerBytes(m.layers), |m.layers|;
    assert s[..36] == HeaderBytes(m);
    HeaderLayout(m, s);
    forall i | 0 <= i < n
      ensures s[36 + 36 * i..40 + 36 * i] == Put32(m.layers[i].length)
                && s[40 + 36 * i..72 + 36 * i] == m.layers[i].digest
    {
      LayerBytesAt(m.layers, i);
      assert s[36 + 36 * i..40 + 36 * i] == b[36 * i..36 * i + 4]
        && s[40 + 36 * i..72 + 36 * i] == b[36 * i + 4..36 * i + 36];
    }
  }

  lemma {:induction false} HeaderLayout(m: Meta, s: seq<byte>)
    requires |m.layers| < 0x100 && |s| >= 36 && s[..36] == HeaderBytes(m)
    ensures s[..4] == Put32(0x57415034) && s[4] == m.flags && s[5] == |m.layers| && s[6] == s[7] == 0
    ensures s[8..12] == Put32(m.keyId) && s[12..16] == Put32(m.installSeq) && s[16..20] == Put32(m.size)
    ensures s[20..28] == Put64(m.installed) && s[28..36] == Put64(m.created)
  {
    hide Put32, Put64;
    var h := s[..36];
    assert s[..4] == h[..4] && s[4] == h[4] && s[5] == h[5] && s[6] == h[6] && s[7] == h[7];
    assert s[8..12] == h[8..12] && s[12..16] == h[12..16] && s[16..20] == h[16..20];
    assert s[20..28] == h[20..28] && s[28..36] == h[28..36];
  }

  /** Decoding undoes encoding, whatever follows the record, if and only if this build holds its layers. */
  lemma {:induction false} RecordRoundTrip(m: Meta, tail: seq<byte>, max: nat)
    requires |m.layers| < 0x100
    ensures RecordFrom(RecordBytes(m) + tail, max) == if |m.layers| <= max then Some(m) else None
  {
    hide Put32, Get32, Put64, Get64, HeaderBytes, LayerBytes;
    var s := RecordBytes(m) + tail;
    assert s[..HEADER_LEN] == HeaderBytes(m);
    HeaderRead(m, s);
    if |m.layers| <= max {
      forall i: nat | i < |m.layers| ensures LayerAt(s, i) == m.layers[i] {
        LayerBytesAt(m.layers, i);
        var at, b := HEADER_LEN + LAYER_LEN * i, LayerBytes(m.layers);
        assert s[at..at + 4] == b[LAYER_LEN * i..LAYER_LEN * i + 4];
        assert s[at + 4..at + 36] == b[LAYER_LEN * i + 4..LAYER_LEN * i + 36];
        Get32OfPut32(m.layers[i].length);
      }
      assert V4From(s, max).value.layers == m.layers;
      var need := HEADER_LEN + LAYER_LEN * |m.layers| + SIG_LEN;
      assert s[need - SIG_LEN..need] == m.signature;
    }
  }

  // ---- The older format ----

  /** An entry as the older format dumped it: a digest for every layer slot, whether used or not, and padding. */
  datatype Older = Older(size: uint32, keyId: uint32, count: byte, flags: byte, pad: (byte, byte), slots: seq<Digest>,
                         signature: Signature)

  function DigestBytes(ds: seq<Digest>): (r: seq<byte>)
    ensures |r| == DIGEST_LEN * |ds|
  {
    if ds == [] then [] else DigestBytes(ds[..|ds| - 1]) + ds[|ds| - 1]
  }

  function OlderHeader(o: Older): (r: seq<byte>)
    ensures |r| == 16
  {
    Put32(MAGIC_V3) + Put32(o.size) + Put32(o.keyId) + [o.count, o.flags, o.pad.0, o.pad.1]
  }

  function OlderBytes(o: Older): (r: seq<byte>)
    ensures |r| == 16 + DIGEST_LEN * |o.slots| + SIG_LEN
  {
    OlderHeader(o) + DigestBytes(o.slots) + o.signature
  }

  lemma {:induction false} DigestBytesAt(ds: seq<Digest>, i: nat)
    requires i < |ds|
    ensures DigestBytes(ds)[DIGEST_LEN * i..DIGEST_LEN * (i + 1)] == ds[i]
  {
    if i < |ds| - 1 {
      DigestBytesAt(ds[..|ds| - 1], i);
    }
  }

  lemma {:induction false} OlderHeaderRead(o: Older, s: seq<byte>)
    requires |s| >= 16 && s[..16] == OlderHeader(o)
    ensures Get32(s[..4]) == MAGIC_V3 && Get32(s[4..8]) == o.size && Get32(s[8..12]) == o.keyId
    ensures s[12] == o.count && s[13] == o.flags
  {
    hide Put32, Get32;
    var h := s[..16];
    assert s[..4] == h[..4] == Put32(MAGIC_V3);
    assert s[4..8] == h[4..8] == Put32(o.size);
    assert s[8..12] == h[8..12] == Put32(o.keyId);
    assert s[12] == h[12] && s[13] == h[13];
    Get32OfPut32(MAGIC_V3);
    Get32OfPut32(o.size);
    Get32OfPut32(o.keyId);
  }

  /** An older record, from a build with as many slots: its used digests, size, key and signature, under no sequence and
      no times; the one layer of a single-layer image has the image's size, and no other layer has a length. */
  lemma {:induction false} OlderRecordRead(o: Older, tail: seq<byte>)
    ensures var r := RecordFrom(OlderBytes(o) + tail, |o.slots|);
            && (r.Some? <==> o.count <= |o.slots|)
            && (r.Some? ==>
                  && r.value.flags == ClockUnset(o.flags) && r.value.keyId == o.keyId && r.value.size == o.size
                  && r.value.installSeq == 0 && r.value.installed == 0 && r.value.created == 0
                  && r.value.signature == o.signature && |r.value.layers| == o.count
                  && forall i | 0 <= i < o.count ::
                       r.value.layers[i] == Layer(if o.count == 1 then o.size else 0, o.slots[i]))
  {
    hide Put32, Get32, OlderHeader, DigestBytes, ClockUnset;
    var s, max := OlderBytes(o) + tail, |o.slots|;
    assert s[..16] == OlderHeader(o);
    OlderHeaderRead(o, s);
    if o.count <= max {
      forall i: nat | i < o.count ensures V3Digest(s, i) == o.slots[i] {
        DigestBytesAt(o.slots, i);
        var at := 16 + DIGEST_LEN * i;
        assert s[at..at + DIGEST_LEN] == DigestBytes(o.slots)[DIGEST_LEN * i..DIGEST_LEN * (i + 1)];
      }
      var need := 16 + DIGEST_LEN * max + SIG_LEN;
      assert s[need - SIG_LEN..need] == o.signature;
    }
  }

  /** The older record that bytes with its magic are. */
  function OlderOf(s: seq<byte>, max: nat): Older
    requires |s| >= 16 + DIGEST_LEN * max + SIG_LEN
  {
    var at := 16 + DIGEST_LEN * max;
    Older(Get32(s[4..8]), Get32(s[8..12]), s[12], s[13], (s[14], s[15]),
          seq(max, i requires 0 <= i < max => V3Digest(s, i)), s[at..at + SIG_LEN])
  }

  lemma {:induction false} DigestsWritten(s: seq<byte>, ds: seq<Digest>)
    requires |s| >= 16 + DIGEST_LEN * |ds| && forall i: nat | i < |ds| :: ds[i] == V3Digest(s, i)
    ensures DigestBytes(ds) == s[16..16 + DIGEST_LEN * |ds|]
  {
    if ds != [] {
      var k := |ds| - 1;
      DigestsWritten(s, ds[..k]);
      var at := 16 + DIGEST_LEN * k;
      assert ds[k] == V3Digest(s, k);
      assert s[16..at + DIGEST_LEN] == s[16..at] + s[at..at + DIGEST_LEN];
    }
  }

  /** Every run of bytes with the older magic that is long enough is an older record, and no shorter one is read. */
  lemma {:induction false} OlderBytesAll(s: seq<byte>, max: nat)
    requires |s| >= 4 && Get32(s[..4]) == MAGIC_V3
    ensures |s| < 16 + DIGEST_LEN * max + SIG_LEN ==> RecordFrom(s, max) == None
    ensures |s| >= 16 + DIGEST_LEN * max + SIG_LEN ==>
              var o := OlderOf(s, max);
              |o.slots| == max && OlderBytes(o) == s[..16 + DIGEST_LEN * max + SIG_LEN]
  {
    hide Put32, Get32, DigestBytes;
    var at := 16 + DIGEST_LEN * max;
    if |s| >= at + SIG_LEN {
      var o := OlderOf(s, max);
      Put32OfGet32(s[..4]);
      Put32OfGet32(s[4..8]);
      Put32OfGet32(s[8..12]);
      assert OlderHeader(o) == s[..16];
      DigestsWritten(s, o.slots);
      assert s[..at + SIG_LEN] == s[..16] + s[16..at] + s[at..at + SIG_LEN];
    }
  }

  /** An older record, once read, is kept whole by the present format. */
  lemma {:induction false} OlderRecordSurvives(s: seq<byte>, max: nat)
    requires max <= ABS_MAX_LAYERS && |s| >= 4 && Get32(s[..4]) == MAGIC_V3 && RecordFrom(s, max).Some?
    ensures RecordFrom(RecordBytes(RecordFrom(s, max).value), max) == RecordFrom(s, max)
  {
    hide Put32, Get32, Put64, Get64, RecordBytes;
    var m := RecordFrom(s, max).value;
    RecordRoundTrip(m, [], max);
    assert RecordBytes(m) + [] == RecordBytes(m);
  }

  lemma {:induction false} HeaderWritten(m: Meta, s: seq<byte>)
    requires |s| >= HEADER_LEN && |m.layers| == s[5] && m.flags == s[4] && Get32(s[..4]) == MAGIC
    requires m.keyId == Get32(s[8..12]) && m.installSeq == Get32(s[12..16]) && m.size == Get32(s[16..20])
    requires m.installed == Get64(s[20..28]) && m.created == Get64(s[28..36])
    ensures HeaderBytes(m) == s[..HEADER_LEN] <==> s[6] == 0 && s[7] == 0
  {
    hide Put32, Get32, Put64, Get64;
    Put32OfGet32(s[..4]);
    Put32OfGet32(s[8..12]);
    Put32OfGet32(s[12..16]);
    Put32OfGet32(s[16..20]);
    Put64OfGet64(s[20..28]);
    Put64OfGet64(s[28..36]);
    assert HeaderBytes(m) == s[..6] + [0, 0] + s[8..36];
    assert s[..HEADER_LEN] == s[..6] + [s[6], s[7]] + s[8..36];
    if s[6] != 0 || s[7] != 0 {
      assert HeaderBytes(m)[6] == 0 && HeaderBytes(m)[7] == 0;
    }
  }

  lemma {:induction false} LayersWritten(s: seq<byte>, layers: seq<Layer>)
    requires |s| >= HEADER_LEN + LAYER_LEN * |layers|
    requires forall i: nat | i < |layers| :: layers[i] == LayerAt(s, i)
    ensures LayerBytes(layers) == s[HEADER_LEN..HEADER_LEN + LAYER_LEN * |layers|]
  {
    hide Put32, Get32;
    if layers != [] {
      var k := |layers| - 1;
      LayersWritten(s, layers[..k]);
      var at := HEADER_LEN + LAYER_LEN * k;
      assert layers[k] == LayerAt(s, k);
      Put32OfGet32(s[at..at + 4]);
      assert s[HEADER_LEN..at + 36] == s[HEADER_LEN..at] + (s[at..at + 4] + s[at + 4..at + 36]);
    }
  }

  /** Encoding undoes decoding exactly where the two reserved bytes are zero. */
  lemma {:induction false} RecordBytesBack(s: seq<byte>, max: nat)
    requires |s| >= 4 && Get32(s[..4]) == MAGIC && RecordFrom(s, max).Some?
    ensures var m := RecordFrom(s, max).value;
            |m.layers| < 0x100 && |s| >= |RecordBytes(m)|
            && (RecordBytes(m) == s[..|RecordBytes(m)|] <==> s[6] == 0 && s[7] == 0)
  {
    hide Put32, Get32, Put64, Get64, HeaderBytes, LayerBytes;
    var m := RecordFrom(s, max).value;
    var n := |m.layers|;
    var body := HEADER_LEN + LAYER_LEN * n;
    HeaderWritten(m, s);
    LayersWritten(s, m.layers);
    var whole := s[..body + SIG_LEN];
    assert whole == s[..HEADER_LEN] + s[HEADER_LEN..body] + s[body..body + SIG_LEN];
    assert RecordBytes(m)[..HEADER_LEN] == HeaderBytes(m);
    assert whole[..HEADER_LEN] == s[..HEADER_LEN];
  }

  // ---- The routines ----

  /** Writes a record into `out`; 0 when it does not fit or has too many layers. */
  method Encode(m: Meta, out: array<byte>, max: nat) returns (n: nat)
    requires |m.layers| < 0x100
    modifies out
    ensures n == if |m.layers| > max || out.Length < |RecordBytes(m)| then 0 else |RecordBytes(m)|
    ensures out[..n] == if n == 0 then [] else RecordBytes(m)
    ensures n == 0 ==> out[..] == old(out[..])
  {
    hide Put32, Put64, HeaderBytes, LayerBytes;
    var need := HEADER_LEN + LAYER_LEN * |m.layers| + SIG_LEN;
    if |m.layers| > max || out.Length < need { return 0; }
    EncodeHeader(m, out);
    var off := HEADER_LEN;
    assert m.layers[..0] == [];
    NoLayers();
    assert HeaderBytes(m) + [] == HeaderBytes(m);
    for i := 0 to |m.layers|
      invariant off == HEADER_LEN + LAYER_LEN * i
      invariant out[..off] == HeaderBytes(m) + LayerBytes(m.layers[..i])
    {
      LayerBytesSnoc(m.layers, i);
      var entry := Put32(m.layers[i].length) + m.layers[i].digest;
      BlobRecord.Fill(out, off, entry);
      assert HeaderBytes(m) + LayerBytes(m.layers[..i]) + entry == HeaderBytes(m) + LayerBytes(m.layers[..i + 1]);
      off := off + LAYER_LEN;
    }
    assert m.layers[..|m.layers|] == m.layers;
    BlobRecord.Fill(out, off, m.signature);
    n := need;
  }

  lemma {:induction false} NoLayers()
    ensures LayerBytes([]) == []
  {
  }

  lemma {:induction false} LayerBytesSnoc(layers: seq<Layer>, i: nat)
    requires i < |layers|
    ensures LayerBytes(layers[..i + 1]) == LayerBytes(layers[..i]) + (Put32(layers[i].length) + layers[i].digest)
  {
    assert layers[..i + 1][..i] == layers[..i];
  }

  method EncodeHeader(m: Meta, out: array<byte>)
    requires |m.layers| < 0x100 && out.Length >= HEADER_LEN
    modifies out
    ensures out[..HEADER_LEN] == HeaderBytes(m)
  {
    hide Put32, Put64;
    assert out[..0] == [];
    BlobRecord.Fill(out, 0, Put32(MAGIC) + [m.flags, |m.layers|, 0, 0]);
    BlobRecord.Fill(out, 8, Put32(m.keyId));
    BlobRecord.Fill(out, 12, Put32(m.installSeq));
    BlobRecord.Fill(out, 16, Put32(m.size));
    BlobRecord.Fill(out, 20, Put64(m.installed));
    BlobRecord.Fill(out, 28, Put64(m.created));
  }

  method DecodeV3(s: seq<byte>, max: nat) returns (r: Option<Meta>)
    ensures r == V3From(s, max)
  {
    hide Get32;
    var need := 16 + max * DIGEST_LEN + SIG_LEN;
    if |s| < need { return None; }
    var n := s[12];
    if n > max { return None; }
    var size := Get32(s[4..8]);
    var layers: seq<Layer> := [];
    for i := 0 to n
      invariant |layers| == i
      invariant forall k: nat | k < i :: layers[k] == Layer(0, V3Digest(s, k))
    {
      layers := layers + [Layer(0, V3Digest(s, i))];
    }
    if n == 1 {
      layers := layers[0 := layers[0].(length := size)];
    }
    r := Some(Meta(ClockUnset(s[13]), Get32(s[8..12]), 0, size, 0, 0, layers, s[need - SIG_LEN..need]));
    assert layers == V3From(s, max).value.layers;
  }

  /** Reads a record of either format. */
  method Decode(s: seq<byte>, max: nat) returns (r: Option<Meta>)
    ensures r == RecordFrom(s, max)
  {
    hide Get32, Get64;
    if |s| < 4 { return None; }
    if Get32(s[..4]) == MAGIC_V3 {
      r := DecodeV3(s, max);
      return;
    }
    if Get32(s[..4]) != MAGIC || |s| < HEADER_LEN { return None; }
    var n := s[5];
    if n > max { return None; }
    var need := HEADER_LEN + LAYER_LEN * n + SIG_LEN;
    if |s| < need { return None; }
    var layers: seq<Layer> := [];
    var off := HEADER_LEN;
    for i := 0 to n
      invariant |layers| == i && off == HEADER_LEN + LAYER_LEN * i
      invariant forall k: nat | k < i :: layers[k] == LayerAt(s, k)
    {
      layers := layers + [Layer(Get32(s[off..off + 4]), s[off + 4..off + LAYER_LEN])];
      off := off + LAYER_LEN;
    }
    assert layers == V4From(s, max).value.layers;
    r := Some(Meta(s[4], Get32(s[8..12]), Get32(s[12..16]), Get32(s[16..20]),
                   Get64(s[20..28]), Get64(s[28..36]), layers, s[off..off + SIG_LEN]));
  }

  // ---- Digests as text ----

  type nibble = v: int | 0 <= v < 16

  function HexDigit(v: nibble): char {
    "0123456789abcdef"[v]
  }

  /** The value of a lower-case hex digit, or -1. */
  function HexValue(c: char): (v: int)
    ensures -1 <= v < 16
    ensures v >= 0 <==> exists n: nibble :: HexDigit(n) == c
    ensures v >= 0 ==> HexDigit(v) == c
  {
    var v := if '0' <= c <= '9' then c as int - '0' as int
             else if 'a' <= c <= 'f' then c as int - 'a' as int + 10
             else -1;
    assert v >= 0 ==> HexDigit(v) == c;
    v
  }

  function HexOf(d: seq<byte>): (h: string)
    ensures |h| == 2 * |d|
  {
    if d == [] then []
    else var last := d[|d| - 1]; HexOf(d[..|d| - 1]) + [HexDigit(last / 16), HexDigit(last % 16)]
  }

  lemma {:induction false} HexOfSnoc(d: seq<byte>, b: byte)
    ensures HexOf(d + [b]) == HexOf(d) + [HexDigit(b / 16), HexDigit(b % 16)]
  {
    assert (d + [b])[..|d|] == d;
  }

  lemma {:induction false} HexOfNone()
    ensures HexOf([]) == []
  {
  }

  method DigestToHex(d: Digest) returns (hex: string)
    ensures hex == HexOf(d)
  {
    hide HexOf, HexDigit;
    hex := [];
    HexOfNone();
    assert d[..0] == [];
    for i := 0 to DIGEST_LEN
      invariant hex == HexOf(d[..i])
    {
      HexOfSnoc(d[..i], d[i]);
      assert d[..i] + [d[i]] == d[..i + 1];
      hex := hex + [HexDigit(d[i] / 16)];
      hex := hex + [HexDigit(d[i] % 16)];
    }
    assert d[..DIGEST_LEN] == d;
  }

  lemma {:induction false} HexPair(d: seq<byte>, i: nat)
    requires i < |d|
    ensures HexOf(d)[2 * i] == HexDigit(d[i] / 16) && HexOf(d)[2 * i + 1] == HexDigit(d[i] % 16)
  {
    if i < |d| - 1 {
      HexPair(d[..|d| - 1], i);
    }
  }

  lemma {:induction false} HexDigitInjective(a: nibble, b: nibble)
    requires HexDigit(a) == HexDigit(b)
    ensures a == b
  {
  }

  lemma {:induction false} NotHex(hex: string, i: nat)
    requires |hex| == HEX_LEN && i < DIGEST_LEN
    requires HexValue(hex[2 * i]) < 0 || HexValue(hex[2 * i + 1]) < 0
    ensures forall d: Digest :: HexOf(d) != hex
  {
    hide HexOf, HexDigit, HexValue;
    forall d: Digest ensures HexOf(d) != hex {
      HexPair(d, i);
    }
  }

  lemma {:induction false} HexSplit(b: byte, hi: nibble, lo: nibble)
    requires b == hi * 16 + lo
    ensures b / 16 == hi && b % 16 == lo
  {
  }

  /** Reads a digest back from text: it succeeds exactly on the text of a digest, and gives that digest. */
  method DigestFromHex(hex: string) returns (r: Option<Digest>)
    ensures r.Some? ==> HexOf(r.value) == hex
    ensures r.None? ==> forall d: Digest :: HexOf(d) != hex
  {
    hide HexDigit, HexValue;
    if |hex| != HEX_LEN { return None; }
    var out: seq<byte> := [];
    for i := 0 to DIGEST_LEN
      invariant |out| == i && HexOf(out) == hex[..2 * i]
    {
      hide HexOf;
      var hi := HexValue(hex[2 * i]);
      var lo := HexValue(hex[2 * i + 1]);
      if hi < 0 || lo < 0 {
        NotHex(hex, i);
        return None;
      }
      var b: byte := hi * 16 + lo;
      HexSplit(b, hi, lo);
      HexOfSnoc(out, b);
      out := out + [b];
      assert hex[..2 * i + 2] == hex[..2 * i] + [hex[2 * i], hex[2 * i + 1]];
    }
    assert hex[..HEX_LEN] == hex;
    r := Some(out);
  }

  /** Distinct digests have distinct texts, so reading back gives the digest written. */
  lemma {:induction false} HexInjective(a: Digest, b: Digest)
    requires HexOf(a) == HexOf(b)
    ensures a == b
  {
    forall i | 0 <= i < DIGEST_LEN ensures a[i] == b[i] {
      HexPair(a, i);
      HexPair(b, i);
      HexDigitInjective(a[i] / 16, b[i] / 16);
      HexDigitInjective(a[i] % 16, b[i] % 16);
    }
  }
}
