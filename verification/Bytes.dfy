/** Bytes, fixed-width integers and digests as the stored formats see them. */
module Bytes {

  type byte = b: int | 0 <= b < 0x100
  type uint32 = v: int | 0 <= v < 0x1_0000_0000
  type int64 = v: int | -0x8000_0000_0000_0000 <= v < 0x8000_0000_0000_0000

  const DIGEST_LEN := 32

  type Digest = d: seq<byte> | |d| == 32 witness seq(32, _ => 0)

  datatype Option<+T> = None | Some(value: T)

  /** Four bytes, least significant first. */
  function Put32(v: uint32): (r: seq<byte>)
    ensures |r| == 4
  {
    [v % 0x100, v / 0x100 % 0x100, v / 0x1_0000 % 0x100, v / 0x100_0000]
  }

  function Get32(p: seq<byte>): uint32
    requires |p| == 4
  {
    (p[0] as int) + 0x100 * (p[1] as int) + 0x1_0000 * (p[2] as int) + 0x100_0000 * (p[3] as int)
  }

  /** Two's complement, eight bytes, least significant first. */
  function Put64(v: int64): (r: seq<byte>)
    ensures |r| == 8
  {
    var w := if v < 0 then v + 0x1_0000_0000_0000_0000 else v;
    Put32(w % 0x1_0000_0000) + Put32(w / 0x1_0000_0000)
  }

  function Get64(p: seq<byte>): int64
    requires |p| == 8
  {
    var w := Get32(p[..4]) + Get32(p[4..]) * 0x1_0000_0000;
    if w >= 0x8000_0000_0000_0000 then w - 0x1_0000_0000_0000_0000 else w
  }

  lemma {:induction false} Digit(v: int, q: int, r: int)
    requires v == q * 0x100 + r && 0 <= r < 0x100
    ensures v / 0x100 == q && v % 0x100 == r
  {
  }

  lemma {:induction false} DivTwice(v: int)
    requires v >= 0
    ensures v / 0x1_0000 == v / 0x100 / 0x100 && v / 0x100_0000 == v / 0x100 / 0x100 / 0x100
  {
  }

  /** The first byte stored is the least significant. */
  lemma {:induction false} LowByteFirst(v: uint32)
    ensures var r := Put32(v);
            v == (r[0] as int) + 0x100 * (r[1] as int) + 0x1_0000 * (r[2] as int) + 0x100_0000 * (r[3] as int)
  {
    Get32OfPut32(v);
  }

  /** A 64-bit time is stored the same way, a negative one as its two's complement. */
  lemma {:induction false} LowHalfFirst(v: int64)
    ensures var r := Put64(v);
            && r[..4] == Put32(v % 0x1_0000_0000)
            && r[4..] == Put32(v / 0x1_0000_0000 % 0x1_0000_0000)
  {
    hide Put32;
  }

  lemma {:induction false} Get32OfPut32(v: uint32)
    ensures Get32(Put32(v)) == v
  {
    DivTwice(v);
    var a := v / 0x100;
    var b := a / 0x100;
    assert v == a * 0x100 + v % 0x100 && a == b * 0x100 + a % 0x100 && b == b / 0x100 * 0x100 + b % 0x100;
    assert b / 0x100 < 0x100;
  }

  lemma {:induction false} Get64OfPut64(v: int64)
    ensures Get64(Put64(v)) == v
  {
    var w := if v < 0 then v + 0x1_0000_0000_0000_0000 else v;
    var p := Put64(v);
    assert p[..4] == Put32(w % 0x1_0000_0000);
    assert p[4..] == Put32(w / 0x1_0000_0000);
    Get32OfPut32(w % 0x1_0000_0000);
    Get32OfPut32(w / 0x1_0000_0000);
  }

  lemma {:induction false} Put32OfGet32(p: seq<byte>)
    requires |p| == 4
    ensures Put32(Get32(p)) == p
  {
    var c := (p[2] as int) + 0x100 * (p[3] as int);
    var b := (p[1] as int) + 0x100 * c;
    var v := Get32(p);
    Digit(v, b, p[0]);
    Digit(b, c, p[1]);
    Digit(c, p[3], p[2]);
    DivTwice(v);
  }

  lemma {:induction false} Put64OfGet64(p: seq<byte>)
    requires |p| == 8
    ensures Put64(Get64(p)) == p
  {
    hide Put32, Get32;
    Put32OfGet32(p[..4]);
    Put32OfGet32(p[4..]);
    assert p == p[..4] + p[4..];
  }
}
