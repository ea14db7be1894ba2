/** The software SHA-256, against the hash as FIPS 180-4 defines it. */
module Sha256 {
  import opened Bytes

  const BLOCK_LEN := 64
  const TWO_64 := 0x1_0000_0000_0000_0000

  /** A 32-bit word; its arithmetic wraps. */
  datatype Word = Word(bits: bv32)

  type Octets = seq<byte>
  type Words8 = s: seq<Word> | |s| == 8 witness seq(8, _ => Word(0))
  type Block = s: Octets | |s| == 64 witness seq(64, _ => 0)

  /** Section 4.2.2, in rows of eight. */
  const K: seq<seq<bv32>> := [
    [0x428a2f98, 0x71374491, 0xb5c0fbcf, 0xe9b5dba5, 0x3956c25b, 0x59f111f1, 0x923f82a4, 0xab1c5ed5],
    [0xd807aa98, 0x12835b01, 0x243185be, 0x550c7dc3, 0x72be5d74, 0x80deb1fe, 0x9bdc06a7, 0xc19bf174],
    [0xe49b69c1, 0xefbe4786, 0x0fc19dc6, 0x240ca1cc, 0x2de92c6f, 0x4a7484aa, 0x5cb0a9dc, 0x76f988da],
    [0x983e5152, 0xa831c66d, 0xb00327c8, 0xbf597fc7, 0xc6e00bf3, 0xd5a79147, 0x06ca6351, 0x14292967],
    [0x27b70a85, 0x2e1b2138, 0x4d2c6dfc, 0x53380d13, 0x650a7354, 0x766a0abb, 0x81c2c92e, 0x92722c85],
    [0xa2bfe8a1, 0xa81a664b, 0xc24b8b70, 0xc76c51a3, 0xd192e819, 0xd6990624, 0xf40e3585, 0x106aa070],
    [0x19a4c116, 0x1e376c08, 0x2748774c, 0x34b0bcb5, 0x391c0cb3, 0x4ed8aa4a, 0x5b9cca4f, 0x682e6ff3],
    [0x748f82ee, 0x78a5636f, 0x84c87814, 0x8cc70208, 0x90befffa, 0xa4506ceb, 0xbef9a3f7, 0xc67178f2]]

  /** Section 5.3.3. */
  const INITIAL: Words8 := [
    Word(0x6a09e667), Word(0xbb67ae85), Word(0x3c6ef372), Word(0xa54ff53a),
    Word(0x510e527f), Word(0x9b05688c), Word(0x1f83d9ab), Word(0x5be0cd19)]

  // ---- The functions of section 4.1.2 ----

  function Rotr(x: bv32, n: bv6): bv32
    requires 0 < n < 32
  {
    (x >> n) | (x << (32 - n))
  }

  function Ch(x: Word, y: Word, z: Word): Word {
    Word((x.bits & y.bits) ^ (!x.bits & z.bits))
  }

  function Maj(x: Word, y: Word, z: Word): Word {
    Word((x.bits & y.bits) ^ (x.bits & z.bits) ^ (y.bits & z.bits))
  }

  function BigSigma0(x: Word): Word {
    Word(Rotr(x.bits, 2) ^ Rotr(x.bits, 13) ^ Rotr(x.bits, 22))
  }

  function BigSigma1(x: Word): Word {
    Word(Rotr(x.bits, 6) ^ Rotr(x.bits, 11) ^ Rotr(x.bits, 25))
  }

  function SmallSigma0(x: Word): Word {
    Word(Rotr(x.bits, 7) ^ Rotr(x.bits, 18) ^ (x.bits >> 3))
  }

  function SmallSigma1(x: Word): Word {
    Word(Rotr(x.bits, 17) ^ Rotr(x.bits, 19) ^ (x.bits >> 10))
  }

  /** Addition modulo 2^32. */
  function Plus(x: Word, y: Word): Word {
    Word(x.bits + y.bits)
  }

  // ---- The same, bit by bit ----

  /** Bit `i` of a word, 0 the least significant. */
  predicate Bit(x: Word, i: bv6)
    requires i < 32
  {
    (x.bits >> i) & 1 == 1
  }

  /** The place a bit of a word turned right by `n` comes from. */
  function From(i: bv6, n: bv6): (j: bv6)
    requires i < 32 && n < 32
    ensures j < 32
  {
    (i + n) & 31
  }

  /** Where the first word has a one the second is chosen, elsewhere the third. */
  lemma {:induction false} ChBits(x: Word, y: Word, z: Word, i: bv6)
    requires i < 32
    ensures Bit(Ch(x, y, z), i) == if Bit(x, i) then Bit(y, i) else Bit(z, i)
  {
  }

  /** A bit is one where at least two of the three are. */
  lemma {:induction false} MajBits(x: Word, y: Word, z: Word, i: bv6)
    requires i < 32
    ensures var a, b, c := Bit(x, i), Bit(y, i), Bit(z, i);
            Bit(Maj(x, y, z), i) == ((a && b) || (a && c) || (b && c))
  {
  }

  /** Each bit is the exclusive or of the word turned right by 2, 13 and 22. */
  lemma {:induction false} BigSigma0Bits(x: Word, i: bv6)
    requires i < 32
    ensures Bit(BigSigma0(x), i) == (Bit(x, From(i, 2)) != (Bit(x, From(i, 13)) != Bit(x, From(i, 22))))
  {
  }

  /** Each bit is the exclusive or of the word turned right by 6, 11 and 25. */
  lemma {:induction false} BigSigma1Bits(x: Word, i: bv6)
    requires i < 32
    ensures Bit(BigSigma1(x), i) == (Bit(x, From(i, 6)) != (Bit(x, From(i, 11)) != Bit(x, From(i, 25))))
  {
  }

  /** Each bit is the exclusive or of the word turned right by 7 and 18 and shifted right by 3. */
  lemma {:induction false} SmallSigma0Bits(x: Word, i: bv6)
    requires i < 32
    ensures Bit(SmallSigma0(x), i)
            == (Bit(x, From(i, 7)) != (Bit(x, From(i, 18)) != (i + 3 < 32 && Bit(x, From(i, 3)))))
  {
  }

  /** Each bit is the exclusive or of the word turned right by 17 and 19 and shifted right by 10. */
  lemma {:induction false} SmallSigma1Bits(x: Word, i: bv6)
    requires i < 32
    ensures Bit(SmallSigma1(x), i)
            == (Bit(x, From(i, 17)) != (Bit(x, From(i, 19)) != (i + 10 < 32 && Bit(x, From(i, 10)))))
  {
  }

  // ---- The computation of section 6.2 ----

  /** Four bytes as a word, most significant first. */
  function WordOf(a: byte, b: byte, c: byte, d: byte): Word {
    Word(((a as bv32) << 24) | ((b as bv32) << 16) | ((c as bv32) << 8) | (d as bv32))
  }

  function WordBytes(x: Word): (r: Octets)
    ensures |r| == 4
  {
    var n := x.bits as int;
    [n / 0x100_0000 % 0x100, n / 0x1_0000 % 0x100, n / 0x100 % 0x100, n % 0x100]
  }

  function NextWord(w2: Word, w7: Word, w15: Word, w16: Word): Word {
    Plus(Plus(Plus(w16, SmallSigma0(w15)), w7), SmallSigma1(w2))
  }

  /** The message schedule. */
  function Schedule(b: Block, t: nat): Word {
    if t < 16 then WordOf(b[4 * t], b[4 * t + 1], b[4 * t + 2], b[4 * t + 3])
    else NextWord(Schedule(b, t - 2), Schedule(b, t - 7), Schedule(b, t - 15), Schedule(b, t - 16))
  }

  function Constant(t: nat): Word
    requires t < 64
  {
    Word(K[t / 8][t % 8])
  }

  function T1(v: Words8, k: Word, w: Word): Word {
    Plus(Plus(Plus(Plus(v[7], BigSigma1(v[4])), Ch(v[4], v[5], v[6])), k), w)
  }

  function T2(v: Words8): Word {
    Plus(BigSigma0(v[0]), Maj(v[0], v[1], v[2]))
  }

  function Round(v: Words8, k: Word, w: Word): Words8 {
    [Plus(T1(v, k, w), T2(v)), v[0], v[1], v[2], Plus(v[3], T1(v, k, w)), v[4], v[5], v[6]]
  }

  /** The working variables after `t` rounds. */
  function Rounds(b: Block, h: Words8, t: nat): Words8
    requires t <= 64
  {
    if t == 0 then h else Round(Rounds(b, h, t - 1), Constant(t - 1), Schedule(b, t - 1))
  }

  function Compress(h: Words8, b: Block): Words8 {
    seq(8, i requires 0 <= i < 8 => Plus(h[i], Rounds(b, h, 64)[i]))
  }

  /** The hash value after whole blocks. */
  function Absorb(m: Octets): Words8
    requires |m| % BLOCK_LEN == 0
  {
    if m == [] then INITIAL else Compress(Absorb(m[..|m| - BLOCK_LEN]), m[|m| - BLOCK_LEN..])
  }

  // ---- Padding, section 5.1.1 ----

  function Pow256(i: nat): (p: nat)
    ensures p > 0
  {
    if i == 0 then 1 else 256 * Pow256(i - 1)
  }

  function LengthByte(bits: nat, i: nat): byte {
    bits / Pow256(i) % 256
  }

  /** The bit length in eight bytes, most significant first. */
  function LengthBytes(bits: nat): (r: Octets)
    ensures |r| == 8
  {
    seq(8, j requires 0 <= j < 8 => LengthByte(bits, 7 - j))
  }

  predicate EightShort(n: nat, z: nat) {
    (n + 1 + z) % BLOCK_LEN == 56
  }

  /** How many zero bytes follow the 0x80: the fewest that leave eight short of a block. */
  function ZeroCount(n: nat): (z: nat)
    ensures EightShort(n, z) && forall k: nat | EightShort(n, k) :: z <= k
  {
    var r := n % BLOCK_LEN;
    var z := if r < 56 then 55 - r else 119 - r;
    assert n == n / BLOCK_LEN * BLOCK_LEN + r;
    z
  }

  /** The padded message; below 2^64 bits the length is not cut. */
  function Padded(m: Octets): (p: Octets)
    ensures |p| % BLOCK_LEN == 0
  {
    m + [0x80] + Zeros(ZeroCount(|m|)) + LengthBytes(8 * |m| % TWO_64)
  }

  function Octets32(h: seq<Word>): (r: Octets)
    ensures |r| == 4 * |h|
  {
    if h == [] then [] else Octets32(h[..|h| - 1]) + WordBytes(h[|h| - 1])
  }

  /** The digest of a message. */
  function DigestOf(m: Octets): (d: Octets)
    ensures |d| == 32
  {
    Octets32(Absorb(Padded(m)))
  }

  lemma {:induction false} AbsorbBlock(m: Octets, b: Block)
    requires |m| % BLOCK_LEN == 0
    ensures |m + b| % BLOCK_LEN == 0 && Absorb(m + b) == Compress(Absorb(m), b)
  {
    hide Compress;
    assert (m + b)[..|m + b| - BLOCK_LEN] == m && (m + b)[|m + b| - BLOCK_LEN..] == b;
  }

  // ---- The routines ----

  lemma {:induction false} ScheduleStep(b: Block, t: nat)
    requires t >= 16
    ensures Schedule(b, t) == NextWord(Schedule(b, t - 2), Schedule(b, t - 7), Schedule(b, t - 15), Schedule(b, t - 16))
  {
    hide WordOf, NextWord;
  }

  lemma {:induction false} ScheduleStart(b: Block, t: nat)
    requires t < 16
    ensures Schedule(b, t) == WordOf(b[4 * t], b[4 * t + 1], b[4 * t + 2], b[4 * t + 3])
  {
    hide WordOf, NextWord;
  }

  /** The schedule of a block, filled in order. */
  method FillSchedule(b: array<byte>, w: array<Word>)
    requires b.Length == BLOCK_LEN && w.Length == 64
    modifies w
    ensures forall t | 0 <= t < 64 :: w[t] == Schedule(b[..], t)
  {
    hide WordOf, NextWord, Schedule;
    for i := 0 to 16
      invariant forall t | 0 <= t < i :: w[t] == Schedule(b[..], t)
    {
      ScheduleStart(b[..], i);
      w[i] := WordOf(b[i * 4], b[i * 4 + 1], b[i * 4 + 2], b[i * 4 + 3]);
    }
    for i := 16 to 64
      invariant forall t | 0 <= t < i :: w[t] == Schedule(b[..], t)
    {
      ScheduleStep(b[..], i);
      w[i] := NextWord(w[i - 2], w[i - 7], w[i - 15], w[i - 16]);
    }
  }

  method OneRound(v: array<Word>, k: Word, w: Word)
    requires v.Length == 8
    modifies v
    ensures v[..] == Round(old(v[..]), k, w)
  {
    hide T1, T2, Plus;
    var t1 := T1(v[..], k, w);
    var t2 := T2(v[..]);
    v[7] := v[6];
    v[6] := v[5];
    v[5] := v[4];
    v[4] := Plus(v[3], t1);
    v[3] := v[2];
    v[2] := v[1];
    v[1] := v[0];
    v[0] := Plus(t1, t2);
  }

  method RunRounds(w: array<Word>, v: array<Word>, ghost b: Block)
    requires w.Length == 64 && v.Length == 8 && w != v
    requires forall t | 0 <= t < 64 :: w[t] == Schedule(b, t)
    modifies v
    ensures v[..] == Rounds(b, old(v[..]), 64)
  {
    hide Schedule, Round, Constant;
    ghost var h: Words8 := v[..];
    for i := 0 to 64
      modifies v
      invariant v[..] == Rounds(b, h, i)
    {
      assert w[i] == Schedule(b, i);
      OneRound(v, Constant(i), w[i]);
    }
  }

  class Context {
    const state: array<Word>
    const block: array<byte>
    var bitlen: nat
    var blocklen: nat

    /** Every byte given so far. */
    ghost var message: Octets

    ghost predicate Valid()
      reads this, state, block
    {
      && state.Length == 8 && block.Length == BLOCK_LEN && blocklen < BLOCK_LEN && blocklen <= |message|
      && bitlen == 8 * |message| % TWO_64
      && (|message| - blocklen) % BLOCK_LEN == 0
      && state[..] == Absorb(message[..|message| - blocklen])
      && block[..blocklen] == message[|message| - blocklen..]
    }

    constructor ()
      ensures Valid() && message == [] && fresh(state) && fresh(block)
    {
      state := new Word[8](i requires 0 <= i < 8 => INITIAL[i]);
      block := new byte[BLOCK_LEN];
      bitlen, blocklen, message := 0, 0, [];
      new;
      assert state[..] == INITIAL;
    }

    /** One block into the hash value. */
    method CompressBlock()
      requires state.Length == 8 && block.Length == BLOCK_LEN
      modifies state
      ensures state[..] == Compress(old(state[..]), block[..])
    {
      hide Rounds, Schedule, Plus;
      ghost var h: Words8 := state[..];
      var w := new Word[64];
      FillSchedule(block, w);
      var v := new Word[8];
      for i := 0 to 8
        modifies v
        invariant forall k | 0 <= k < i :: v[k] == state[k]
      {
        v[i] := state[i];
      }
      assert v[..] == h;
      RunRounds(w, v, block[..]);
      ghost var r := v[..];
      for i := 0 to 8
        modifies state
        invariant forall k | 0 <= k < i :: state[k] == Plus(h[k], r[k])
        invariant forall k | i <= k < 8 :: state[k] == h[k]
        invariant v[..] == r
      {
        state[i] := Plus(state[i], v[i]);
      }
    }

    /** The state stands for `m`: whole blocks absorbed, the rest in the block. */
    ghost predicate Pending(m: Octets)
      reads this`blocklen, state, block
    {
      && state.Length == 8 && block.Length == BLOCK_LEN && blocklen <= BLOCK_LEN && blocklen <= |m|
      && (|m| - blocklen) % BLOCK_LEN == 0
      && state[..] == Absorb(m[..|m| - blocklen])
      && block[..blocklen] == m[|m| - blocklen..]
    }

    method Fill(ghost m: Octets, bytes: Octets)
      requires Pending(m) && blocklen + |bytes| <= BLOCK_LEN
      modifies this`blocklen, block
      ensures Pending(m + bytes) && blocklen == old(blocklen) + |bytes|
    {
      hide Absorb;
      ghost var had := block[..blocklen];
      for k := 0 to |bytes|
        modifies block
        invariant block[..blocklen + k] == had + bytes[..k]
      {
        block[blocklen + k] := bytes[k];
      }
      assert bytes[..|bytes|] == bytes;
      ghost var whole := |m| - blocklen;
      blocklen := blocklen + |bytes|;
      assert (m + bytes)[..whole] == m[..whole] && (m + bytes)[whole..] == m[whole..] + bytes;
    }

    method Flush(ghost m: Octets)
      requires Pending(m) && blocklen == BLOCK_LEN
      modifies this`blocklen, state
      ensures Pending(m) && blocklen == 0
    {
      hide Absorb, Compress;
      AbsorbBlock(m[..|m| - BLOCK_LEN], block[..]);
      assert m[..|m| - BLOCK_LEN] + block[..] == m;
      CompressBlock();
      blocklen := 0;
      assert m[..|m|] == m && m[|m|..] == [];
    }

    /** Takes more of the message: only the whole of it matters, not how it is cut. */
    method Update(data: Octets)
      requires Valid()
      modifies this, state, block
      ensures Valid() && message == old(message) + data
    {
      hide Absorb, Compress;
      ghost var m0 := message;
      CountBits(|message|, |data|);
      bitlen := (bitlen + |data| * 8) % TWO_64;
      var i := 0;
      assert m0 + data[..0] == m0;
      while i < |data|
        modifies this`blocklen, state, block
        invariant 0 <= i <= |data| && blocklen < BLOCK_LEN
        invariant Pending(m0 + data[..i])
      {
        var take := if BLOCK_LEN - blocklen > |data| - i then |data| - i else BLOCK_LEN - blocklen;
        assert m0 + data[..i] + data[i..i + take] == m0 + data[..i + take];
        Fill(m0 + data[..i], data[i..i + take]);
        i := i + take;
        if blocklen == BLOCK_LEN {
          Flush(m0 + data[..i]);
        }
      }
      assert data[..|data|] == data;
      message := m0 + data;
    }

    method FillLength(ghost m: Octets)
      requires Pending(m) && blocklen == 56
      modifies this`blocklen, block
      ensures Pending(m + LengthBytes(bitlen)) && blocklen == BLOCK_LEN
    {
      hide Absorb, LengthByte;
      ghost var had := block[..56];
      for i := 0 to 8
        modifies block
        invariant block[..56] == had
        invariant forall k | BLOCK_LEN - i <= k < BLOCK_LEN :: block[k] == LengthByte(bitlen, 63 - k)
      {
        block[BLOCK_LEN - 1 - i] := LengthByte(bitlen, i);
      }
      assert block[56..] == LengthBytes(bitlen);
      ghost var whole, all := |m| - 56, m + LengthBytes(bitlen);
      blocklen := BLOCK_LEN;
      assert block[..BLOCK_LEN] == had + block[56..];
      assert all[..whole] == m[..whole] && all[whole..] == m[whole..] + LengthBytes(bitlen);
    }

    /** Pads and gives the digest of everything taken. */
    method Final() returns (out: Octets)
      requires Valid()
      modifies this, state, block
      ensures out == DigestOf(old(message))
    {
      hide Absorb, Padded, LengthBytes, Octets32, Context.Pending, Zeros;
      ghost var m := message;
      Waiting();
      PaddedIs(m, blocklen);
      Fill(m, [0x80]);
      ghost var p := m + [0x80];
      if blocklen > BLOCK_LEN - 8 {
        FillZeros(p, BLOCK_LEN - blocklen);
        p := p + Zeros(BLOCK_LEN - old(blocklen) - 1);
        Flush(p);
      }
      ghost var y := BLOCK_LEN - 8 - blocklen;
      FillZeros(p, BLOCK_LEN - 8 - blocklen);
      p := p + Zeros(y);
      FillLength(p);
      Flush(p + LengthBytes(bitlen));
      Drained(Padded(m));
      out := Emit();
    }

    lemma {:induction false} Waiting()
      requires Valid()
      ensures Pending(message)
    {
      hide Absorb;
    }

    lemma {:induction false} Drained(m: Octets)
      requires Pending(m) && blocklen == 0
      ensures |m| % BLOCK_LEN == 0 && state.Length == 8 && state[..] == Absorb(m)
    {
      hide Absorb;
      assert m[..|m|] == m;
    }

    method FillZeros(ghost m: Octets, n: nat)
      requires Pending(m) && blocklen + n <= BLOCK_LEN
      modifies this`blocklen, block
      ensures Pending(m + Zeros(n)) && blocklen == old(blocklen) + n
    {
      hide Context.Pending;
      Fill(m, Zeros(n));
    }

    method Emit() returns (out: Octets)
      requires state.Length == 8
      ensures out == Octets32(state[..])
    {
      hide WordBytes;
      out := [];
      for i := 0 to 8
        invariant out == Octets32(state[..i])
      {
        assert state[..i + 1][..i] == state[..i];
        out := out + WordBytes(state[i]);
      }
      assert state[..8] == state[..];
    }
  }

  function Zeros(n: nat): Octets {
    seq(n, _ => 0)
  }

  lemma {:induction false} CountBits(n: nat, k: nat)
    ensures (8 * n % TWO_64 + k * 8) % TWO_64 == 8 * (n + k) % TWO_64
  {
  }

  /** The zeros as the code lays them: to the end of a block that has no room for the length, then on. */
  lemma {:induction false} PaddedIs(m: Octets, r: nat)
    requires r < BLOCK_LEN && r <= |m| && (|m| - r) % BLOCK_LEN == 0
    ensures var p, bits := m + [0x80], 8 * |m| % TWO_64;
            Padded(m) == if r < 56 then p + Zeros(55 - r) + LengthBytes(bits)
                         else p + Zeros(63 - r) + Zeros(56) + LengthBytes(bits)
  {
    hide LengthBytes;
    assert |m| % BLOCK_LEN == r;
    if r >= 56 {
      assert Zeros(63 - r) + Zeros(56) == Zeros(119 - r);
      assert m + [0x80] + Zeros(63 - r) + Zeros(56) == m + [0x80] + Zeros(119 - r);
    }
  }
}
