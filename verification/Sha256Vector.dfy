/** The constants of SHA-256 as roots of primes, and the digest FIPS 180-4 publishes for "abc", round by round. */
module Sha256Vector {
  import opened Bytes
  import opened Sha256

  const TWO_32 := 0x1_0000_0000

  // ---- The constants ----

  /** The first 64 primes, in rows of eight. */
  const PRIMES: seq<seq<nat>> := [
    [2, 3, 5, 7, 11, 13, 17, 19],
    [23, 29, 31, 37, 41, 43, 47, 53],
    [59, 61, 67, 71, 73, 79, 83, 89],
    [97, 101, 103, 107, 109, 113, 127, 131],
    [137, 139, 149, 151, 157, 163, 167, 173],
    [179, 181, 191, 193, 197, 199, 211, 223],
    [227, 229, 233, 239, 241, 251, 257, 263],
    [269, 271, 277, 281, 283, 293, 307, 311]]

  function Prime(t: nat): nat
    requires t < 64
  {
    PRIMES[t / 8][t % 8]
  }

  ghost predicate IsCubeRoot(r: nat, n: nat) {
    r * r * r <= n < (r + 1) * (r + 1) * (r + 1)
  }

  ghost predicate IsSquareRoot(r: nat, n: nat) {
    r * r <= n < (r + 1) * (r + 1)
  }

  /** The first 32 bits of the fraction of a prime's cube root. */
  ghost predicate CubeFraction(k: nat, p: nat) {
    exists r: nat :: IsCubeRoot(r, p * TWO_32 * TWO_32 * TWO_32) && k == r % TWO_32
  }

  ghost predicate SquareFraction(k: nat, p: nat) {
    exists r: nat :: IsSquareRoot(r, p * TWO_32 * TWO_32) && k == r % TWO_32
  }

  lemma {:induction false} Row0(t: nat)
    requires 0 <= t < 8
    ensures CubeFraction(Constant(t).bits as int, Prime(t))
  {
    var k, p := K[0], PRIMES[0];
    CubeWord(0x1428a2f98, 2, 0x428a2f98);
    CubeWord(0x171374491, 3, 0x71374491);
    CubeWord(0x1b5c0fbcf, 5, 0xb5c0fbcf);
    CubeWord(0x1e9b5dba5, 7, 0xe9b5dba5);
    CubeWord(0x23956c25b, 11, 0x3956c25b);
    CubeWord(0x259f111f1, 13, 0x59f111f1);
    CubeWord(0x2923f82a4, 17, 0x923f82a4);
    CubeWord(0x2ab1c5ed5, 19, 0xab1c5ed5);
  }

  lemma {:induction false} Row1(t: nat)
    requires 8 <= t < 16
    ensures CubeFraction(Constant(t).bits as int, Prime(t))
  {
    var k, p := K[1], PRIMES[1];
    CubeWord(0x2d807aa98, 23, 0xd807aa98);
    CubeWord(0x312835b01, 29, 0x12835b01);
    CubeWord(0x3243185be, 31, 0x243185be);
    CubeWord(0x3550c7dc3, 37, 0x550c7dc3);
    CubeWord(0x372be5d74, 41, 0x72be5d74);
    CubeWord(0x380deb1fe, 43, 0x80deb1fe);
    CubeWord(0x39bdc06a7, 47, 0x9bdc06a7);
    CubeWord(0x3c19bf174, 53, 0xc19bf174);
  }

  lemma {:induction false} Row2(t: nat)
    requires 16 <= t < 24
    ensures CubeFraction(Constant(t).bits as int, Prime(t))
  {
    var k, p := K[2], PRIMES[2];
    CubeWord(0x3e49b69c1, 59, 0xe49b69c1);
    CubeWord(0x3efbe4786, 61, 0xefbe4786);
    CubeWord(0x40fc19dc6, 67, 0x0fc19dc6);
    CubeWord(0x4240ca1cc, 71, 0x240ca1cc);
    CubeWord(0x42de92c6f, 73, 0x2de92c6f);
    CubeWord(0x44a7484aa, 79, 0x4a7484aa);
    CubeWord(0x45cb0a9dc, 83, 0x5cb0a9dc);
    CubeWord(0x476f988da, 89, 0x76f988da);
  }

  lemma {:induction false} Row3(t: nat)
    requires 24 <= t < 32
    ensures CubeFraction(Constant(t).bits as int, Prime(t))
  {
    var k, p := K[3], PRIMES[3];
    CubeWord(0x4983e5152, 97, 0x983e5152);
    CubeWord(0x4a831c66d, 101, 0xa831c66d);
    CubeWord(0x4b00327c8, 103, 0xb00327c8);
    CubeWord(0x4bf597fc7, 107, 0xbf597fc7);
    CubeWord(0x4c6e00bf3, 109, 0xc6e00bf3);
    CubeWord(0x4d5a79147, 113, 0xd5a79147);
    CubeWord(0x506ca6351, 127, 0x06ca6351);
    CubeWord(0x514292967, 131, 0x14292967);
  }

  lemma {:induction false} Row4(t: nat)
    requires 32 <= t < 40
    ensures CubeFraction(Constant(t).bits as int, Prime(t))
  {
    var k, p := K[4], PRIMES[4];
    CubeWord(0x527b70a85, 137, 0x27b70a85);
    CubeWord(0x52e1b2138, 139, 0x2e1b2138);
    CubeWord(0x54d2c6dfc, 149, 0x4d2c6dfc);
    CubeWord(0x553380d13, 151, 0x53380d13);
    CubeWord(0x5650a7354, 157, 0x650a7354);
    CubeWord(0x5766a0abb, 163, 0x766a0abb);
    CubeWord(0x581c2c92e, 167, 0x81c2c92e);
    CubeWord(0x592722c85, 173, 0x92722c85);
  }

  lemma {:induction false} Row5(t: nat)
    requires 40 <= t < 48
    ensures CubeFraction(Constant(t).bits as int, Prime(t))
  {
    var k, p := K[5], PRIMES[5];
    CubeWord(0x5a2bfe8a1, 179, 0xa2bfe8a1);
    CubeWord(0x5a81a664b, 181, 0xa81a664b);
    CubeWord(0x5c24b8b70, 191, 0xc24b8b70);
    CubeWord(0x5c76c51a3, 193, 0xc76c51a3);
    CubeWord(0x5d192e819, 197, 0xd192e819);
    CubeWord(0x5d6990624, 199, 0xd6990624);
    CubeWord(0x5f40e3585, 211, 0xf40e3585);
    CubeWord(0x6106aa070, 223, 0x106aa070);
  }

  lemma {:induction false} Row6(t: nat)
    requires 48 <= t < 56
    ensures CubeFraction(Constant(t).bits as int, Prime(t))
  {
    var k, p := K[6], PRIMES[6];
    CubeWord(0x619a4c116, 227, 0x19a4c116);
    CubeWord(0x61e376c08, 229, 0x1e376c08);
    CubeWord(0x62748774c, 233, 0x2748774c);
    CubeWord(0x634b0bcb5, 239, 0x34b0bcb5);
    CubeWord(0x6391c0cb3, 241, 0x391c0cb3);
    CubeWord(0x64ed8aa4a, 251, 0x4ed8aa4a);
    CubeWord(0x65b9cca4f, 257, 0x5b9cca4f);
    CubeWord(0x6682e6ff3, 263, 0x682e6ff3);
  }

  lemma {:induction false} Row7(t: nat)
    requires 56 <= t < 64
    ensures CubeFraction(Constant(t).bits as int, Prime(t))
  {
    var k, p := K[7], PRIMES[7];
    CubeWord(0x6748f82ee, 269, 0x748f82ee);
    CubeWord(0x678a5636f, 271, 0x78a5636f);
    CubeWord(0x684c87814, 277, 0x84c87814);
    CubeWord(0x68cc70208, 281, 0x8cc70208);
    CubeWord(0x690befffa, 283, 0x90befffa);
    CubeWord(0x6a4506ceb, 293, 0xa4506ceb);
    CubeWord(0x6bef9a3f7, 307, 0xbef9a3f7);
    CubeWord(0x6c67178f2, 311, 0xc67178f2);
  }

  lemma {:induction false} CubeWord(r: nat, p: nat, k: nat)
    requires IsCubeRoot(r, p * TWO_32 * TWO_32 * TWO_32) && k == r % TWO_32
    ensures CubeFraction(k, p)
  {
  }

  lemma {:induction false} SquareWord(r: nat, p: nat, k: nat)
    requires IsSquareRoot(r, p * TWO_32 * TWO_32) && k == r % TWO_32
    ensures SquareFraction(k, p)
  {
  }

  /** Section 4.2.2: each constant is the first 32 bits of the fraction of a prime's cube root. */
  lemma {:induction false} CubeRootConstants(t: nat)
    requires t < 64
    ensures CubeFraction(Constant(t).bits as int, Prime(t))
  {
    hide CubeFraction, Constant, Prime;
    if t < 8 {
      Row0(t);
    } else if t < 16 {
      Row1(t);
    } else if t < 24 {
      Row2(t);
    } else if t < 32 {
      Row3(t);
    } else if t < 40 {
      Row4(t);
    } else if t < 48 {
      Row5(t);
    } else if t < 56 {
      Row6(t);
    } else {
      Row7(t);
    }
  }

  /** Section 5.3.3: the initial hash value is the same of the square roots of the first eight. */
  lemma {:induction false} SquareRootStart(i: nat)
    requires i < 8
    ensures SquareFraction(INITIAL[i].bits as int, Prime(i))
  {
    hide SquareFraction;
    var p := PRIMES[0];
    SquareWord(0x16a09e667, 2, 0x6a09e667);
    SquareWord(0x1bb67ae85, 3, 0xbb67ae85);
    SquareWord(0x23c6ef372, 5, 0x3c6ef372);
    SquareWord(0x2a54ff53a, 7, 0xa54ff53a);
    SquareWord(0x3510e527f, 11, 0x510e527f);
    SquareWord(0x39b05688c, 13, 0x9b05688c);
    SquareWord(0x41f83d9ab, 17, 0x1f83d9ab);
    SquareWord(0x45be0cd19, 19, 0x5be0cd19);
  }

  // ---- The digest of "abc" ----

  const ABC: Octets := [0x61, 0x62, 0x63]

  /** The one block of the padded message. */
  function TheBlock(): Block {
    ABC + [0x80] + Zeros(59) + [24]
  }

  lemma {:induction false} PaddedAbc()
    ensures Padded(ABC) == TheBlock()
  {
    hide Pow256;
    assert ZeroCount(3) == 52;
    LengthOf24();
    assert LengthBytes(24) == seq(7, _ => 0) + [24];
  }

  lemma {:induction false} LengthOf24()
    ensures LengthByte(24, 0) == 24 && forall i | 0 < i < 8 :: LengthByte(24, i) == 0
  {
    hide Pow256;
    FirstPower();
    forall i | 0 < i < 8 ensures LengthByte(24, i) == 0 {
      LaterPower(i);
      Below(24, Pow256(i));
    }
  }

  lemma {:induction false} FirstPower()
    ensures Pow256(0) == 1
  {
  }

  lemma {:induction false} LaterPower(i: nat)
    requires i > 0
    ensures Pow256(i) >= 256
  {
  }

  lemma {:induction false} Below(a: nat, b: nat)
    requires a < b
    ensures a / b == 0
  {
  }

  /** The message schedule of that block, in rows of eight. */
  const WORDS: seq<seq<bv32>> := [
    [0x61626380, 0x00000000, 0x00000000, 0x00000000, 0x00000000, 0x00000000, 0x00000000, 0x00000000],
    [0x00000000, 0x00000000, 0x00000000, 0x00000000, 0x00000000, 0x00000000, 0x00000000, 0x00000018],
    [0x61626380, 0x000f0000, 0x7da86405, 0x600003c6, 0x3e9d7b78, 0x0183fc00, 0x12dcbfdb, 0xe2e2c38e],
    [0xc8215c1a, 0xb73679a2, 0xe5bc3909, 0x32663c5b, 0x9d209d67, 0xec8726cb, 0x702138a4, 0xd3b7973b],
    [0x93f5997f, 0x3b68ba73, 0xaff4ffc1, 0xf10a5c62, 0x0a8b3996, 0x72af830a, 0x9409e33e, 0x24641522],
    [0x9f47bf94, 0xf0a64f5a, 0x3e246a79, 0x27333ba3, 0x0c4763f2, 0x840abf27, 0x7a290d5d, 0x065c43da],
    [0xfb3e89cb, 0xcc7617db, 0xb9e66c34, 0xa9993667, 0x84badedd, 0xc21462bc, 0x1487472c, 0xb20f7a99],
    [0xef57b9cd, 0xebe6b238, 0x9fe3095e, 0x78bc8d4b, 0xa43fcf15, 0x668b2ff8, 0xeeaba2cc, 0x12b1edeb]]

  function WordAt(t: nat): Word
    requires t < 64
  {
    Word(WORDS[t / 8][t % 8])
  }

  /** The schedule of a block is that one up to `n`. */
  ghost predicate Scheduled(b: Block, n: nat)
    requires n <= 64
  {
    forall t | 0 <= t < n :: Schedule(b, t) == WordAt(t)
  }

  /** The table is right at `t`: each word after the sixteenth is the one the standard makes of earlier ones. */
  ghost predicate WordRight(t: nat)
    requires 16 <= t < 64
  {
    NextWord(WordAt(t - 2), WordAt(t - 7), WordAt(t - 15), WordAt(t - 16)) == WordAt(t)
  }

  lemma {:induction false} WordValues4()
    ensures NextWord(Word(0x00000000), Word(0x00000000),
                     Word(0x00000000), Word(0x61626380)) == Word(0x61626380)
    ensures NextWord(Word(0x00000018), Word(0x00000000),
                     Word(0x00000000), Word(0x00000000)) == Word(0x000f0000)
    ensures NextWord(Word(0x61626380), Word(0x00000000),
                     Word(0x00000000), Word(0x00000000)) == Word(0x7da86405)
    ensures NextWord(Word(0x000f0000), Word(0x00000000),
                     Word(0x00000000), Word(0x00000000)) == Word(0x600003c6)
  {
  }

  lemma {:induction false} Words4()
    ensures WordRight(16) && WordRight(17) && WordRight(18) && WordRight(19)
  {
    hide NextWord;
    WordValues4();
  }

  lemma {:induction false} WordValues5()
    ensures NextWord(Word(0x7da86405), Word(0x00000000),
                     Word(0x00000000), Word(0x00000000)) == Word(0x3e9d7b78)
    ensures NextWord(Word(0x600003c6), Word(0x00000000),
                     Word(0x00000000), Word(0x00000000)) == Word(0x0183fc00)
    ensures NextWord(Word(0x3e9d7b78), Word(0x00000018),
                     Word(0x00000000), Word(0x00000000)) == Word(0x12dcbfdb)
    ensures NextWord(Word(0x0183fc00), Word(0x61626380),
                     Word(0x00000000), Word(0x00000000)) == Word(0xe2e2c38e)
  {
  }

  lemma {:induction false} Words5()
    ensures WordRight(20) && WordRight(21) && WordRight(22) && WordRight(23)
  {
    hide NextWord;
    WordValues5();
  }

  lemma {:induction false} WordValues6()
    ensures NextWord(Word(0x12dcbfdb), Word(0x000f0000),
                     Word(0x00000000), Word(0x00000000)) == Word(0xc8215c1a)
    ensures NextWord(Word(0xe2e2c38e), Word(0x7da86405),
                     Word(0x00000000), Word(0x00000000)) == Word(0xb73679a2)
    ensures NextWord(Word(0xc8215c1a), Word(0x600003c6),
                     Word(0x00000000), Word(0x00000000)) == Word(0xe5bc3909)
    ensures NextWord(Word(0xb73679a2), Word(0x3e9d7b78),
                     Word(0x00000000), Word(0x00000000)) == Word(0x32663c5b)
  {
  }

  lemma {:induction false} Words6()
    ensures WordRight(24) && WordRight(25) && WordRight(26) && WordRight(27)
  {
    hide NextWord;
    WordValues6();
  }

  lemma {:induction false} WordValues7()
    ensures NextWord(Word(0xe5bc3909), Word(0x0183fc00),
                     Word(0x00000000), Word(0x00000000)) == Word(0x9d209d67)
    ensures NextWord(Word(0x32663c5b), Word(0x12dcbfdb),
                     Word(0x00000000), Word(0x00000000)) == Word(0xec8726cb)
    ensures NextWord(Word(0x9d209d67), Word(0xe2e2c38e),
                     Word(0x00000018), Word(0x00000000)) == Word(0x702138a4)
    ensures NextWord(Word(0xec8726cb), Word(0xc8215c1a),
                     Word(0x61626380), Word(0x00000018)) == Word(0xd3b7973b)
  {
  }

  lemma {:induction false} Words7()
    ensures WordRight(28) && WordRight(29) && WordRight(30) && WordRight(31)
  {
    hide NextWord;
    WordValues7();
  }

  lemma {:induction false} WordValues8()
    ensures NextWord(Word(0x702138a4), Word(0xb73679a2),
                     Word(0x000f0000), Word(0x61626380)) == Word(0x93f5997f)
    ensures NextWord(Word(0xd3b7973b), Word(0xe5bc3909),
                     Word(0x7da86405), Word(0x000f0000)) == Word(0x3b68ba73)
    ensures NextWord(Word(0x93f5997f), Word(0x32663c5b),
                     Word(0x600003c6), Word(0x7da86405)) == Word(0xaff4ffc1)
    ensures NextWord(Word(0x3b68ba73), Word(0x9d209d67),
                     Word(0x3e9d7b78), Word(0x600003c6)) == Word(0xf10a5c62)
  {
  }

  lemma {:induction false} Words8()
    ensures WordRight(32) && WordRight(33) && WordRight(34) && WordRight(35)
  {
    hide NextWord;
    WordValues8();
  }

  lemma {:induction false} WordValues9()
    ensures NextWord(Word(0xaff4ffc1), Word(0xec8726cb),
                     Word(0x0183fc00), Word(0x3e9d7b78)) == Word(0x0a8b3996)
    ensures NextWord(Word(0xf10a5c62), Word(0x702138a4),
                     Word(0x12dcbfdb), Word(0x0183fc00)) == Word(0x72af830a)
    ensures NextWord(Word(0x0a8b3996), Word(0xd3b7973b),
                     Word(0xe2e2c38e), Word(0x12dcbfdb)) == Word(0x9409e33e)
    ensures NextWord(Word(0x72af830a), Word(0x93f5997f),
                     Word(0xc8215c1a), Word(0xe2e2c38e)) == Word(0x24641522)
  {
  }

  lemma {:induction false} Words9()
    ensures WordRight(36) && WordRight(37) && WordRight(38) && WordRight(39)
  {
    hide NextWord;
    WordValues9();
  }

  lemma {:induction false} WordValues10()
    ensures NextWord(Word(0x9409e33e), Word(0x3b68ba73),
                     Word(0xb73679a2), Word(0xc8215c1a)) == Word(0x9f47bf94)
    ensures NextWord(Word(0x24641522), Word(0xaff4ffc1),
                     Word(0xe5bc3909), Word(0xb73679a2)) == Word(0xf0a64f5a)
    ensures NextWord(Word(0x9f47bf94), Word(0xf10a5c62),
                     Word(0x32663c5b), Word(0xe5bc3909)) == Word(0x3e246a79)
    ensures NextWord(Word(0xf0a64f5a), Word(0x0a8b3996),
                     Word(0x9d209d67), Word(0x32663c5b)) == Word(0x27333ba3)
  {
  }

  lemma {:induction false} Words10()
    ensures WordRight(40) && WordRight(41) && WordRight(42) && WordRight(43)
  {
    hide NextWord;
    WordValues10();
  }

  lemma {:induction false} WordValues11()
    ensures NextWord(Word(0x3e246a79), Word(0x72af830a),
                     Word(0xec8726cb), Word(0x9d209d67)) == Word(0x0c4763f2)
    ensures NextWord(Word(0x27333ba3), Word(0x9409e33e),
                     Word(0x702138a4), Word(0xec8726cb)) == Word(0x840abf27)
    ensures NextWord(Word(0x0c4763f2), Word(0x24641522),
                     Word(0xd3b7973b), Word(0x702138a4)) == Word(0x7a290d5d)
    ensures NextWord(Word(0x840abf27), Word(0x9f47bf94),
                     Word(0x93f5997f), Word(0xd3b7973b)) == Word(0x065c43da)
  {
  }

  lemma {:induction false} Words11()
    ensures WordRight(44) && WordRight(45) && WordRight(46) && WordRight(47)
  {
    hide NextWord;
    WordValues11();
  }

  lemma {:induction false} WordValues12()
    ensures NextWord(Word(0x7a290d5d), Word(0xf0a64f5a),
                     Word(0x3b68ba73), Word(0x93f5997f)) == Word(0xfb3e89cb)
    ensures NextWord(Word(0x065c43da), Word(0x3e246a79),
                     Word(0xaff4ffc1), Word(0x3b68ba73)) == Word(0xcc7617db)
    ensures NextWord(Word(0xfb3e89cb), Word(0x27333ba3),
                     Word(0xf10a5c62), Word(0xaff4ffc1)) == Word(0xb9e66c34)
    ensures NextWord(Word(0xcc7617db), Word(0x0c4763f2),
                     Word(0x0a8b3996), Word(0xf10a5c62)) == Word(0xa9993667)
  {
  }

  lemma {:induction false} Words12()
    ensures WordRight(48) && WordRight(49) && WordRight(50) && WordRight(51)
  {
    hide NextWord;
    WordValues12();
  }

  lemma {:induction false} WordValues13()
    ensures NextWord(Word(0xb9e66c34), Word(0x840abf27),
                     Word(0x72af830a), Word(0x0a8b3996)) == Word(0x84badedd)
    ensures NextWord(Word(0xa9993667), Word(0x7a290d5d),
                     Word(0x9409e33e), Word(0x72af830a)) == Word(0xc21462bc)
    ensures NextWord(Word(0x84badedd), Word(0x065c43da),
                     Word(0x24641522), Word(0x9409e33e)) == Word(0x1487472c)
    ensures NextWord(Word(0xc21462bc), Word(0xfb3e89cb),
                     Word(0x9f47bf94), Word(0x24641522)) == Word(0xb20f7a99)
  {
  }

  lemma {:induction false} Words13()
    ensures WordRight(52) && WordRight(53) && WordRight(54) && WordRight(55)
  {
    hide NextWord;
    WordValues13();
  }

  lemma {:induction false} WordValues14()
    ensures NextWord(Word(0x1487472c), Word(0xcc7617db),
                     Word(0xf0a64f5a), Word(0x9f47bf94)) == Word(0xef57b9cd)
    ensures NextWord(Word(0xb20f7a99), Word(0xb9e66c34),
                     Word(0x3e246a79), Word(0xf0a64f5a)) == Word(0xebe6b238)
    ensures NextWord(Word(0xef57b9cd), Word(0xa9993667),
                     Word(0x27333ba3), Word(0x3e246a79)) == Word(0x9fe3095e)
    ensures NextWord(Word(0xebe6b238), Word(0x84badedd),
                     Word(0x0c4763f2), Word(0x27333ba3)) == Word(0x78bc8d4b)
  {
  }

  lemma {:induction false} Words14()
    ensures WordRight(56) && WordRight(57) && WordRight(58) && WordRight(59)
  {
    hide NextWord;
    WordValues14();
  }

  lemma {:induction false} WordValues15()
    ensures NextWord(Word(0x9fe3095e), Word(0xc21462bc),
                     Word(0x840abf27), Word(0x0c4763f2)) == Word(0xa43fcf15)
    ensures NextWord(Word(0x78bc8d4b), Word(0x1487472c),
                     Word(0x7a290d5d), Word(0x840abf27)) == Word(0x668b2ff8)
    ensures NextWord(Word(0xa43fcf15), Word(0xb20f7a99),
                     Word(0x065c43da), Word(0x7a290d5d)) == Word(0xeeaba2cc)
    ensures NextWord(Word(0x668b2ff8), Word(0xef57b9cd),
                     Word(0xfb3e89cb), Word(0x065c43da)) == Word(0x12b1edeb)
  {
  }

  lemma {:induction false} Words15()
    ensures WordRight(60) && WordRight(61) && WordRight(62) && WordRight(63)
  {
    hide NextWord;
    WordValues15();
  }

  lemma {:induction false} WordsRight(t: nat)
    requires 16 <= t < 64
    ensures WordRight(t)
  {
    hide WordRight;
    if t < 20 {
      Words4();
    } else if t < 24 {
      Words5();
    } else if t < 28 {
      Words6();
    } else if t < 32 {
      Words7();
    } else if t < 36 {
      Words8();
    } else if t < 40 {
      Words9();
    } else if t < 44 {
      Words10();
    } else if t < 48 {
      Words11();
    } else if t < 52 {
      Words12();
    } else if t < 56 {
      Words13();
    } else if t < 60 {
      Words14();
    } else {
      Words15();
    }
  }

  lemma {:induction false} FirstWords(b: Block, t: nat)
    requires b == TheBlock() && t < 16
    ensures WordOf(b[4 * t], b[4 * t + 1], b[4 * t + 2], b[4 * t + 3]) == WordAt(t)
  {
    if t == 0 {
      assert WordOf(0x61, 0x62, 0x63, 0x80) == Word(0x61626380);
    } else if t == 15 {
      assert WordOf(0, 0, 0, 24) == Word(24);
    } else {
      assert WordOf(0, 0, 0, 0) == Word(0);
    }
  }

  lemma {:induction false} ScheduleIs(b: Block, n: nat)
    requires b == TheBlock() && n <= 64
    ensures Scheduled(b, n)
  {
    hide Schedule, WordAt, NextWord, WordOf;
    if n > 0 {
      ScheduleIs(b, n - 1);
      if n <= 16 {
        ScheduleStart(b, n - 1);
        FirstWords(b, n - 1);
      } else {
        ScheduleStep(b, n - 1);
        WordsRight(n - 1);
      }
    }
  }

  /** The first and the fifth working variable after each round, three initial ones before them. */
  const FIRSTS: seq<seq<bv32>> := [
    [0xa54ff53a, 0x3c6ef372, 0xbb67ae85, 0x6a09e667],
    [0x5d6aebcd, 0x5a6ad9ad, 0xc8c347a7, 0xd550f666],
    [0x04409a6a, 0x2b4209f5, 0xe5030380, 0x85a07b5f],
    [0x8e04ecb9, 0x8c87346b, 0x4798a3f4, 0xf71fc5a9],
    [0x87912990, 0xd932eb16, 0xc0645fde, 0xb0fa238e],
    [0x21da9a9b, 0xc2fbd9d1, 0xfe777bbf, 0xe1f20c33],
    [0x9dc68b63, 0xc2606d6d, 0xa7a3623f, 0xc5d53d8d],
    [0x1c2c2838, 0xcde8037d, 0xb62ec4bc, 0x77d37528],
    [0x363482c9, 0xa0060b30, 0xea992a22, 0x73b33bf5],
    [0x98e12507, 0xfe604df5, 0xa9a7738c, 0x65a0cfe4],
    [0x41a65cb1, 0x34df1604, 0x6dc57a8a, 0x79ea687a],
    [0xd6670766, 0xdf46652f, 0x17aa0dfe, 0x9d4baf93],
    [0x26628815, 0x72ab4b91, 0xa14c14b0, 0x4172328d],
    [0x05757ceb, 0xf11bfaa8, 0x7a0508a1, 0x886e7a22],
    [0x101fd28f, 0xf5702fdb, 0x3ec45cdb, 0x38cc9913],
    [0xfcd1887b, 0xc062d46f, 0xffb70472, 0xb6ae8fff],
    [0xb85e2ce9, 0x04d24d6c, 0xd39a2165, 0x506e3058]]

  const FIFTHS: seq<seq<bv32>> := [
    [0x5be0cd19, 0x1f83d9ab, 0x9b05688c, 0x510e527f],
    [0xfa2a4622, 0x78ce7989, 0xf92939eb, 0x24e00850],
    [0x43ada245, 0x714260ad, 0x9b27a401, 0x0c657a79],
    [0x32ca2d8c, 0x1cc92596, 0x436b23e8, 0x816fd6e9],
    [0x1e578218, 0x745a48de, 0x0b92f20c, 0x07590dcd],
    [0x8034229c, 0x846ee454, 0xcc899961, 0xb0638179],
    [0x8ada8930, 0xe1257970, 0x49f5114a, 0xaa47c347],
    [0x2823ef91, 0x14383d8e, 0xc74c6516, 0xedffbff8],
    [0x6112a3b7, 0xade79437, 0x0109ab3a, 0xba591112],
    [0x9cd9f5f6, 0x59249dd3, 0x085f3833, 0xf4b002d6],
    [0x0772a26b, 0xa507a53d, 0xf0781bc8, 0x1efbc0a0],
    [0x26352d63, 0x838b2711, 0xdecd4715, 0xfda24c2e],
    [0xa80f11f0, 0xb7755da1, 0xd57b94a9, 0xfecf0bc6],
    [0xbd714038, 0x6e5c390c, 0x52f1ccf7, 0x49231c1e],
    [0x529e7d00, 0x9f4787c3, 0xe50e1b4f, 0x54cb266b],
    [0x9b5e906c, 0x7e44008e, 0x6d83bfc6, 0xb21bad3d],
    [0x961f4894, 0x948d25b6, 0xfb121210, 0x5ef50f24]]

  function First(i: nat): Word
    requires i < 68
  {
    Word(FIRSTS[i / 4][i % 4])
  }

  function Fifth(i: nat): Word
    requires i < 68
  {
    Word(FIFTHS[i / 4][i % 4])
  }

  /** The working variables after `t` rounds; each round moves the others down. */
  function StateAt(t: nat): Words8
    requires t <= 64
  {
    [First(t + 3), First(t + 2), First(t + 1), First(t), Fifth(t + 3), Fifth(t + 2), Fifth(t + 1), Fifth(t)]
  }

  function Mixed(e: Word, f: Word, g: Word, h: Word, k: Word, w: Word): Word {
    Plus(Plus(Plus(Plus(h, BigSigma1(e)), Ch(e, f, g)), k), w)
  }

  function Blended(a: Word, b: Word, c: Word): Word {
    Plus(BigSigma0(a), Maj(a, b, c))
  }

  /** The tables are right at `t`: a round makes the next first and fifth variable of those before. */
  ghost predicate RoundRight(t: nat)
    requires t < 64
  {
    var m := Mixed(Fifth(t + 3), Fifth(t + 2), Fifth(t + 1), Fifth(t), Constant(t), WordAt(t));
    && Plus(m, Blended(First(t + 3), First(t + 2), First(t + 1))) == First(t + 4)
    && Plus(First(t), m) == Fifth(t + 4)
  }

  lemma {:induction false} RoundIs(t: nat)
    requires t < 64 && RoundRight(t)
    ensures Round(StateAt(t), Constant(t), WordAt(t)) == StateAt(t + 1)
  {
    hide Constant, WordAt, First, Fifth, Plus, BigSigma0, BigSigma1, Ch, Maj;
  }

  lemma {:induction false} RoundValues0()
    ensures Mixed(Word(0x510e527f), Word(0x9b05688c), Word(0x1f83d9ab), Word(0x5be0cd19),
                  Word(0x428a2f98), Word(0x61626380)) == Word(0x54da50e8)
    ensures Blended(Word(0x6a09e667), Word(0xbb67ae85), Word(0x3c6ef372)) == Word(0x08909ae5)
    ensures Plus(Word(0x54da50e8), Word(0x08909ae5)) == Word(0x5d6aebcd)
    ensures Plus(Word(0xa54ff53a), Word(0x54da50e8)) == Word(0xfa2a4622)
    ensures Mixed(Word(0xfa2a4622), Word(0x510e527f), Word(0x9b05688c), Word(0x1f83d9ab),
                  Word(0x71374491), Word(0x00000000)) == Word(0x3c5f8617)
    ensures Blended(Word(0x5d6aebcd), Word(0x6a09e667), Word(0xbb67ae85)) == Word(0x1e0b5396)
    ensures Plus(Word(0x3c5f8617), Word(0x1e0b5396)) == Word(0x5a6ad9ad)
    ensures Plus(Word(0x3c6ef372), Word(0x3c5f8617)) == Word(0x78ce7989)
  {
  }

  lemma {:induction false} RoundEntries0()
    ensures First(0) == Word(0xa54ff53a) && Fifth(0) == Word(0x5be0cd19)
    ensures First(1) == Word(0x3c6ef372) && Fifth(1) == Word(0x1f83d9ab)
    ensures First(2) == Word(0xbb67ae85) && Fifth(2) == Word(0x9b05688c)
    ensures First(3) == Word(0x6a09e667) && Fifth(3) == Word(0x510e527f)
    ensures First(4) == Word(0x5d6aebcd) && Fifth(4) == Word(0xfa2a4622)
    ensures First(5) == Word(0x5a6ad9ad) && Fifth(5) == Word(0x78ce7989)
    ensures Constant(0) == Word(0x428a2f98) && WordAt(0) == Word(0x61626380)
    ensures Constant(1) == Word(0x71374491) && WordAt(1) == Word(0x00000000)
  {
  }

  lemma {:induction false} Rounds0()
    ensures RoundRight(0) && RoundRight(1)
  {
    hide Mixed, Blended, Plus, First, Fifth, WordAt, Constant;
    RoundValues0();
    RoundEntries0();
  }

  lemma {:induction false} RoundValues1()
    ensures Mixed(Word(0x78ce7989), Word(0xfa2a4622), Word(0x510e527f), Word(0x9b05688c),
                  Word(0xb5c0fbcf), Word(0x00000000)) == Word(0x3dc18b66)
    ensures Blended(Word(0x5a6ad9ad), Word(0x5d6aebcd), Word(0x6a09e667)) == Word(0x8b01bc41)
    ensures Plus(Word(0x3dc18b66), Word(0x8b01bc41)) == Word(0xc8c347a7)
    ensures Plus(Word(0xbb67ae85), Word(0x3dc18b66)) == Word(0xf92939eb)
    ensures Mixed(Word(0xf92939eb), Word(0x78ce7989), Word(0xfa2a4622), Word(0x510e527f),
                  Word(0xe9b5dba5), Word(0x00000000)) == Word(0xbad621e9)
    ensures Blended(Word(0xc8c347a7), Word(0x5a6ad9ad), Word(0x5d6aebcd)) == Word(0x1a7ad47d)
    ensures Plus(Word(0xbad621e9), Word(0x1a7ad47d)) == Word(0xd550f666)
    ensures Plus(Word(0x6a09e667), Word(0xbad621e9)) == Word(0x24e00850)
  {
  }

  lemma {:induction false} RoundEntries1()
    ensures First(2) == Word(0xbb67ae85) && Fifth(2) == Word(0x9b05688c)
    ensures First(3) == Word(0x6a09e667) && Fifth(3) == Word(0x510e527f)
    ensures First(4) == Word(0x5d6aebcd) && Fifth(4) == Word(0xfa2a4622)
    ensures First(5) == Word(0x5a6ad9ad) && Fifth(5) == Word(0x78ce7989)
    ensures First(6) == Word(0xc8c347a7) && Fifth(6) == Word(0xf92939eb)
    ensures First(7) == Word(0xd550f666) && Fifth(7) == Word(0x24e00850)
    ensures Constant(2) == Word(0xb5c0fbcf) && WordAt(2) == Word(0x00000000)
    ensures Constant(3) == Word(0xe9b5dba5) && WordAt(3) == Word(0x00000000)
  {
  }

  lemma {:induction false} Rounds1()
    ensures RoundRight(2) && RoundRight(3)
  {
    hide Mixed, Blended, Plus, First, Fifth, WordAt, Constant;
    RoundValues1();
    RoundEntries1();
  }

  lemma {:induction false} RoundValues2()
    ensures Mixed(Word(0x24e00850), Word(0xf92939eb), Word(0x78ce7989), Word(0xfa2a4622),
                  Word(0x3956c25b), Word(0x00000000)) == Word(0xe642b678)
    ensures Blended(Word(0xd550f666), Word(0xc8c347a7), Word(0x5a6ad9ad)) == Word(0x1dfde3f2)
    ensures Plus(Word(0xe642b678), Word(0x1dfde3f2)) == Word(0x04409a6a)
    ensures Plus(Word(0x5d6aebcd), Word(0xe642b678)) == Word(0x43ada245)
    ensures Mixed(Word(0x43ada245), Word(0x24e00850), Word(0xf92939eb), Word(0x78ce7989),
                  Word(0x59f111f1), Word(0x00000000)) == Word(0x16d78700)
    ensures Blended(Word(0x04409a6a), Word(0xd550f666), Word(0xc8c347a7)) == Word(0x146a82f5)
    ensures Plus(Word(0x16d78700), Word(0x146a82f5)) == Word(0x2b4209f5)
    ensures Plus(Word(0x5a6ad9ad), Word(0x16d78700)) == Word(0x714260ad)
    ensures Mixed(Word(0x714260ad), Word(0x43ada245), Word(0x24e00850), Word(0xf92939eb),
                  Word(0x923f82a4), Word(0x00000000)) == Word(0xd2645c5a)
    ensures Blended(Word(0x2b4209f5), Word(0x04409a6a), Word(0xd550f666)) == Word(0x129ea726)
    ensures Plus(Word(0xd2645c5a), Word(0x129ea726)) == Word(0xe5030380)
    ensures Plus(Word(0xc8c347a7), Word(0xd2645c5a)) == Word(0x9b27a401)
    ensures Mixed(Word(0x9b27a401), Word(0x714260ad), Word(0x43ada245), Word(0x24e00850),
                  Word(0xab1c5ed5), Word(0x00000000)) == Word(0x37148413)
    ensures Blended(Word(0xe5030380), Word(0x2b4209f5), Word(0x04409a6a)) == Word(0x4e8bf74c)
    ensures Plus(Word(0x37148413), Word(0x4e8bf74c)) == Word(0x85a07b5f)
    ensures Plus(Word(0xd550f666), Word(0x37148413)) == Word(0x0c657a79)
  {
  }

  lemma {:induction false} RoundEntries2()
    ensures First(4) == Word(0x5d6aebcd) && Fifth(4) == Word(0xfa2a4622)
    ensures First(5) == Word(0x5a6ad9ad) && Fifth(5) == Word(0x78ce7989)
    ensures First(6) == Word(0xc8c347a7) && Fifth(6) == Word(0xf92939eb)
    ensures First(7) == Word(0xd550f666) && Fifth(7) == Word(0x24e00850)
    ensures First(8) == Word(0x04409a6a) && Fifth(8) == Word(0x43ada245)
    ensures First(9) == Word(0x2b4209f5) && Fifth(9) == Word(0x714260ad)
    ensures First(10) == Word(0xe5030380) && Fifth(10) == Word(0x9b27a401)
    ensures First(11) == Word(0x85a07b5f) && Fifth(11) == Word(0x0c657a79)
    ensures Constant(4) == Word(0x3956c25b) && WordAt(4) == Word(0x00000000)
    ensures Constant(5) == Word(0x59f111f1) && WordAt(5) == Word(0x00000000)
    ensures Constant(6) == Word(0x923f82a4) && WordAt(6) == Word(0x00000000)
    ensures Constant(7) == Word(0xab1c5ed5) && WordAt(7) == Word(0x00000000)
  {
  }

  lemma {:induction false} Rounds2()
    ensures RoundRight(4) && RoundRight(5) && RoundRight(6) && RoundRight(7)
  {
    hide Mixed, Blended, Plus, First, Fifth, WordAt, Constant;
    RoundValues2();
    RoundEntries2();
  }

  lemma {:induction false} RoundValues3()
    ensures Mixed(Word(0x0c657a79), Word(0x9b27a401), Word(0x714260ad), Word(0x43ada245),
                  Word(0xd807aa98), Word(0x00000000)) == Word(0x2e899322)
    ensures Blended(Word(0x85a07b5f), Word(0xe5030380), Word(0x2b4209f5)) == Word(0x5f7b5997)
    ensures Plus(Word(0x2e899322), Word(0x5f7b5997)) == Word(0x8e04ecb9)
    ensures Plus(Word(0x04409a6a), Word(0x2e899322)) == Word(0x32ca2d8c)
    ensures Mixed(Word(0x32ca2d8c), Word(0x0c657a79), Word(0x9b27a401), Word(0x714260ad),
                  Word(0x12835b01), Word(0x00000000)) == Word(0xf1871ba1)
    ensures Blended(Word(0x8e04ecb9), Word(0x85a07b5f), Word(0xe5030380)) == Word(0x9b0018ca)
    ensures Plus(Word(0xf1871ba1), Word(0x9b0018ca)) == Word(0x8c87346b)
    ensures Plus(Word(0x2b4209f5), Word(0xf1871ba1)) == Word(0x1cc92596)
    ensures Mixed(Word(0x1cc92596), Word(0x32ca2d8c), Word(0x0c657a79), Word(0x9b27a401),
                  Word(0x243185be), Word(0x00000000)) == Word(0x5e682068)
    ensures Blended(Word(0x8c87346b), Word(0x8e04ecb9), Word(0x85a07b5f)) == Word(0xe930838c)
    ensures Plus(Word(0x5e682068), Word(0xe930838c)) == Word(0x4798a3f4)
    ensures Plus(Word(0xe5030380), Word(0x5e682068)) == Word(0x436b23e8)
    ensures Mixed(Word(0x436b23e8), Word(0x1cc92596), Word(0x32ca2d8c), Word(0x0c657a79),
                  Word(0x550c7dc3), Word(0x00000000)) == Word(0xfbcf5b8a)
    ensures Blended(Word(0x4798a3f4), Word(0x8c87346b), Word(0x8e04ecb9)) == Word(0xfb506a1f)
    ensures Plus(Word(0xfbcf5b8a), Word(0xfb506a1f)) == Word(0xf71fc5a9)
    ensures Plus(Word(0x85a07b5f), Word(0xfbcf5b8a)) == Word(0x816fd6e9)
  {
  }

  lemma {:induction false} RoundEntries3()
    ensures First(8) == Word(0x04409a6a) && Fifth(8) == Word(0x43ada245)
    ensures First(9) == Word(0x2b4209f5) && Fifth(9) == Word(0x714260ad)
    ensures First(10) == Word(0xe5030380) && Fifth(10) == Word(0x9b27a401)
    ensures First(11) == Word(0x85a07b5f) && Fifth(11) == Word(0x0c657a79)
    ensures First(12) == Word(0x8e04ecb9) && Fifth(12) == Word(0x32ca2d8c)
    ensures First(13) == Word(0x8c87346b) && Fifth(13) == Word(0x1cc92596)
    ensures First(14) == Word(0x4798a3f4) && Fifth(14) == Word(0x436b23e8)
    ensures First(15) == Word(0xf71fc5a9) && Fifth(15) == Word(0x816fd6e9)
    ensures Constant(8) == Word(0xd807aa98) && WordAt(8) == Word(0x00000000)
    ensures Constant(9) == Word(0x12835b01) && WordAt(9) == Word(0x00000000)
    ensures Constant(10) == Word(0x243185be) && WordAt(10) == Word(0x00000000)
    ensures Constant(11) == Word(0x550c7dc3) && WordAt(11) == Word(0x00000000)
  {
  }

  lemma {:induction false} Rounds3()
    ensures RoundRight(8) && RoundRight(9) && RoundRight(10) && RoundRight(11)
  {
    hide Mixed, Blended, Plus, First, Fifth, WordAt, Constant;
    RoundValues3();
    RoundEntries3();
  }

  lemma {:induction false} RoundValues4()
    ensures Mixed(Word(0x816fd6e9), Word(0x436b23e8), Word(0x1cc92596), Word(0x32ca2d8c),
                  Word(0x72be5d74), Word(0x00000000)) == Word(0x9052955f)
    ensures Blended(Word(0xf71fc5a9), Word(0x4798a3f4), Word(0x8c87346b)) == Word(0xf73e9431)
    ensures Plus(Word(0x9052955f), Word(0xf73e9431)) == Word(0x87912990)
    ensures Plus(Word(0x8e04ecb9), Word(0x9052955f)) == Word(0x1e578218)
    ensures Mixed(Word(0x1e578218), Word(0x816fd6e9), Word(0x436b23e8), Word(0x1cc92596),
                  Word(0x80deb1fe), Word(0x00000000)) == Word(0xe7d31473)
    ensures Blended(Word(0x87912990), Word(0xf71fc5a9), Word(0x4798a3f4)) == Word(0xf15fd6a3)
    ensures Plus(Word(0xe7d31473), Word(0xf15fd6a3)) == Word(0xd932eb16)
    ensures Plus(Word(0x8c87346b), Word(0xe7d31473)) == Word(0x745a48de)
    ensures Mixed(Word(0x745a48de), Word(0x1e578218), Word(0x816fd6e9), Word(0x436b23e8),
                  Word(0x9bdc06a7), Word(0x00000000)) == Word(0xc3fa4e18)
    ensures Blended(Word(0xd932eb16), Word(0x87912990), Word(0xf71fc5a9)) == Word(0xfc6a11c6)
    ensures Plus(Word(0xc3fa4e18), Word(0xfc6a11c6)) == Word(0xc0645fde)
    ensures Plus(Word(0x4798a3f4), Word(0xc3fa4e18)) == Word(0x0b92f20c)
    ensures Mixed(Word(0x0b92f20c), Word(0x745a48de), Word(0x1e578218), Word(0x816fd6e9),
                  Word(0xc19bf174), Word(0x00000018)) == Word(0x10394824)
    ensures Blended(Word(0xc0645fde), Word(0xd932eb16), Word(0x87912990)) == Word(0xa0c0db6a)
    ensures Plus(Word(0x10394824), Word(0xa0c0db6a)) == Word(0xb0fa238e)
    ensures Plus(Word(0xf71fc5a9), Word(0x10394824)) == Word(0x07590dcd)
  {
  }

  lemma {:induction false} RoundEntries4()
    ensures First(12) == Word(0x8e04ecb9) && Fifth(12) == Word(0x32ca2d8c)
    ensures First(13) == Word(0x8c87346b) && Fifth(13) == Word(0x1cc92596)
    ensures First(14) == Word(0x4798a3f4) && Fifth(14) == Word(0x436b23e8)
    ensures First(15) == Word(0xf71fc5a9) && Fifth(15) == Word(0x816fd6e9)
    ensures First(16) == Word(0x87912990) && Fifth(16) == Word(0x1e578218)
    ensures First(17) == Word(0xd932eb16) && Fifth(17) == Word(0x745a48de)
    ensures First(18) == Word(0xc0645fde) && Fifth(18) == Word(0x0b92f20c)
    ensures First(19) == Word(0xb0fa238e) && Fifth(19) == Word(0x07590dcd)
    ensures Constant(12) == Word(0x72be5d74) && WordAt(12) == Word(0x00000000)
    ensures Constant(13) == Word(0x80deb1fe) && WordAt(13) == Word(0x00000000)
    ensures Constant(14) == Word(0x9bdc06a7) && WordAt(14) == Word(0x00000000)
    ensures Constant(15) == Word(0xc19bf174) && WordAt(15) == Word(0x00000018)
  {
  }

  lemma {:induction false} Rounds4()
    ensures RoundRight(12) && RoundRight(13) && RoundRight(14) && RoundRight(15)
  {
    hide Mixed, Blended, Plus, First, Fifth, WordAt, Constant;
    RoundValues4();
    RoundEntries4();
  }

  lemma {:induction false} RoundValues5()
    ensures Mixed(Word(0x07590dcd), Word(0x0b92f20c), Word(0x745a48de), Word(0x1e578218),
                  Word(0xe49b69c1), Word(0x61626380)) == Word(0xf8a2f90c)
    ensures Blended(Word(0xb0fa238e), Word(0xc0645fde), Word(0xd932eb16)) == Word(0x2937a18f)
    ensures Plus(Word(0xf8a2f90c), Word(0x2937a18f)) == Word(0x21da9a9b)
    ensures Plus(Word(0x87912990), Word(0xf8a2f90c)) == Word(0x8034229c)
    ensures Mixed(Word(0x8034229c), Word(0x07590dcd), Word(0x0b92f20c), Word(0x745a48de),
                  Word(0xefbe4786), Word(0x000f0000)) == Word(0xab3bf93e)
    ensures Blended(Word(0x21da9a9b), Word(0xb0fa238e), Word(0xc0645fde)) == Word(0x17bfe093)
    ensures Plus(Word(0xab3bf93e), Word(0x17bfe093)) == Word(0xc2fbd9d1)
    ensures Plus(Word(0xd932eb16), Word(0xab3bf93e)) == Word(0x846ee454)
    ensures Mixed(Word(0x846ee454), Word(0x8034229c), Word(0x07590dcd), Word(0x0b92f20c),
                  Word(0x0fc19dc6), Word(0x7da86405)) == Word(0x0c253983)
    ensures Blended(Word(0xc2fbd9d1), Word(0x21da9a9b), Word(0xb0fa238e)) == Word(0xf252423c)
    ensures Plus(Word(0x0c253983), Word(0xf252423c)) == Word(0xfe777bbf)
    ensures Plus(Word(0xc0645fde), Word(0x0c253983)) == Word(0xcc899961)
    ensures Mixed(Word(0xcc899961), Word(0x846ee454), Word(0x8034229c), Word(0x07590dcd),
                  Word(0x240ca1cc), Word(0x600003c6)) == Word(0xff695deb)
    ensures Blended(Word(0xfe777bbf), Word(0xc2fbd9d1), Word(0x21da9a9b)) == Word(0xe288ae48)
    ensures Plus(Word(0xff695deb), Word(0xe288ae48)) == Word(0xe1f20c33)
    ensures Plus(Word(0xb0fa238e), Word(0xff695deb)) == Word(0xb0638179)
  {
  }

  lemma {:induction false} RoundEntries5()
    ensures First(16) == Word(0x87912990) && Fifth(16) == Word(0x1e578218)
    ensures First(17) == Word(0xd932eb16) && Fifth(17) == Word(0x745a48de)
    ensures First(18) == Word(0xc0645fde) && Fifth(18) == Word(0x0b92f20c)
    ensures First(19) == Word(0xb0fa238e) && Fifth(19) == Word(0x07590dcd)
    ensures First(20) == Word(0x21da9a9b) && Fifth(20) == Word(0x8034229c)
    ensures First(21) == Word(0xc2fbd9d1) && Fifth(21) == Word(0x846ee454)
    ensures First(22) == Word(0xfe777bbf) && Fifth(22) == Word(0xcc899961)
    ensures First(23) == Word(0xe1f20c33) && Fifth(23) == Word(0xb0638179)
    ensures Constant(16) == Word(0xe49b69c1) && WordAt(16) == Word(0x61626380)
    ensures Constant(17) == Word(0xefbe4786) && WordAt(17) == Word(0x000f0000)
    ensures Constant(18) == Word(0x0fc19dc6) && WordAt(18) == Word(0x7da86405)
    ensures Constant(19) == Word(0x240ca1cc) && WordAt(19) == Word(0x600003c6)
  {
  }

  lemma {:induction false} Rounds5()
    ensures RoundRight(16) && RoundRight(17) && RoundRight(18) && RoundRight(19)
  {
    hide Mixed, Blended, Plus, First, Fifth, WordAt, Constant;
    RoundValues5();
    RoundEntries5();
  }

  lemma {:induction false} RoundValues6()
    ensures Mixed(Word(0xb0638179), Word(0xcc899961), Word(0x846ee454), Word(0x8034229c),
                  Word(0x2de92c6f), Word(0x3e9d7b78)) == Word(0x68ffee95)
    ensures Blended(Word(0xe1f20c33), Word(0xfe777bbf), Word(0xc2fbd9d1)) == Word(0x34c69cce)
    ensures Plus(Word(0x68ffee95), Word(0x34c69cce)) == Word(0x9dc68b63)
    ensures Plus(Word(0x21da9a9b), Word(0x68ffee95)) == Word(0x8ada8930)
    ensures Mixed(Word(0x8ada8930), Word(0xb0638179), Word(0xcc899961), Word(0x846ee454),
                  Word(0x4a7484aa), Word(0x0183fc00)) == Word(0x1e299f9f)
    ensures Blended(Word(0x9dc68b63), Word(0xe1f20c33), Word(0xfe777bbf)) == Word(0xa436cdce)
    ensures Plus(Word(0x1e299f9f), Word(0xa436cdce)) == Word(0xc2606d6d)
    ensures Plus(Word(0xc2fbd9d1), Word(0x1e299f9f)) == Word(0xe1257970)
    ensures Mixed(Word(0xe1257970), Word(0x8ada8930), Word(0xb0638179), Word(0xcc899961),
                  Word(0x5cb0a9dc), Word(0x12dcbfdb)) == Word(0x4b7d958b)
    ensures Blended(Word(0xc2606d6d), Word(0x9dc68b63), Word(0xe1f20c33)) == Word(0x5c25ccb4)
    ensures Plus(Word(0x4b7d958b), Word(0x5c25ccb4)) == Word(0xa7a3623f)
    ensures Plus(Word(0xfe777bbf), Word(0x4b7d958b)) == Word(0x49f5114a)
    ensures Mixed(Word(0x49f5114a), Word(0xe1257970), Word(0x8ada8930), Word(0xb0638179),
                  Word(0x76f988da), Word(0xe2e2c38e)) == Word(0xc855b714)
    ensures Blended(Word(0xa7a3623f), Word(0xc2606d6d), Word(0x9dc68b63)) == Word(0xfd7f8679)
    ensures Plus(Word(0xc855b714), Word(0xfd7f8679)) == Word(0xc5d53d8d)
    ensures Plus(Word(0xe1f20c33), Word(0xc855b714)) == Word(0xaa47c347)
  {
  }

  lemma {:induction false} RoundEntries6()
    ensures First(20) == Word(0x21da9a9b) && Fifth(20) == Word(0x8034229c)
    ensures First(21) == Word(0xc2fbd9d1) && Fifth(21) == Word(0x846ee454)
    ensures First(22) == Word(0xfe777bbf) && Fifth(22) == Word(0xcc899961)
    ensures First(23) == Word(0xe1f20c33) && Fifth(23) == Word(0xb0638179)
    ensures First(24) == Word(0x9dc68b63) && Fifth(24) == Word(0x8ada8930)
    ensures First(25) == Word(0xc2606d6d) && Fifth(25) == Word(0xe1257970)
    ensures First(26) == Word(0xa7a3623f) && Fifth(26) == Word(0x49f5114a)
    ensures First(27) == Word(0xc5d53d8d) && Fifth(27) == Word(0xaa47c347)
    ensures Constant(20) == Word(0x2de92c6f) && WordAt(20) == Word(0x3e9d7b78)
    ensures Constant(21) == Word(0x4a7484aa) && WordAt(21) == Word(0x0183fc00)
    ensures Constant(22) == Word(0x5cb0a9dc) && WordAt(22) == Word(0x12dcbfdb)
    ensures Constant(23) == Word(0x76f988da) && WordAt(23) == Word(0xe2e2c38e)
  {
  }

  lemma {:induction false} Rounds6()
    ensures RoundRight(20) && RoundRight(21) && RoundRight(22) && RoundRight(23)
  {
    hide Mixed, Blended, Plus, First, Fifth, WordAt, Constant;
    RoundValues6();
    RoundEntries6();
  }

  lemma {:induction false} RoundValues7()
    ensures Mixed(Word(0xaa47c347), Word(0x49f5114a), Word(0xe1257970), Word(0x8ada8930),
                  Word(0x983e5152), Word(0xc8215c1a)) == Word(0x8a5d642e)
    ensures Blended(Word(0xc5d53d8d), Word(0xa7a3623f), Word(0xc2606d6d)) == Word(0x91cec40a)
    ensures Plus(Word(0x8a5d642e), Word(0x91cec40a)) == Word(0x1c2c2838)
    ensures Plus(Word(0x9dc68b63), Word(0x8a5d642e)) == Word(0x2823ef91)
    ensures Mixed(Word(0x2823ef91), Word(0xaa47c347), Word(0x49f5114a), Word(0xe1257970),
                  Word(0xa831c66d), Word(0xb73679a2)) == Word(0x51d7d021)
    ensures Blended(Word(0x1c2c2838), Word(0xc5d53d8d), Word(0xa7a3623f)) == Word(0x7c10335c)
    ensures Plus(Word(0x51d7d021), Word(0x7c10335c)) == Word(0xcde8037d)
    ensures Plus(Word(0xc2606d6d), Word(0x51d7d021)) == Word(0x14383d8e)
    ensures Mixed(Word(0x14383d8e), Word(0x2823ef91), Word(0xaa47c347), Word(0x49f5114a),
                  Word(0xb00327c8), Word(0xe5bc3909)) == Word(0x1fa902d7)
    ensures Blended(Word(0xcde8037d), Word(0x1c2c2838), Word(0xc5d53d8d)) == Word(0x9685c1e5)
    ensures Plus(Word(0x1fa902d7), Word(0x9685c1e5)) == Word(0xb62ec4bc)
    ensures Plus(Word(0xa7a3623f), Word(0x1fa902d7)) == Word(0xc74c6516)
    ensures Mixed(Word(0xc74c6516), Word(0x14383d8e), Word(0x2823ef91), Word(0xaa47c347),
                  Word(0xbf597fc7), Word(0x32663c5b)) == Word(0x282a826b)
    ensures Blended(Word(0xb62ec4bc), Word(0xcde8037d), Word(0x1c2c2838)) == Word(0x4fa8f2bd)
    ensures Plus(Word(0x282a826b), Word(0x4fa8f2bd)) == Word(0x77d37528)
    ensures Plus(Word(0xc5d53d8d), Word(0x282a826b)) == Word(0xedffbff8)
  {
  }

  lemma {:induction false} RoundEntries7()
    ensures First(24) == Word(0x9dc68b63) && Fifth(24) == Word(0x8ada8930)
    ensures First(25) == Word(0xc2606d6d) && Fifth(25) == Word(0xe1257970)
    ensures First(26) == Word(0xa7a3623f) && Fifth(26) == Word(0x49f5114a)
    ensures First(27) == Word(0xc5d53d8d) && Fifth(27) == Word(0xaa47c347)
    ensures First(28) == Word(0x1c2c2838) && Fifth(28) == Word(0x2823ef91)
    ensures First(29) == Word(0xcde8037d) && Fifth(29) == Word(0x14383d8e)
    ensures First(30) == Word(0xb62ec4bc) && Fifth(30) == Word(0xc74c6516)
    ensures First(31) == Word(0x77d37528) && Fifth(31) == Word(0xedffbff8)
    ensures Constant(24) == Word(0x983e5152) && WordAt(24) == Word(0xc8215c1a)
    ensures Constant(25) == Word(0xa831c66d) && WordAt(25) == Word(0xb73679a2)
    ensures Constant(26) == Word(0xb00327c8) && WordAt(26) == Word(0xe5bc3909)
    ensures Constant(27) == Word(0xbf597fc7) && WordAt(27) == Word(0x32663c5b)
  {
  }

  lemma {:induction false} Rounds7()
    ensures RoundRight(24) && RoundRight(25) && RoundRight(26) && RoundRight(27)
  {
    hide Mixed, Blended, Plus, First, Fifth, WordAt, Constant;
    RoundValues7();
    RoundEntries7();
  }

  lemma {:induction false} RoundValues8()
    ensures Mixed(Word(0xedffbff8), Word(0xc74c6516), Word(0x14383d8e), Word(0x2823ef91),
                  Word(0xc6e00bf3), Word(0x9d209d67)) == Word(0x44e67b7f)
    ensures Blended(Word(0x77d37528), Word(0xb62ec4bc), Word(0xcde8037d)) == Word(0xf14e074a)
    ensures Plus(Word(0x44e67b7f), Word(0xf14e074a)) == Word(0x363482c9)
    ensures Plus(Word(0x1c2c2838), Word(0x44e67b7f)) == Word(0x6112a3b7)
    ensures Mixed(Word(0x6112a3b7), Word(0xedffbff8), Word(0xc74c6516), Word(0x14383d8e),
                  Word(0xd5a79147), Word(0xec8726cb)) == Word(0xdfff90ba)
    ensures Blended(Word(0x363482c9), Word(0x77d37528), Word(0xb62ec4bc)) == Word(0xc0067a76)
    ensures Plus(Word(0xdfff90ba), Word(0xc0067a76)) == Word(0xa0060b30)
    ensures Plus(Word(0xcde8037d), Word(0xdfff90ba)) == Word(0xade79437)
    ensures Mixed(Word(0xade79437), Word(0x6112a3b7), Word(0xedffbff8), Word(0xc74c6516),
                  Word(0x06ca6351), Word(0x702138a4)) == Word(0x4adae67e)
    ensures Blended(Word(0xa0060b30), Word(0x363482c9), Word(0x77d37528)) == Word(0x9fbe43a4)
    ensures Plus(Word(0x4adae67e), Word(0x9fbe43a4)) == Word(0xea992a22)
    ensures Plus(Word(0xb62ec4bc), Word(0x4adae67e)) == Word(0x0109ab3a)
    ensures Mixed(Word(0x0109ab3a), Word(0xade79437), Word(0x6112a3b7), Word(0xedffbff8),
                  Word(0x14292967), Word(0xd3b7973b)) == Word(0x42859bea)
    ensures Blended(Word(0xea992a22), Word(0xa0060b30), Word(0x363482c9)) == Word(0x312da00b)
    ensures Plus(Word(0x42859bea), Word(0x312da00b)) == Word(0x73b33bf5)
    ensures Plus(Word(0x77d37528), Word(0x42859bea)) == Word(0xba591112)
  {
  }

  lemma {:induction false} RoundEntries8()
    ensures First(28) == Word(0x1c2c2838) && Fifth(28) == Word(0x2823ef91)
    ensures First(29) == Word(0xcde8037d) && Fifth(29) == Word(0x14383d8e)
    ensures First(30) == Word(0xb62ec4bc) && Fifth(30) == Word(0xc74c6516)
    ensures First(31) == Word(0x77d37528) && Fifth(31) == Word(0xedffbff8)
    ensures First(32) == Word(0x363482c9) && Fifth(32) == Word(0x6112a3b7)
    ensures First(33) == Word(0xa0060b30) && Fifth(33) == Word(0xade79437)
    ensures First(34) == Word(0xea992a22) && Fifth(34) == Word(0x0109ab3a)
    ensures First(35) == Word(0x73b33bf5) && Fifth(35) == Word(0xba591112)
    ensures Constant(28) == Word(0xc6e00bf3) && WordAt(28) == Word(0x9d209d67)
    ensures Constant(29) == Word(0xd5a79147) && WordAt(29) == Word(0xec8726cb)
    ensures Constant(30) == Word(0x06ca6351) && WordAt(30) == Word(0x702138a4)
    ensures Constant(31) == Word(0x14292967) && WordAt(31) == Word(0xd3b7973b)
  {
  }

  lemma {:induction false} Rounds8()
    ensures RoundRight(28) && RoundRight(29) && RoundRight(30) && RoundRight(31)
  {
    hide Mixed, Blended, Plus, First, Fifth, WordAt, Constant;
    RoundValues8();
    RoundEntries8();
  }

  lemma {:induction false} RoundValues9()
    ensures Mixed(Word(0xba591112), Word(0x0109ab3a), Word(0xade79437), Word(0x6112a3b7),
                  Word(0x27b70a85), Word(0x93f5997f)) == Word(0x66a5732d)
    ensures Blended(Word(0x73b33bf5), Word(0xea992a22), Word(0xa0060b30)) == Word(0x323bb1da)
    ensures Plus(Word(0x66a5732d), Word(0x323bb1da)) == Word(0x98e12507)
    ensures Plus(Word(0x363482c9), Word(0x66a5732d)) == Word(0x9cd9f5f6)
    ensures Mixed(Word(0x9cd9f5f6), Word(0xba591112), Word(0x0109ab3a), Word(0xade79437),
                  Word(0x2e1b2138), Word(0x3b68ba73)) == Word(0xb91e92a3)
    ensures Blended(Word(0x98e12507), Word(0x73b33bf5), Word(0xea992a22)) == Word(0x4541bb52)
    ensures Plus(Word(0xb91e92a3), Word(0x4541bb52)) == Word(0xfe604df5)
    ensures Plus(Word(0xa0060b30), Word(0xb91e92a3)) == Word(0x59249dd3)
    ensures Mixed(Word(0x59249dd3), Word(0x9cd9f5f6), Word(0xba591112), Word(0x0109ab3a),
                  Word(0x4d2c6dfc), Word(0xaff4ffc1)) == Word(0x1dc60e11)
    ensures Blended(Word(0xfe604df5), Word(0x98e12507), Word(0x73b33bf5)) == Word(0x8be1657b)
    ensures Plus(Word(0x1dc60e11), Word(0x8be1657b)) == Word(0xa9a7738c)
    ensures Plus(Word(0xea992a22), Word(0x1dc60e11)) == Word(0x085f3833)
    ensures Mixed(Word(0x085f3833), Word(0x59249dd3), Word(0x9cd9f5f6), Word(0xba591112),
                  Word(0x53380d13), Word(0xf10a5c62)) == Word(0x80fcc6e1)
    ensures Blended(Word(0xa9a7738c), Word(0xfe604df5), Word(0x98e12507)) == Word(0xe4a40903)
    ensures Plus(Word(0x80fcc6e1), Word(0xe4a40903)) == Word(0x65a0cfe4)
    ensures Plus(Word(0x73b33bf5), Word(0x80fcc6e1)) == Word(0xf4b002d6)
  {
  }

  lemma {:induction false} RoundEntries9()
    ensures First(32) == Word(0x363482c9) && Fifth(32) == Word(0x6112a3b7)
    ensures First(33) == Word(0xa0060b30) && Fifth(33) == Word(0xade79437)
    ensures First(34) == Word(0xea992a22) && Fifth(34) == Word(0x0109ab3a)
    ensures First(35) == Word(0x73b33bf5) && Fifth(35) == Word(0xba591112)
    ensures First(36) == Word(0x98e12507) && Fifth(36) == Word(0x9cd9f5f6)
    ensures First(37) == Word(0xfe604df5) && Fifth(37) == Word(0x59249dd3)
    ensures First(38) == Word(0xa9a7738c) && Fifth(38) == Word(0x085f3833)
    ensures First(39) == Word(0x65a0cfe4) && Fifth(39) == Word(0xf4b002d6)
    ensures Constant(32) == Word(0x27b70a85) && WordAt(32) == Word(0x93f5997f)
    ensures Constant(33) == Word(0x2e1b2138) && WordAt(33) == Word(0x3b68ba73)
    ensures Constant(34) == Word(0x4d2c6dfc) && WordAt(34) == Word(0xaff4ffc1)
    ensures Constant(35) == Word(0x53380d13) && WordAt(35) == Word(0xf10a5c62)
  {
  }

  lemma {:induction false} Rounds9()
    ensures RoundRight(32) && RoundRight(33) && RoundRight(34) && RoundRight(35)
  {
    hide Mixed, Blended, Plus, First, Fifth, WordAt, Constant;
    RoundValues9();
    RoundEntries9();
  }

  lemma {:induction false} RoundValues10()
    ensures Mixed(Word(0xf4b002d6), Word(0x085f3833), Word(0x59249dd3), Word(0x9cd9f5f6),
                  Word(0x650a7354), Word(0x0a8b3996)) == Word(0x6e917d64)
    ensures Blended(Word(0x65a0cfe4), Word(0xa9a7738c), Word(0xfe604df5)) == Word(0xd314df4d)
    ensures Plus(Word(0x6e917d64), Word(0xd314df4d)) == Word(0x41a65cb1)
    ensures Plus(Word(0x98e12507), Word(0x6e917d64)) == Word(0x0772a26b)
    ensures Mixed(Word(0x0772a26b), Word(0xf4b002d6), Word(0x085f3833), Word(0x59249dd3),
                  Word(0x766a0abb), Word(0x72af830a)) == Word(0xa6a75748)
    ensures Blended(Word(0x41a65cb1), Word(0x65a0cfe4), Word(0xa9a7738c)) == Word(0x8e37bebc)
    ensures Plus(Word(0xa6a75748), Word(0x8e37bebc)) == Word(0x34df1604)
    ensures Plus(Word(0xfe604df5), Word(0xa6a75748)) == Word(0xa507a53d)
    ensures Mixed(Word(0xa507a53d), Word(0x0772a26b), Word(0xf4b002d6), Word(0x085f3833),
                  Word(0x81c2c92e), Word(0x9409e33e)) == Word(0x46d0a83c)
    ensures Blended(Word(0x34df1604), Word(0x41a65cb1), Word(0x65a0cfe4)) == Word(0x26f4d24e)
    ensures Plus(Word(0x46d0a83c), Word(0x26f4d24e)) == Word(0x6dc57a8a)
    ensures Plus(Word(0xa9a7738c), Word(0x46d0a83c)) == Word(0xf0781bc8)
    ensures Mixed(Word(0xf0781bc8), Word(0xa507a53d), Word(0x0772a26b), Word(0xf4b002d6),
                  Word(0x92722c85), Word(0x24641522)) == Word(0xb95af0bc)
    ensures Blended(Word(0x6dc57a8a), Word(0x34df1604), Word(0x41a65cb1)) == Word(0xc08f77be)
    ensures Plus(Word(0xb95af0bc), Word(0xc08f77be)) == Word(0x79ea687a)
    ensures Plus(Word(0x65a0cfe4), Word(0xb95af0bc)) == Word(0x1efbc0a0)
  {
  }

  lemma {:induction false} RoundEntries10()
    ensures First(36) == Word(0x98e12507) && Fifth(36) == Word(0x9cd9f5f6)
    ensures First(37) == Word(0xfe604df5) && Fifth(37) == Word(0x59249dd3)
    ensures First(38) == Word(0xa9a7738c) && Fifth(38) == Word(0x085f3833)
    ensures First(39) == Word(0x65a0cfe4) && Fifth(39) == Word(0xf4b002d6)
    ensures First(40) == Word(0x41a65cb1) && Fifth(40) == Word(0x0772a26b)
    ensures First(41) == Word(0x34df1604) && Fifth(41) == Word(0xa507a53d)
    ensures First(42) == Word(0x6dc57a8a) && Fifth(42) == Word(0xf0781bc8)
    ensures First(43) == Word(0x79ea687a) && Fifth(43) == Word(0x1efbc0a0)
    ensures Constant(36) == Word(0x650a7354) && WordAt(36) == Word(0x0a8b3996)
    ensures Constant(37) == Word(0x766a0abb) && WordAt(37) == Word(0x72af830a)
    ensures Constant(38) == Word(0x81c2c92e) && WordAt(38) == Word(0x9409e33e)
    ensures Constant(39) == Word(0x92722c85) && WordAt(39) == Word(0x24641522)
  {
  }

  lemma {:induction false} Rounds10()
    ensures RoundRight(36) && RoundRight(37) && RoundRight(38) && RoundRight(39)
  {
    hide Mixed, Blended, Plus, First, Fifth, WordAt, Constant;
    RoundValues10();
    RoundEntries10();
  }

  lemma {:induction false} RoundValues11()
    ensures Mixed(Word(0x1efbc0a0), Word(0xf0781bc8), Word(0xa507a53d), Word(0x0772a26b),
                  Word(0xa2bfe8a1), Word(0x9f47bf94)) == Word(0xe48ed0b2)
    ensures Blended(Word(0x79ea687a), Word(0x6dc57a8a), Word(0x34df1604)) == Word(0xf1d836b4)
    ensures Plus(Word(0xe48ed0b2), Word(0xf1d836b4)) == Word(0xd6670766)
    ensures Plus(Word(0x41a65cb1), Word(0xe48ed0b2)) == Word(0x26352d63)
    ensures Mixed(Word(0x26352d63), Word(0x1efbc0a0), Word(0xf0781bc8), Word(0xa507a53d),
                  Word(0xa81a664b), Word(0xf0a64f5a)) == Word(0x4eac110d)
    ensures Blended(Word(0xd6670766), Word(0x79ea687a), Word(0x6dc57a8a)) == Word(0x909a5422)
    ensures Plus(Word(0x4eac110d), Word(0x909a5422)) == Word(0xdf46652f)
    ensures Plus(Word(0x34df1604), Word(0x4eac110d)) == Word(0x838b2711)
    ensures Mixed(Word(0x838b2711), Word(0x26352d63), Word(0x1efbc0a0), Word(0xf0781bc8),
                  Word(0xc24b8b70), Word(0x3e246a79)) == Word(0x7107cc8b)
    ensures Blended(Word(0xdf46652f), Word(0xd6670766), Word(0x79ea687a)) == Word(0xa6a24173)
    ensures Plus(Word(0x7107cc8b), Word(0xa6a24173)) == Word(0x17aa0dfe)
    ensures Plus(Word(0x6dc57a8a), Word(0x7107cc8b)) == Word(0xdecd4715)
    ensures Mixed(Word(0xdecd4715), Word(0x838b2711), Word(0x26352d63), Word(0x1efbc0a0),
                  Word(0xc76c51a3), Word(0x27333ba3)) == Word(0x83b7e3b4)
    ensures Blended(Word(0x17aa0dfe), Word(0xdf46652f), Word(0xd6670766)) == Word(0x1993cbdf)
    ensures Plus(Word(0x83b7e3b4), Word(0x1993cbdf)) == Word(0x9d4baf93)
    ensures Plus(Word(0x79ea687a), Word(0x83b7e3b4)) == Word(0xfda24c2e)
  {
  }

  lemma {:induction false} RoundEntries11()
    ensures First(40) == Word(0x41a65cb1) && Fifth(40) == Word(0x0772a26b)
    ensures First(41) == Word(0x34df1604) && Fifth(41) == Word(0xa507a53d)
    ensures First(42) == Word(0x6dc57a8a) && Fifth(42) == Word(0xf0781bc8)
    ensures First(43) == Word(0x79ea687a) && Fifth(43) == Word(0x1efbc0a0)
    ensures First(44) == Word(0xd6670766) && Fifth(44) == Word(0x26352d63)
    ensures First(45) == Word(0xdf46652f) && Fifth(45) == Word(0x838b2711)
    ensures First(46) == Word(0x17aa0dfe) && Fifth(46) == Word(0xdecd4715)
    ensures First(47) == Word(0x9d4baf93) && Fifth(47) == Word(0xfda24c2e)
    ensures Constant(40) == Word(0xa2bfe8a1) && WordAt(40) == Word(0x9f47bf94)
    ensures Constant(41) == Word(0xa81a664b) && WordAt(41) == Word(0xf0a64f5a)
    ensures Constant(42) == Word(0xc24b8b70) && WordAt(42) == Word(0x3e246a79)
    ensures Constant(43) == Word(0xc76c51a3) && WordAt(43) == Word(0x27333ba3)
  {
  }

  lemma {:induction false} Rounds11()
    ensures RoundRight(40) && RoundRight(41) && RoundRight(42) && RoundRight(43)
  {
    hide Mixed, Blended, Plus, First, Fifth, WordAt, Constant;
    RoundValues11();
    RoundEntries11();
  }

  lemma {:induction false} RoundValues12()
    ensures Mixed(Word(0xfda24c2e), Word(0xdecd4715), Word(0x838b2711), Word(0x26352d63),
                  Word(0xd192e819), Word(0x0c4763f2)) == Word(0xd1a80a8a)
    ensures Blended(Word(0x9d4baf93), Word(0x17aa0dfe), Word(0xdf46652f)) == Word(0x54ba7d8b)
    ensures Plus(Word(0xd1a80a8a), Word(0x54ba7d8b)) == Word(0x26628815)
    ensures Plus(Word(0xd6670766), Word(0xd1a80a8a)) == Word(0xa80f11f0)
    ensures Mixed(Word(0xa80f11f0), Word(0xfda24c2e), Word(0xdecd4715), Word(0x838b2711),
                  Word(0xd6990624), Word(0x840abf27)) == Word(0xd82ef872)
    ensures Blended(Word(0x26628815), Word(0x9d4baf93), Word(0x17aa0dfe)) == Word(0x9a7c531f)
    ensures Plus(Word(0xd82ef872), Word(0x9a7c531f)) == Word(0x72ab4b91)
    ensures Plus(Word(0xdf46652f), Word(0xd82ef872)) == Word(0xb7755da1)
    ensures Mixed(Word(0xb7755da1), Word(0xa80f11f0), Word(0xfda24c2e), Word(0xdecd4715),
                  Word(0xf40e3585), Word(0x7a290d5d)) == Word(0xbdd186ab)
    ensures Blended(Word(0x72ab4b91), Word(0x26628815), Word(0x9d4baf93)) == Word(0xe37a8e05)
    ensures Plus(Word(0xbdd186ab), Word(0xe37a8e05)) == Word(0xa14c14b0)
    ensures Plus(Word(0x17aa0dfe), Word(0xbdd186ab)) == Word(0xd57b94a9)
    ensures Mixed(Word(0xd57b94a9), Word(0xb7755da1), Word(0xa80f11f0), Word(0xfda24c2e),
                  Word(0x106aa070), Word(0x065c43da)) == Word(0x61835c33)
    ensures Blended(Word(0xa14c14b0), Word(0x72ab4b91), Word(0x26628815)) == Word(0xdfeed65a)
    ensures Plus(Word(0x61835c33), Word(0xdfeed65a)) == Word(0x4172328d)
    ensures Plus(Word(0x9d4baf93), Word(0x61835c33)) == Word(0xfecf0bc6)
  {
  }

  lemma {:induction false} RoundEntries12()
    ensures First(44) == Word(0xd6670766) && Fifth(44) == Word(0x26352d63)
    ensures First(45) == Word(0xdf46652f) && Fifth(45) == Word(0x838b2711)
    ensures First(46) == Word(0x17aa0dfe) && Fifth(46) == Word(0xdecd4715)
    ensures First(47) == Word(0x9d4baf93) && Fifth(47) == Word(0xfda24c2e)
    ensures First(48) == Word(0x26628815) && Fifth(48) == Word(0xa80f11f0)
    ensures First(49) == Word(0x72ab4b91) && Fifth(49) == Word(0xb7755da1)
    ensures First(50) == Word(0xa14c14b0) && Fifth(50) == Word(0xd57b94a9)
    ensures First(51) == Word(0x4172328d) && Fifth(51) == Word(0xfecf0bc6)
    ensures Constant(44) == Word(0xd192e819) && WordAt(44) == Word(0x0c4763f2)
    ensures Constant(45) == Word(0xd6990624) && WordAt(45) == Word(0x840abf27)
    ensures Constant(46) == Word(0xf40e3585) && WordAt(46) == Word(0x7a290d5d)
    ensures Constant(47) == Word(0x106aa070) && WordAt(47) == Word(0x065c43da)
  {
  }

  lemma {:induction false} Rounds12()
    ensures RoundRight(44) && RoundRight(45) && RoundRight(46) && RoundRight(47)
  {
    hide Mixed, Blended, Plus, First, Fifth, WordAt, Constant;
    RoundValues12();
    RoundEntries12();
  }

  lemma {:induction false} RoundValues13()
    ensures Mixed(Word(0xfecf0bc6), Word(0xd57b94a9), Word(0xb7755da1), Word(0xa80f11f0),
                  Word(0x19a4c116), Word(0xfb3e89cb)) == Word(0x970eb823)
    ensures Blended(Word(0x4172328d), Word(0xa14c14b0), Word(0x72ab4b91)) == Word(0x6e66c4c8)
    ensures Plus(Word(0x970eb823), Word(0x6e66c4c8)) == Word(0x05757ceb)
    ensures Plus(Word(0x26628815), Word(0x970eb823)) == Word(0xbd714038)
    ensures Mixed(Word(0xbd714038), Word(0xfecf0bc6), Word(0xd57b94a9), Word(0xb7755da1),
                  Word(0x1e376c08), Word(0xcc7617db)) == Word(0xfbb0ed7b)
    ensures Blended(Word(0x05757ceb), Word(0x4172328d), Word(0xa14c14b0)) == Word(0xf56b0d2d)
    ensures Plus(Word(0xfbb0ed7b), Word(0xf56b0d2d)) == Word(0xf11bfaa8)
    ensures Plus(Word(0x72ab4b91), Word(0xfbb0ed7b)) == Word(0x6e5c390c)
    ensures Mixed(Word(0x6e5c390c), Word(0xbd714038), Word(0xfecf0bc6), Word(0xd57b94a9),
                  Word(0x2748774c), Word(0xb9e66c34)) == Word(0xb1a5b847)
    ensures Blended(Word(0xf11bfaa8), Word(0x05757ceb), Word(0x4172328d)) == Word(0xc85f505a)
    ensures Plus(Word(0xb1a5b847), Word(0xc85f505a)) == Word(0x7a0508a1)
    ensures Plus(Word(0xa14c14b0), Word(0xb1a5b847)) == Word(0x52f1ccf7)
    ensures Mixed(Word(0x52f1ccf7), Word(0x6e5c390c), Word(0xbd714038), Word(0xfecf0bc6),
                  Word(0x34b0bcb5), Word(0xa9993667)) == Word(0x07b0e991)
    ensures Blended(Word(0x7a0508a1), Word(0xf11bfaa8), Word(0x05757ceb)) == Word(0x80bd9091)
    ensures Plus(Word(0x07b0e991), Word(0x80bd9091)) == Word(0x886e7a22)
    ensures Plus(Word(0x4172328d), Word(0x07b0e991)) == Word(0x49231c1e)
  {
  }

  lemma {:induction false} RoundEntries13()
    ensures First(48) == Word(0x26628815) && Fifth(48) == Word(0xa80f11f0)
    ensures First(49) == Word(0x72ab4b91) && Fifth(49) == Word(0xb7755da1)
    ensures First(50) == Word(0xa14c14b0) && Fifth(50) == Word(0xd57b94a9)
    ensures First(51) == Word(0x4172328d) && Fifth(51) == Word(0xfecf0bc6)
    ensures First(52) == Word(0x05757ceb) && Fifth(52) == Word(0xbd714038)
    ensures First(53) == Word(0xf11bfaa8) && Fifth(53) == Word(0x6e5c390c)
    ensures First(54) == Word(0x7a0508a1) && Fifth(54) == Word(0x52f1ccf7)
    ensures First(55) == Word(0x886e7a22) && Fifth(55) == Word(0x49231c1e)
    ensures Constant(48) == Word(0x19a4c116) && WordAt(48) == Word(0xfb3e89cb)
    ensures Constant(49) == Word(0x1e376c08) && WordAt(49) == Word(0xcc7617db)
    ensures Constant(50) == Word(0x2748774c) && WordAt(50) == Word(0xb9e66c34)
    ensures Constant(51) == Word(0x34b0bcb5) && WordAt(51) == Word(0xa9993667)
  {
  }

  lemma {:induction false} Rounds13()
    ensures RoundRight(48) && RoundRight(49) && RoundRight(50) && RoundRight(51)
  {
    hide Mixed, Blended, Plus, First, Fifth, WordAt, Constant;
    RoundValues13();
    RoundEntries13();
  }

  lemma {:induction false} RoundValues14()
    ensures Mixed(Word(0x49231c1e), Word(0x52f1ccf7), Word(0x6e5c390c), Word(0xbd714038),
                  Word(0x391c0cb3), Word(0x84badedd)) == Word(0x4d290015)
    ensures Blended(Word(0x886e7a22), Word(0x7a0508a1), Word(0xf11bfaa8)) == Word(0xc2f6d27a)
    ensures Plus(Word(0x4d290015), Word(0xc2f6d27a)) == Word(0x101fd28f)
    ensures Plus(Word(0x05757ceb), Word(0x4d290015)) == Word(0x529e7d00)
    ensures Mixed(Word(0x529e7d00), Word(0x49231c1e), Word(0x52f1ccf7), Word(0x6e5c390c),
                  Word(0x4ed8aa4a), Word(0xc21462bc)) == Word(0xae2b8d1b)
    ensures Blended(Word(0x101fd28f), Word(0x886e7a22), Word(0x7a0508a1)) == Word(0x4744a2c0)
    ensures Plus(Word(0xae2b8d1b), Word(0x4744a2c0)) == Word(0xf5702fdb)
    ensures Plus(Word(0xf11bfaa8), Word(0xae2b8d1b)) == Word(0x9f4787c3)
    ensures Mixed(Word(0x9f4787c3), Word(0x529e7d00), Word(0x49231c1e), Word(0x52f1ccf7),
                  Word(0x5b9cca4f), Word(0x1487472c)) == Word(0x6b0912ae)
    ensures Blended(Word(0xf5702fdb), Word(0x101fd28f), Word(0x886e7a22)) == Word(0xd3bb4a2d)
    ensures Plus(Word(0x6b0912ae), Word(0xd3bb4a2d)) == Word(0x3ec45cdb)
    ensures Plus(Word(0x7a0508a1), Word(0x6b0912ae)) == Word(0xe50e1b4f)
    ensures Mixed(Word(0xe50e1b4f), Word(0x9f4787c3), Word(0x529e7d00), Word(0x49231c1e),
                  Word(0x682e6ff3), Word(0xb20f7a99)) == Word(0xcc5cac49)
    ensures Blended(Word(0x3ec45cdb), Word(0xf5702fdb), Word(0x101fd28f)) == Word(0x6c6fecca)
    ensures Plus(Word(0xcc5cac49), Word(0x6c6fecca)) == Word(0x38cc9913)
    ensures Plus(Word(0x886e7a22), Word(0xcc5cac49)) == Word(0x54cb266b)
  {
  }

  lemma {:induction false} RoundEntries14()
    ensures First(52) == Word(0x05757ceb) && Fifth(52) == Word(0xbd714038)
    ensures First(53) == Word(0xf11bfaa8) && Fifth(53) == Word(0x6e5c390c)
    ensures First(54) == Word(0x7a0508a1) && Fifth(54) == Word(0x52f1ccf7)
    ensures First(55) == Word(0x886e7a22) && Fifth(55) == Word(0x49231c1e)
    ensures First(56) == Word(0x101fd28f) && Fifth(56) == Word(0x529e7d00)
    ensures First(57) == Word(0xf5702fdb) && Fifth(57) == Word(0x9f4787c3)
    ensures First(58) == Word(0x3ec45cdb) && Fifth(58) == Word(0xe50e1b4f)
    ensures First(59) == Word(0x38cc9913) && Fifth(59) == Word(0x54cb266b)
    ensures Constant(52) == Word(0x391c0cb3) && WordAt(52) == Word(0x84badedd)
    ensures Constant(53) == Word(0x4ed8aa4a) && WordAt(53) == Word(0xc21462bc)
    ensures Constant(54) == Word(0x5b9cca4f) && WordAt(54) == Word(0x1487472c)
    ensures Constant(55) == Word(0x682e6ff3) && WordAt(55) == Word(0xb20f7a99)
  {
  }

  lemma {:induction false} Rounds14()
    ensures RoundRight(52) && RoundRight(53) && RoundRight(54) && RoundRight(55)
  {
    hide Mixed, Blended, Plus, First, Fifth, WordAt, Constant;
    RoundValues14();
    RoundEntries14();
  }

  lemma {:induction false} RoundValues15()
    ensures Mixed(Word(0x54cb266b), Word(0xe50e1b4f), Word(0x9f4787c3), Word(0x529e7d00),
                  Word(0x748f82ee), Word(0xef57b9cd)) == Word(0x8b3ebddd)
    ensures Blended(Word(0x38cc9913), Word(0x3ec45cdb), Word(0xf5702fdb)) == Word(0x7192ca9e)
    ensures Plus(Word(0x8b3ebddd), Word(0x7192ca9e)) == Word(0xfcd1887b)
    ensures Plus(Word(0x101fd28f), Word(0x8b3ebddd)) == Word(0x9b5e906c)
    ensures Mixed(Word(0x9b5e906c), Word(0x54cb266b), Word(0xe50e1b4f), Word(0x9f4787c3),
                  Word(0x78a5636f), Word(0xebe6b238)) == Word(0x88d3d0b3)
    ensures Blended(Word(0xfcd1887b), Word(0x38cc9913), Word(0x3ec45cdb)) == Word(0x378f03bc)
    ensures Plus(Word(0x88d3d0b3), Word(0x378f03bc)) == Word(0xc062d46f)
    ensures Plus(Word(0xf5702fdb), Word(0x88d3d0b3)) == Word(0x7e44008e)
    ensures Mixed(Word(0x7e44008e), Word(0x9b5e906c), Word(0x54cb266b), Word(0xe50e1b4f),
                  Word(0x84c87814), Word(0x9fe3095e)) == Word(0x2ebf62eb)
    ensures Blended(Word(0xc062d46f), Word(0xfcd1887b), Word(0x38cc9913)) == Word(0xd0f7a187)
    ensures Plus(Word(0x2ebf62eb), Word(0xd0f7a187)) == Word(0xffb70472)
    ensures Plus(Word(0x3ec45cdb), Word(0x2ebf62eb)) == Word(0x6d83bfc6)
    ensures Mixed(Word(0x6d83bfc6), Word(0x7e44008e), Word(0x9b5e906c), Word(0x54cb266b),
                  Word(0x8cc70208), Word(0x78bc8d4b)) == Word(0x794f142a)
    ensures Blended(Word(0xffb70472), Word(0xc062d46f), Word(0xfcd1887b)) == Word(0x3d5f7bd5)
    ensures Plus(Word(0x794f142a), Word(0x3d5f7bd5)) == Word(0xb6ae8fff)
    ensures Plus(Word(0x38cc9913), Word(0x794f142a)) == Word(0xb21bad3d)
  {
  }

  lemma {:induction false} RoundEntries15()
    ensures First(56) == Word(0x101fd28f) && Fifth(56) == Word(0x529e7d00)
    ensures First(57) == Word(0xf5702fdb) && Fifth(57) == Word(0x9f4787c3)
    ensures First(58) == Word(0x3ec45cdb) && Fifth(58) == Word(0xe50e1b4f)
    ensures First(59) == Word(0x38cc9913) && Fifth(59) == Word(0x54cb266b)
    ensures First(60) == Word(0xfcd1887b) && Fifth(60) == Word(0x9b5e906c)
    ensures First(61) == Word(0xc062d46f) && Fifth(61) == Word(0x7e44008e)
    ensures First(62) == Word(0xffb70472) && Fifth(62) == Word(0x6d83bfc6)
    ensures First(63) == Word(0xb6ae8fff) && Fifth(63) == Word(0xb21bad3d)
    ensures Constant(56) == Word(0x748f82ee) && WordAt(56) == Word(0xef57b9cd)
    ensures Constant(57) == Word(0x78a5636f) && WordAt(57) == Word(0xebe6b238)
    ensures Constant(58) == Word(0x84c87814) && WordAt(58) == Word(0x9fe3095e)
    ensures Constant(59) == Word(0x8cc70208) && WordAt(59) == Word(0x78bc8d4b)
  {
  }

  lemma {:induction false} Rounds15()
    ensures RoundRight(56) && RoundRight(57) && RoundRight(58) && RoundRight(59)
  {
    hide Mixed, Blended, Plus, First, Fifth, WordAt, Constant;
    RoundValues15();
    RoundEntries15();
  }

  lemma {:induction false} RoundValues16()
    ensures Mixed(Word(0xb21bad3d), Word(0x6d83bfc6), Word(0x7e44008e), Word(0x9b5e906c),
                  Word(0x90befffa), Word(0xa43fcf15)) == Word(0x994dc019)
    ensures Blended(Word(0xb6ae8fff), Word(0xffb70472), Word(0xc062d46f)) == Word(0x1f106cd0)
    ensures Plus(Word(0x994dc019), Word(0x1f106cd0)) == Word(0xb85e2ce9)
    ensures Plus(Word(0xfcd1887b), Word(0x994dc019)) == Word(0x961f4894)
    ensures Mixed(Word(0x961f4894), Word(0xb21bad3d), Word(0x6d83bfc6), Word(0x7e44008e),
                  Word(0xa4506ceb), Word(0x668b2ff8)) == Word(0xd42a5147)
    ensures Blended(Word(0xb85e2ce9), Word(0xb6ae8fff), Word(0xffb70472)) == Word(0x30a7fc25)
    ensures Plus(Word(0xd42a5147), Word(0x30a7fc25)) == Word(0x04d24d6c)
    ensures Plus(Word(0xc062d46f), Word(0xd42a5147)) == Word(0x948d25b6)
    ensures Mixed(Word(0x948d25b6), Word(0x961f4894), Word(0xb21bad3d), Word(0x6d83bfc6),
                  Word(0xbef9a3f7), Word(0xeeaba2cc)) == Word(0xfb5b0d9e)
    ensures Blended(Word(0x04d24d6c), Word(0xb85e2ce9), Word(0xb6ae8fff)) == Word(0xd83f13c7)
    ensures Plus(Word(0xfb5b0d9e), Word(0xd83f13c7)) == Word(0xd39a2165)
    ensures Plus(Word(0xffb70472), Word(0xfb5b0d9e)) == Word(0xfb121210)
    ensures Mixed(Word(0xfb121210), Word(0x948d25b6), Word(0x961f4894), Word(0xb21bad3d),
                  Word(0xc67178f2), Word(0x12b1edeb)) == Word(0xa8467f25)
    ensures Blended(Word(0xd39a2165), Word(0x04d24d6c), Word(0xb85e2ce9)) == Word(0xa827b133)
    ensures Plus(Word(0xa8467f25), Word(0xa827b133)) == Word(0x506e3058)
    ensures Plus(Word(0xb6ae8fff), Word(0xa8467f25)) == Word(0x5ef50f24)
  {
  }

  lemma {:induction false} RoundEntries16()
    ensures First(60) == Word(0xfcd1887b) && Fifth(60) == Word(0x9b5e906c)
    ensures First(61) == Word(0xc062d46f) && Fifth(61) == Word(0x7e44008e)
    ensures First(62) == Word(0xffb70472) && Fifth(62) == Word(0x6d83bfc6)
    ensures First(63) == Word(0xb6ae8fff) && Fifth(63) == Word(0xb21bad3d)
    ensures First(64) == Word(0xb85e2ce9) && Fifth(64) == Word(0x961f4894)
    ensures First(65) == Word(0x04d24d6c) && Fifth(65) == Word(0x948d25b6)
    ensures First(66) == Word(0xd39a2165) && Fifth(66) == Word(0xfb121210)
    ensures First(67) == Word(0x506e3058) && Fifth(67) == Word(0x5ef50f24)
    ensures Constant(60) == Word(0x90befffa) && WordAt(60) == Word(0xa43fcf15)
    ensures Constant(61) == Word(0xa4506ceb) && WordAt(61) == Word(0x668b2ff8)
    ensures Constant(62) == Word(0xbef9a3f7) && WordAt(62) == Word(0xeeaba2cc)
    ensures Constant(63) == Word(0xc67178f2) && WordAt(63) == Word(0x12b1edeb)
  {
  }

  lemma {:induction false} Rounds16()
    ensures RoundRight(60) && RoundRight(61) && RoundRight(62) && RoundRight(63)
  {
    hide Mixed, Blended, Plus, First, Fifth, WordAt, Constant;
    RoundValues16();
    RoundEntries16();
  }

  lemma {:induction false} RoundsRight(t: nat)
    requires t < 64
    ensures RoundRight(t)
  {
    hide RoundRight;
    if t < 2 {
      Rounds0();
    } else if t < 4 {
      Rounds1();
    } else if t < 8 {
      Rounds2();
    } else if t < 12 {
      Rounds3();
    } else if t < 16 {
      Rounds4();
    } else if t < 20 {
      Rounds5();
    } else if t < 24 {
      Rounds6();
    } else if t < 28 {
      Rounds7();
    } else if t < 32 {
      Rounds8();
    } else if t < 36 {
      Rounds9();
    } else if t < 40 {
      Rounds10();
    } else if t < 44 {
      Rounds11();
    } else if t < 48 {
      Rounds12();
    } else if t < 52 {
      Rounds13();
    } else if t < 56 {
      Rounds14();
    } else if t < 60 {
      Rounds15();
    } else {
      Rounds16();
    }
  }

  lemma {:induction false} Begun()
    ensures StateAt(0) == INITIAL
  {
  }

  lemma {:induction false} RoundsAre(b: Block, n: nat)
    requires Scheduled(b, 64) && n <= 64
    ensures Rounds(b, INITIAL, n) == StateAt(n)
  {
    hide Round, Schedule, Constant, WordAt, RoundRight, First, Fifth;
    if n > 0 {
      RoundsAre(b, n - 1);
      RoundsRight(n - 1);
      RoundIs(n - 1);
    } else {
      Begun();
    }
  }

  const DIGEST: Words8 := [Word(0xba7816bf), Word(0x8f01cfea), Word(0x414140de), Word(0x5dae2223),
                           Word(0xb00361a3), Word(0x96177a9c), Word(0xb410ff61), Word(0xf20015ad)]

  lemma {:induction false} LastSum()
    ensures forall i | 0 <= i < 8 :: Plus(INITIAL[i], StateAt(64)[i]) == DIGEST[i]
  {
    assert Plus(Word(0x6a09e667), Word(0x506e3058)) == Word(0xba7816bf);
    assert Plus(Word(0xbb67ae85), Word(0xd39a2165)) == Word(0x8f01cfea);
    assert Plus(Word(0x3c6ef372), Word(0x04d24d6c)) == Word(0x414140de);
    assert Plus(Word(0xa54ff53a), Word(0xb85e2ce9)) == Word(0x5dae2223);
    assert Plus(Word(0x510e527f), Word(0x5ef50f24)) == Word(0xb00361a3);
    assert Plus(Word(0x9b05688c), Word(0xfb121210)) == Word(0x96177a9c);
    assert Plus(Word(0x1f83d9ab), Word(0x948d25b6)) == Word(0xb410ff61);
    assert Plus(Word(0x5be0cd19), Word(0x961f4894)) == Word(0xf20015ad);
  }

  lemma {:induction false} HashOfAbc()
    ensures Absorb(Padded(ABC)) == DIGEST
  {
    hide Rounds, Padded, StateAt, Plus, TheBlock;
    PaddedAbc();
    var b := TheBlock();
    ScheduleIs(b, 64);
    RoundsAre(b, 64);
    LastSum();
    assert [] + b == b;
    AbsorbBlock([], b);
    assert Compress(INITIAL, b) == DIGEST;
  }

  lemma {:induction false} OctetsMore(h: seq<Word>, n: nat)
    requires n < |h|
    ensures Octets32(h[..n + 1]) == Octets32(h[..n]) + WordBytes(h[n])
  {
    hide WordBytes;
    assert h[..n + 1][..n] == h[..n];
  }

  lemma {:induction false} DigestBytes0()
    ensures WordBytes(Word(0xba7816bf)) == [0xba, 0x78, 0x16, 0xbf]
    ensures WordBytes(Word(0x8f01cfea)) == [0x8f, 0x01, 0xcf, 0xea]
    ensures WordBytes(Word(0x414140de)) == [0x41, 0x41, 0x40, 0xde]
    ensures WordBytes(Word(0x5dae2223)) == [0x5d, 0xae, 0x22, 0x23]
  {
  }

  lemma {:induction false} DigestBytes1()
    ensures WordBytes(Word(0xb00361a3)) == [0xb0, 0x03, 0x61, 0xa3]
    ensures WordBytes(Word(0x96177a9c)) == [0x96, 0x17, 0x7a, 0x9c]
    ensures WordBytes(Word(0xb410ff61)) == [0xb4, 0x10, 0xff, 0x61]
    ensures WordBytes(Word(0xf20015ad)) == [0xf2, 0x00, 0x15, 0xad]
  {
  }

  lemma {:induction false} Octets8(h: Words8)
    ensures Octets32(h) == WordBytes(h[0]) + WordBytes(h[1]) + WordBytes(h[2]) + WordBytes(h[3])
                           + WordBytes(h[4]) + WordBytes(h[5]) + WordBytes(h[6]) + WordBytes(h[7])
  {
    hide WordBytes, Octets32;
    NoOctets();
    assert h[..0] == [] && h[..8] == h;
    assert [] + WordBytes(h[0]) == WordBytes(h[0]);
    OctetsMore(h, 0);
    OctetsMore(h, 1);
    OctetsMore(h, 2);
    OctetsMore(h, 3);
    OctetsMore(h, 4);
    OctetsMore(h, 5);
    OctetsMore(h, 6);
    OctetsMore(h, 7);
  }

  /** The digest FIPS 180-4 publishes for "abc". */
  lemma {:induction false} DigestOfAbc()
    ensures DigestOf(ABC)
            == [0xba, 0x78, 0x16, 0xbf, 0x8f, 0x01, 0xcf, 0xea,
                0x41, 0x41, 0x40, 0xde, 0x5d, 0xae, 0x22, 0x23,
                0xb0, 0x03, 0x61, 0xa3, 0x96, 0x17, 0x7a, 0x9c,
                0xb4, 0x10, 0xff, 0x61, 0xf2, 0x00, 0x15, 0xad]
  {
    hide Absorb, Padded, WordBytes, Octets32;
    HashOfAbc();
    DigestBytes0();
    DigestBytes1();
    Octets8(DIGEST);
  }

  lemma {:induction false} NoOctets()
    ensures Octets32([]) == []
  {
  }
}
