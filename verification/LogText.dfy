/** The text of a log: which bytes get a line stamp, and what a buffer that drops its oldest keeps. */
module LogText {
  import opened Bytes

  const NEWLINE: byte := 10
  const STAMP_MAX := 26

  // ---- Stamps ----

  function Digits(n: nat): (r: seq<byte>)
    ensures |r| > 0
  {
    (if n < 10 then [] else Digits(n / 10)) + [48 + n % 10]
  }

  /** "[+<ms>] " */
  function StampText(ms: nat): seq<byte> {
    [91, 43] + Digits(ms) + [93, 32]
  }

  /** The number decimal digits stand for. */
  function Decimal(s: seq<byte>): int {
    if s == [] then 0 else 10 * Decimal(s[..|s| - 1]) + (s[|s| - 1] as int - 48)
  }

  lemma {:induction false} DecimalSnoc(s: seq<byte>, d: byte)
    ensures Decimal(s + [d]) == 10 * (if s == [] then 0 else Decimal(s)) + d as int - 48
  {
    assert (s + [d])[..|s|] == s;
  }

  /** The digits of a time read back as it, the most significant first, with no zero before them. */
  lemma {:induction false} DigitsRead(n: nat)
    ensures Decimal(Digits(n)) == n
    ensures forall i | 0 <= i < |Digits(n)| :: 48 <= Digits(n)[i] <= 57
    ensures Digits(n)[0] == 48 ==> n == 0 && |Digits(n)| == 1
  {
    hide Decimal;
    var rest, last := n / 10, n % 10;
    if n >= 10 {
      DigitsRead(rest);
      DecimalSnoc(Digits(rest), 48 + last);
    } else {
      DecimalSnoc([], 48 + last);
    }
  }

  ghost function Pow10(k: nat): nat {
    if k == 0 then 1 else 10 * Pow10(k - 1)
  }

  lemma {:induction false} DigitCount(n: nat, k: nat)
    requires k > 0 && n < Pow10(k)
    ensures |Digits(n)| <= k
  {
    if n >= 10 {
      assert n / 10 < Pow10(k - 1);
      DigitCount(n / 10, k - 1);
    }
  }

  /** The stamp of any 64-bit time fits its buffer, so none is ever left out. */
  lemma {:induction false} StampFits(ms: nat)
    requires ms < 0x1_0000_0000_0000_0000
    ensures |StampText(ms)| < STAMP_MAX
  {
    assert Pow10(20) == 100_000_000_000_000_000_000 by {
      assert Pow10(5) == 100_000;
      assert Pow10(10) == 10_000_000_000;
      assert Pow10(15) == 1_000_000_000_000_000;
    }
    DigitCount(ms, 20);
  }

  /** Whether the bytes leave a line open, begun with `mid`. */
  function MidAfter(mid: bool, b: seq<byte>): bool {
    if b == [] then mid else b[|b| - 1] != NEWLINE
  }

  /** How many lines the bytes begin. */
  function Stamps(mid: bool, b: seq<byte>): nat
    decreases b
  {
    if b == [] then 0 else (if mid then 0 else 1) + Stamps(b[0] != NEWLINE, b[1..])
  }

  /** The bytes with a stamp before each line they begin, the stamps' times given. */
  ghost function Render(mid: bool, b: seq<byte>, times: seq<nat>): seq<byte>
    requires |times| == Stamps(mid, b)
    decreases b
  {
    if b == [] then []
    else if mid then [b[0]] + Render(b[0] != NEWLINE, b[1..], times)
    else StampText(times[0]) + [b[0]] + Render(b[0] != NEWLINE, b[1..], times[1..])
  }

  lemma {:induction false} MidAfterConcat(mid: bool, a: seq<byte>, b: seq<byte>)
    ensures MidAfter(mid, a + b) == MidAfter(MidAfter(mid, a), b)
  {
    if b == [] {
      assert a + b == a;
    }
  }

  lemma {:induction false} StampsConcat(mid: bool, a: seq<byte>, b: seq<byte>)
    ensures Stamps(mid, a + b) == Stamps(mid, a) + Stamps(MidAfter(mid, a), b)
    decreases a
  {
    if a == [] {
      assert a + b == b;
    } else {
      assert (a + b)[1..] == a[1..] + b;
      StampsConcat(a[0] != NEWLINE, a[1..], b);
    }
  }

  /** However a stream of bytes is cut in two, its lines are stamped in the same places. */
  lemma {:induction false} RenderConcat(mid: bool, a: seq<byte>, b: seq<byte>, s: seq<nat>, t: seq<nat>)
    requires |s| == Stamps(mid, a) && |t| == Stamps(MidAfter(mid, a), b)
    ensures |s + t| == Stamps(mid, a + b)
    ensures Render(mid, a + b, s + t) == Render(mid, a, s) + Render(MidAfter(mid, a), b, t)
    decreases a
  {
    hide StampText, Render, Stamps;
    StampsConcat(mid, a, b);
    if a == [] {
      NothingRendered(mid);
      assert a + b == b && s + t == t;
    } else {
      RenderCons(mid, a, s);
      var open, rest := a[0] != NEWLINE, a[1..];
      var head := if mid then [a[0]] else StampText(s[0]) + [a[0]];
      var s' := if mid then s else s[1..];
      assert (a + b)[1..] == rest + b && (if mid then s + t else (s + t)[1..]) == s' + t;
      RenderCons(mid, a + b, s + t);
      RenderConcat(open, rest, b, s', t);
      var x, y := Render(open, rest, s'), Render(MidAfter(mid, a), b, t);
      assert head + (x + y) == (head + x) + y;
    }
  }

  lemma {:induction false} NothingRendered(mid: bool)
    ensures Stamps(mid, []) == 0 && Render(mid, [], []) == []
  {
  }

  lemma {:induction false} RenderCons(mid: bool, a: seq<byte>, s: seq<nat>)
    requires a != [] && |s| == Stamps(mid, a)
    ensures mid || |s| > 0
    ensures var s' := if mid then s else s[1..];
            |s'| == Stamps(a[0] != NEWLINE, a[1..])
            && Render(mid, a, s)
               == (if mid then [a[0]] else StampText(s[0]) + [a[0]]) + Render(a[0] != NEWLINE, a[1..], s')
  {
    hide StampText;
  }

  /** Bytes of one line, begun, are kept as they are. */
  lemma {:induction false} RenderRun(b: seq<byte>)
    requires forall i | 0 <= i < |b| - 1 :: b[i] != NEWLINE
    ensures Stamps(true, b) == 0 && Render(true, b, []) == b
  {
    if b != [] {
      if |b| == 1 {
        assert b[1..] == [];
        assert Stamps(b[0] != NEWLINE, b[1..]) == 0;
      } else {
        assert b[0] != NEWLINE;
        RenderRun(b[1..]);
      }
      assert b == [b[0]] + b[1..];
    }
  }

  // ---- What is kept ----

  /** The last `cap` bytes. */
  function Last(s: seq<byte>, cap: nat): (r: seq<byte>)
    ensures |r| == if |s| <= cap then |s| else cap
  {
    if |s| <= cap then s else s[|s| - cap..]
  }

  /** Keeping the last bytes now and again later is keeping the last bytes of it all. */
  lemma {:induction false} LastLast(s: seq<byte>, p: seq<byte>, cap: nat)
    ensures Last(Last(s, cap) + p, cap) == Last(s + p, cap)
  {
  }

  lemma {:induction false} LastShort(s: seq<byte>, cap: nat)
    requires |s| <= cap
    ensures Last(s, cap) == s
  {
  }

  lemma {:induction false} DropFirst(s: seq<byte>, b: byte, cap: nat)
    requires |s| == cap > 0
    ensures Last(s + [b], cap) == s[1..] + [b]
  {
  }
}
