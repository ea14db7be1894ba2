/** Ring buffers: a fixed buffer, the index of the oldest element and how many there are. */
module Ring {
  import opened Arith

  /** The slot `i` places after `head`. */
  function Slot(head: nat, i: nat, n: nat): nat
    requires head < n && i <= n
  {
    if head + i < n then head + i else head + i - n
  }

  lemma {:induction false} SlotIsMod(head: nat, i: nat, n: nat)
    requires head < n && i <= n
    ensures (head + i) % n == Slot(head, i, n)
  {
    var a := head + i;
    var q := a / n;
    assert a == q * n + a % n;
    if q >= 2 {
      MulMono(2, q, n);
    }
    assert q == 0 || q == 1;
  }

  lemma {:induction false} SlotInside(head: nat, i: nat, n: nat)
    requires head < n && i <= n
    ensures Slot(head, i, n) < n
  {
  }

  lemma {:induction false} SlotRound(head: nat, n: nat)
    requires head < n
    ensures Slot(head, n, n) == head && Slot(head, 1, n) < n
  {
  }

  /** The elements, oldest first. */
  ghost function View<T>(buf: seq<T>, head: nat, count: nat): (s: seq<T>)
    requires head < |buf| && count <= |buf|
    ensures |s| == count
    ensures forall i | 0 <= i < count :: s[i] == buf[Slot(head, i, |buf|)]
  {
    seq(count, i requires 0 <= i < count => buf[Slot(head, i, |buf|)])
  }

  lemma {:induction false} Popped<T>(buf: seq<T>, head: nat, count: nat)
    requires head < |buf| && 0 < count <= |buf|
    ensures View(buf, head, count)[0] == buf[head]
    ensures View(buf, Slot(head, 1, |buf|), count - 1) == View(buf, head, count)[1..]
  {
  }

  lemma {:induction false} Pushed<T>(buf: seq<T>, head: nat, count: nat, x: T)
    requires head < |buf| && count < |buf|
    ensures View(buf[Slot(head, count, |buf|) := x], head, count + 1) == View(buf, head, count) + [x]
  {
  }

  /** Writing over the oldest of a full ring. */
  lemma {:induction false} Overwrote<T>(buf: seq<T>, head: nat, x: T)
    requires head < |buf|
    ensures View(buf[head := x], Slot(head, 1, |buf|), |buf|) == View(buf, head, |buf|)[1..] + [x]
  {
  }
}
