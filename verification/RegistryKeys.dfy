/** Entry keys, their order, and the sorted listings. */
module RegistryKeys {

  datatype Key = Key(name: string, version: string)

  /** Strings as they sort, character by character. */
  predicate TextBefore(a: string, b: string)
    decreases |a|
  {
    if b == [] then false
    else if a == [] then true
    else if a[0] != b[0] then a[0] < b[0]
    else TextBefore(a[1..], b[1..])
  }

  /** Keys as they sort: by name, then by version. */
  predicate Before(a: Key, b: Key) {
    if a.name != b.name then TextBefore(a.name, b.name) else TextBefore(a.version, b.version)
  }

  /** The texts agree up to `i`, where the first ends or has the lesser character. */
  ghost predicate PartsAt(a: string, b: string, i: nat) {
    && i <= |a| && i <= |b| && a[..i] == b[..i]
    && ((i == |a| && i < |b|) || (i < |a| && i < |b| && a[i] < b[i]))
  }

  /** A text sorts before another exactly when, past what they share, it ends or goes on with a lesser character. */
  lemma {:induction false} TextBeforeIff(a: string, b: string)
    ensures TextBefore(a, b) <==> exists i: nat :: PartsAt(a, b, i)
    decreases |a|
  {
    if b != [] && a != [] && a[0] == b[0] {
      var a', b' := a[1..], b[1..];
      TextBeforeIff(a', b');
      if i: nat :| PartsAt(a', b', i) {
        assert a[..i + 1] == [a[0]] + a'[..i] && b[..i + 1] == [b[0]] + b'[..i];
        assert PartsAt(a, b, i + 1);
      }
      if i: nat :| PartsAt(a, b, i) {
        assert i > 0;
        assert a'[..i - 1] == a[..i][1..] && b'[..i - 1] == b[..i][1..];
        assert PartsAt(a', b', i - 1);
      }
    } else {
      if TextBefore(a, b) {
        assert PartsAt(a, b, 0);
      }
      if i: nat :| PartsAt(a, b, i) {
        assert i > 0 ==> a[..i][0] == b[..i][0];
      }
    }
  }

  /** Keys sort by name, and those of one name by version. */
  lemma {:induction false} BeforeIff(a: Key, b: Key)
    ensures Before(a, b) <==>
              || (exists i: nat :: PartsAt(a.name, b.name, i))
              || (a.name == b.name && exists i: nat :: PartsAt(a.version, b.version, i))
  {
    hide TextBefore, PartsAt;
    TextBeforeIff(a.name, b.name);
    TextBeforeIff(a.version, b.version);
    TextOrder(a.name, b.name);
  }

  lemma {:induction false} TextOrder(a: string, b: string)
    ensures !TextBefore(a, a)
    ensures a != b ==> TextBefore(a, b) || TextBefore(b, a)
    ensures !(TextBefore(a, b) && TextBefore(b, a))
    decreases |a|
  {
    if a != [] {
      TextOrder(a[1..], if b == [] then [] else b[1..]);
      if b != [] && a[0] == b[0] && a[1..] == b[1..] {
        assert a == [a[0]] + a[1..] && b == [b[0]] + b[1..];
      }
    }
  }

  lemma {:induction false} TextTransitive(a: string, b: string, c: string)
    requires TextBefore(a, b) && TextBefore(b, c)
    ensures TextBefore(a, c)
    decreases |a|
  {
    if a != [] && a[0] == b[0] && b[0] == c[0] {
      TextTransitive(a[1..], b[1..], c[1..]);
    }
  }

  lemma {:induction false} KeyOrder(a: Key, b: Key)
    ensures !Before(a, a)
    ensures a != b ==> Before(a, b) || Before(b, a)
    ensures !(Before(a, b) && Before(b, a))
  {
    TextOrder(a.name, b.name);
    TextOrder(a.version, b.version);
    TextOrder(a.version, a.version);
  }

  lemma {:induction false} KeyTransitive(a: Key, b: Key, c: Key)
    requires Before(a, b) && Before(b, c)
    ensures Before(a, c)
  {
    hide TextBefore;
    if a.name != b.name && b.name != c.name {
      TextTransitive(a.name, b.name, c.name);
      TextOrder(a.name, b.name);
    } else if a.name == b.name && b.name == c.name {
      TextTransitive(a.version, b.version, c.version);
    }
  }

  predicate Sorted(s: seq<Key>) {
    forall i, j | 0 <= i < j < |s| :: !Before(s[j], s[i])
  }

  predicate Distinct(s: seq<Key>) {
    forall i, j | 0 <= i < j < |s| :: s[i] != s[j]
  }

  /** A sorted listing of a set is the only one. */
  lemma {:induction false} SortedUnique(s: seq<Key>, t: seq<Key>)
    requires Sorted(s) && Distinct(s) && Sorted(t) && Distinct(t)
    requires forall k :: k in s <==> k in t
    ensures s == t
    decreases |s|
  {
    hide Before;
    if t != [] {
      assert t[0] in t && t[0] in s;
    }
    if s != [] {
      assert s[0] in s && s[0] in t && t != [];
      var i :| 0 <= i < |t| && t[i] == s[0];
      var j :| 0 <= j < |s| && s[j] == t[0];
      KeyOrder(s[0], t[0]);
      assert s[0] == t[0];
      var s', t' := s[1..], t[1..];
      forall k ensures k in s' <==> k in t' {
        Tail(s, k);
        Tail(t, k);
      }
      SortedUnique(s', t');
      assert s == [s[0]] + s' && t == [t[0]] + t';
    }
  }

  lemma {:induction false} Tail(s: seq<Key>, k: Key)
    requires s != [] && Distinct(s)
    ensures k in s[1..] <==> k in s && k != s[0]
  {
    if k in s && k != s[0] {
      var i :| 0 <= i < |s| && s[i] == k;
      assert s[1..][i - 1] == k;
    }
    if k in s[1..] {
      var i :| 0 <= i < |s| - 1 && s[1..][i] == k;
      assert s[i + 1] == k;
    }
  }

  // ---- The insertion sort ----

  /** Moves keys that belong after `k` up by one, and gives where it goes. */
  method MakeRoom(a: array<Key>, i: nat, k: Key) returns (j: nat)
    requires i < a.Length && Sorted(a[..i])
    modifies a
    ensures j <= i && Shifted(old(a[..]), a[..], j, i)
    ensures forall t | 0 <= t < j :: !Before(k, old(a[t]))
    ensures forall t | j <= t < i :: Before(k, old(a[t]))
  {
    hide Before, Sorted, Shifted;
    ghost var s := a[..];
    j := i;
    ShiftNone(s, i);
    while j > 0 && Before(k, a[j - 1])
      invariant 0 <= j <= i && Shifted(s, a[..], j, i)
      invariant forall t | j <= t < i :: Before(k, s[t])
    {
      ShiftMore(s, a[..], j, i);
      a[j] := a[j - 1];
      j := j - 1;
    }
    if j > 0 {
      ShiftMore(s, a[..], j, i);
      forall t | 0 <= t < j ensures !Before(k, s[t]) {
        NotAfter(s[..i], t, j - 1, k);
      }
    }
  }

  /** The keys from `j` to `i` have moved up by one, leaving `j` free. */
  ghost predicate Shifted(s: seq<Key>, t: seq<Key>, j: nat, i: nat) {
    && |s| == |t| && j <= i < |s|
    && (forall x | 0 <= x < |s| && (x < j || i < x) :: t[x] == s[x])
    && (forall x | j < x <= i :: t[x] == s[x - 1])
  }

  lemma {:induction false} ShiftNone(s: seq<Key>, i: nat)
    requires i < |s|
    ensures Shifted(s, s, i, i)
  {
  }

  lemma {:induction false} ShiftMore(s: seq<Key>, t: seq<Key>, j: nat, i: nat)
    requires Shifted(s, t, j, i) && 0 < j <= i < |s| == |t|
    ensures t[j - 1] == s[j - 1] && Shifted(s, t[j := t[j - 1]], j - 1, i)
  {
  }

  lemma {:induction false} NotAfter(s: seq<Key>, t: nat, j: nat, k: Key)
    requires Sorted(s) && t <= j < |s| && !Before(k, s[j])
    ensures !Before(k, s[t])
  {
    hide Before;
    if t < j && Before(k, s[t]) {
      KeyOrder(s[t], s[j]);
      if s[t] != s[j] {
        KeyTransitive(k, s[t], s[j]);
      }
    }
  }

  lemma {:induction false} Inserted(s: seq<Key>, j: nat, k: Key)
    requires Sorted(s) && j <= |s|
    requires forall t | 0 <= t < j :: !Before(k, s[t])
    requires forall t | j <= t < |s| :: Before(k, s[t])
    ensures Sorted(s[..j] + [k] + s[j..])
    ensures multiset(s[..j] + [k] + s[j..]) == multiset(s + [k])
  {
    hide Before;
    var r := s[..j] + [k] + s[j..];
    forall x, y | 0 <= x < y < |r| ensures !Before(r[y], r[x]) {
      if x == j {
        KeyOrder(k, s[y - 1]);
      }
    }
    assert s == s[..j] + s[j..];
  }

  lemma {:induction false} RoomFilled(s: seq<Key>, t: seq<Key>, j: nat, i: nat, k: Key)
    requires j <= i < |s| == |t| && t[j] == k && Shifted(s, t, j, i)
    ensures t[..i + 1] == s[..i][..j] + [k] + s[..i][j..] && t[i + 1..] == s[i + 1..]
  {
  }

  method InsertKey(a: array<Key>, i: nat)
    requires i < a.Length && Sorted(a[..i])
    modifies a
    ensures Sorted(a[..i + 1]) && multiset(a[..i + 1]) == old(multiset(a[..i + 1]))
    ensures a[i + 1..] == old(a[i + 1..])
  {
    hide Before, Sorted;
    var k := a[i];
    ghost var had := a[..i];
    assert a[..i + 1] == had + [k];
    ghost var s := a[..];
    var j := MakeRoom(a, i, k);
    a[j] := k;
    RoomFilled(s, a[..], j, i, k);
    Inserted(had, j, k);
  }

  /** Sorts the first `n` keys in place. */
  method SortKeys(a: array<Key>, n: nat)
    requires n <= a.Length
    modifies a
    ensures Sorted(a[..n]) && multiset(a[..n]) == old(multiset(a[..n]))
  {
    hide Before, Sorted;
    ghost var s := a[..];
    if n == 0 {
      Single(a[..n]);
      return;
    }
    Single(a[..1]);
    for i := 1 to n
      invariant Sorted(a[..i]) && multiset(a[..i]) == multiset(s[..i])
      invariant a[i..] == s[i..]
    {
      assert a[i] == a[i..][0] == s[i];
      assert a[..i + 1] == a[..i] + [s[i]] && s[..i + 1] == s[..i] + [s[i]];
      assert a[i + 1..] == a[i..][1..] && s[i + 1..] == s[i..][1..];
      InsertKey(a, i);
    }
  }

  lemma {:induction false} Single(s: seq<Key>)
    requires |s| <= 1
    ensures Sorted(s)
  {
  }

  lemma {:induction false} DistinctOnce(s: seq<Key>, k: Key)
    requires Distinct(s)
    ensures multiset(s)[k] <= 1
  {
    if s != [] {
      var n := |s| - 1;
      DistinctOnce(s[..n], k);
      assert s == s[..n] + [s[n]];
      if k == s[n] {
        assert k !in s[..n];
      }
    }
  }

  lemma {:induction false} CountPair(s: seq<Key>, i: nat, j: nat)
    requires i < j < |s|
    ensures multiset(s)[s[i]] >= if s[i] == s[j] then 2 else 1
  {
    var a, b := s[..j], s[j..];
    assert s == a + b;
    assert a[i] in multiset(a) && b[0] in multiset(b);
    assert multiset(s) == multiset(a) + multiset(b);
  }

  lemma {:induction false} OnceDistinct(s: seq<Key>)
    requires forall k :: multiset(s)[k] <= 1
    ensures Distinct(s)
  {
    forall i, j | 0 <= i < j < |s| ensures s[i] != s[j] {
      CountPair(s, i, j);
    }
  }

  /** A rearranged listing lists the same keys, each once. */
  lemma {:induction false} Rearranged(s: seq<Key>, t: seq<Key>)
    requires multiset(s) == multiset(t) && Distinct(s)
    ensures Distinct(t) && |t| == |s| && forall k :: k in t <==> k in s
  {
    hide Distinct;
    forall k ensures multiset(t)[k] <= 1 {
      DistinctOnce(s, k);
    }
    OnceDistinct(t);
    assert |multiset(s)| == |s| && |multiset(t)| == |t|;
    forall k ensures k in t <==> k in s {
      assert k in multiset(t) <==> k in multiset(s);
    }
  }
}
