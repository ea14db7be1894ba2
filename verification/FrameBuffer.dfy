/** A screen, its flushed copy, and the observers that keep up with it through rings of damage. */
module FrameBuffer {
  import opened Arith
  import opened Bytes
  import opened FrameLayout
  import opened Ring

  // ---- Flushing ----

  /** `before` with the bytes of the rectangle taken from `live`. */
  ghost function Copied(f: Format, before: seq<byte>, live: seq<byte>, r: Rect): (s: seq<byte>)
    requires f.Ok() && |before| == |live|
    ensures |s| == |before|
    ensures forall k | 0 <= k < |s| :: s[k] == if f.InBytes(r, k) then live[k] else before[k]
  {
    seq(|before|, k requires 0 <= k < |before| => if f.InBytes(r, k) then live[k] else before[k])
  }

  ghost predicate Within(r: Rect, x: nat, y: nat) {
    r.x <= x < r.x + r.w && r.y <= y < r.y + r.h
  }

  /** Copying the rectangle shows every live pixel of it and leaves every other pixel. */
  ghost predicate ShowsExactly(f: Format, before: seq<byte>, live: seq<byte>, r: Rect)
    requires f.Ok() && |before| == |live| == f.Size()
  {
    forall x, y | 0 <= x < f.width && 0 <= y < f.height ::
      f.Pixel(Copied(f, before, live, r), x, y)
      == if Within(r, x, y) then f.Pixel(live, x, y) else f.Pixel(before, x, y)
  }

  lemma {:induction false} AlignedShows(f: Format, before: seq<byte>, live: seq<byte>, r: Rect)
    requires f.Ok() && |before| == |live| == f.Size() && f.Inside(r) && f.Aligned(r)
    ensures ShowsExactly(f, before, live, r)
  {
    var after := Copied(f, before, live, r);
    forall x, y | 0 <= x < f.width && 0 <= y < f.height
      ensures f.Pixel(after, x, y) == if Within(r, x, y) then f.Pixel(live, x, y) else f.Pixel(before, x, y)
    {
      hide f.RowBytes, f.Stride, f.PixelByte, f.Pixel, f.Aligned, f.PixelWidth;
      var src := if Within(r, x, y) then live else before;
      forall k | 0 <= k < |after| && k / f.Stride() == y
        && f.PixelByte(x) <= k % f.Stride() < f.PixelByte(x) + f.PixelWidth()
        ensures after[k] == src[k]
      {
        var j := k % f.Stride() - f.PixelByte(x);
        if r.x <= x < r.x + r.w {
          f.PixelInside(r, x, j);
        } else {
          f.PixelOutside(r, x, j);
        }
      }
      f.SamePixel(after, src, x, y);
    }
  }

  lemma {:induction false} SmallPixel(f: Format, buf: seq<byte>, x: nat, y: nat)
    requires f.Ok() && f.bits < 8 && |buf| == f.Size() && x < f.width && y < f.height && f.ByteAt(x, y) < |buf|
    ensures buf[f.ByteAt(x, y)] == 0 ==> f.Pixel(buf, x, y) == [0]
    ensures buf[f.ByteAt(x, y)] == 255 ==> f.Pixel(buf, x, y) != [0]
  {
    hide f.ByteAt;
    var w := x % 8;
    if f.bits == 1 {
      assert w == 0 || w == 1 || w == 2 || w == 3 || w == 4 || w == 5 || w == 6 || w == 7;
    }
  }

  lemma {:induction false} WhereItLies(f: Format, x: nat, y: nat)
    requires f.Ok() && x < f.width && y < f.height
    ensures f.ByteAt(x, y) < f.Size()
    ensures f.ByteAt(x, y) / f.Stride() == y && f.ByteAt(x, y) % f.Stride() == f.PixelByte(x)
  {
    hide f.PixelByte, f.Stride;
    f.PixelInRow(x);
    f.PixelInBuffer(x, y);
    DivInUnit(y, f.PixelByte(x), f.Stride());
    ModInUnit(y, f.PixelByte(x), f.Stride());
  }

  /** A flush shows exactly the rectangle it reports, whatever the pixels, exactly when its columns are aligned
      to bytes. */
  lemma {:induction false} FlushExactIff(f: Format, r: Rect)
    requires f.Ok() && f.Inside(r)
    ensures (forall before: seq<byte>, live: seq<byte> | |before| == |live| == f.Size() ::
              ShowsExactly(f, before, live, r))
       <==> f.Aligned(r)
  {
    if f.Aligned(r) {
      forall before: seq<byte>, live: seq<byte> | |before| == |live| == f.Size()
        ensures ShowsExactly(f, before, live, r)
      {
        AlignedShows(f, before, live, r);
      }
    } else {
      var dark: seq<byte>, lit: seq<byte> := seq(f.Size(), _ => 0), seq(f.Size(), _ => 255);
      UnalignedMisses(f, dark, lit, r);
    }
  }

  lemma {:induction false} UnalignedMisses(f: Format, dark: seq<byte>, lit: seq<byte>, r: Rect)
    requires f.Ok() && f.Inside(r) && !f.Aligned(r) && |dark| == |lit| == f.Size()
    requires forall k | 0 <= k < |dark| :: dark[k] == 0 && lit[k] == 255
    ensures !ShowsExactly(f, dark, lit, r)
  {
    var x := if r.x * f.bits % 8 != 0 then r.x else r.x + r.w;
    UnalignedByte(f, r);
    hide f.Aligned, f.RowBytes, f.Stride, f.PixelByte, f.Pixel;
    var after := Copied(f, dark, lit, r);
    WhereItLies(f, x, r.y);
    SmallPixel(f, after, x, r.y);
    SmallPixel(f, dark, x, r.y);
    SmallPixel(f, lit, x, r.y);
    assert f.Pixel(after, x, r.y) != if Within(r, x, r.y) then f.Pixel(lit, x, r.y) else f.Pixel(dark, x, r.y);
  }

  /** Where an unaligned rectangle goes wrong: its first pixel's byte is left out, or its last byte holds a pixel
      past it. */
  lemma {:induction false} UnalignedByte(f: Format, r: Rect)
    requires f.Ok() && f.Inside(r) && !f.Aligned(r)
    ensures f.bits < 8
    ensures r.x * f.bits % 8 != 0 ==> f.PixelByte(r.x) < f.RowBytes(r.x)
    ensures r.x * f.bits % 8 == 0 ==>
              r.x + r.w < f.width && f.RowBytes(r.x) <= f.PixelByte(r.x + r.w) < f.RowBytes(r.x) + f.RowBytes(r.w)
  {
    if f.bits >= 8 {
      WideAligned(f, r);
    } else if f.bits == 1 {
      UnalignedBits(r.x, r.w);
    } else {
      UnalignedNibbles(r.x, r.w);
    }
  }

  lemma {:induction false} UnalignedBits(x: nat, w: nat)
    requires w > 0
    ensures x % 8 != 0 ==> x / 8 < (x + 7) / 8
    ensures x % 8 == 0 && (x + w) % 8 != 0 ==> (x + 7) / 8 <= (x + w) / 8 < (x + 7) / 8 + (w + 7) / 8
  {
  }

  lemma {:induction false} UnalignedNibbles(x: nat, w: nat)
    requires w > 0
    ensures x * 4 % 8 != 0 ==> x * 4 / 8 < (x * 4 + 7) / 8
    ensures x * 4 % 8 == 0 && (x + w) * 4 % 8 != 0 ==>
              (x * 4 + 7) / 8 <= (x + w) * 4 / 8 < (x * 4 + 7) / 8 + (w * 4 + 7) / 8
  {
    var a, b := x / 2, w / 2;
    assert x == 2 * a + x % 2 && w == 2 * b + w % 2;
  }

  /** Grows the columns to whole bytes: the least aligned rectangle that covers the request. */
  method AlignToBytes(f: Format, req: Rect) returns (r: Rect)
    requires f.Ok() && f.Inside(req)
    ensures IsLeast(f, req, r)
  {
    hide IsLeast;
    if f.bits >= 8 {
      WideIsAligned(f, req);
      return req;
    }
    var per := 8 / f.bits;
    assert per == if f.bits == 1 then 8 else 2;
    var end := (req.x + req.w + per - 1) / per * per;
    var x := req.x / per * per;
    if end > f.width {
      end := f.width;
    }
    if f.bits == 1 {
      Eighths(f, req);
    } else {
      Halves(f, req);
    }
    r := Rect(x, req.y, end - x, req.h);
  }

  function Cut(end: nat, width: nat): nat {
    if end > width then width else end
  }

  /** Whole bytes a pixel. */
  lemma {:induction false} WideAligned(f: Format, r: Rect)
    requires f.Ok() && f.bits >= 8
    ensures f.Aligned(r)
  {
    if f.bits == 16 {
      Eightfold(r.x, 2);
      Eightfold(r.x + r.w, 2);
    } else {
      Eightfold(r.x, 3);
      Eightfold(r.x + r.w, 3);
    }
  }

  lemma {:induction false} Eightfold(n: nat, b: nat)
    requires b == 2 || b == 3
    ensures n * (8 * b) % 8 == 0
  {
    assert n * (8 * b) == 8 * (n * b);
  }

  lemma {:induction false} WideIsAligned(f: Format, req: Rect)
    requires f.Ok() && f.Inside(req) && f.bits >= 8
    ensures IsLeast(f, req, req)
  {
    hide f.Aligned;
    WideAligned(f, req);
  }

  /** The least multiples of `per` pixels that cover a span, cut at the edge. */
  lemma {:induction false} LeastSpan(x: nat, w: nat, width: nat, per: nat, sx: nat, sw: nat)
    requires per == 8 || per == 2
    requires 0 < w && x + w <= width
    ensures var a, end := x / per * per, Cut((x + w + per - 1) / per * per, width);
            && a <= x && x + w <= end <= width && a % per == 0 && (end % per == 0 || end == width)
            && (sx % per == 0 && ((sx + sw) % per == 0 || sx + sw == width) && sx <= x && x + w <= sx + sw <= width ==>
                  sx <= a && end <= sx + sw)
  {
    Rounded(x, per, sx);
    Rounded(x + w, per, sx + sw);
  }

  lemma {:induction false} Rounded(x: nat, per: nat, s: nat)
    requires per == 8 || per == 2
    ensures var a, c := x / per * per, (x + per - 1) / per * per;
            a <= x <= c && a % per == 0 && c % per == 0 && (s % per == 0 ==> (s <= x ==> s <= a) && (x <= s ==> c <= s))
  {
    if per == 8 {
      RoundedEight(x, s);
    } else {
      RoundedTwo(x, s);
    }
  }

  lemma {:induction false} RoundedEight(x: nat, s: nat)
    ensures var a, c := x / 8 * 8, (x + 7) / 8 * 8;
            a <= x <= c && a % 8 == 0 && c % 8 == 0 && (s % 8 == 0 ==> (s <= x ==> s <= a) && (x <= s ==> c <= s))
  {
  }

  lemma {:induction false} RoundedTwo(x: nat, s: nat)
    ensures var a, c := x / 2 * 2, (x + 1) / 2 * 2;
            a <= x <= c && a % 2 == 0 && c % 2 == 0 && (s % 2 == 0 ==> (s <= x ==> s <= a) && (x <= s ==> c <= s))
  {
  }

  lemma {:induction false} AlignedBits(f: Format, r: Rect)
    requires f.Ok() && f.bits == 1
    ensures f.Aligned(r) <==> r.x % 8 == 0 && ((r.x + r.w) % 8 == 0 || r.x + r.w == f.width)
  {
  }

  lemma {:induction false} AlignedNibbles(f: Format, r: Rect)
    requires f.Ok() && f.bits == 4
    ensures f.Aligned(r) <==> r.x % 2 == 0 && ((r.x + r.w) % 2 == 0 || r.x + r.w == f.width)
  {
    FourEighths(r.x);
    FourEighths(r.x + r.w);
  }

  lemma {:induction false} FourEighths(n: nat)
    ensures n * 4 % 8 == 0 <==> n % 2 == 0
  {
    var q, r := n / 2, n % 2;
    assert n == 2 * q + r && n * 4 == 8 * q + 4 * r;
  }

  /** One bit a pixel: eight pixels a byte. */
  lemma {:induction false} Eighths(f: Format, req: Rect)
    requires f.Ok() && f.Inside(req) && f.bits == 1
    ensures var x, end := req.x / 8 * 8, Cut((req.x + req.w + 7) / 8 * 8, f.width);
            x < end && IsLeast(f, req, Rect(x, req.y, end - x, req.h))
  {
    hide f.Aligned;
    LeastSpan(req.x, req.w, f.width, 8, 0, 0);
    var x, end := req.x / 8 * 8, Cut((req.x + req.w + 7) / 8 * 8, f.width);
    var r := Rect(x, req.y, end - x, req.h);
    AlignedBits(f, r);
    forall s | f.Inside(s) && f.Aligned(s) && f.Covers(s, req) ensures f.Covers(s, r) {
      AlignedBits(f, s);
      LeastSpan(req.x, req.w, f.width, 8, s.x, s.w);
    }
  }

  /** Four bits a pixel: two pixels a byte. */
  lemma {:induction false} Halves(f: Format, req: Rect)
    requires f.Ok() && f.Inside(req) && f.bits == 4
    ensures var x, end := req.x / 2 * 2, Cut((req.x + req.w + 1) / 2 * 2, f.width);
            x < end && IsLeast(f, req, Rect(x, req.y, end - x, req.h))
  {
    hide f.Aligned;
    LeastSpan(req.x, req.w, f.width, 2, 0, 0);
    var x, end := req.x / 2 * 2, Cut((req.x + req.w + 1) / 2 * 2, f.width);
    var r := Rect(x, req.y, end - x, req.h);
    AlignedNibbles(f, r);
    forall s | f.Inside(s) && f.Aligned(s) && f.Covers(s, req) ensures f.Covers(s, r) {
      AlignedNibbles(f, s);
      LeastSpan(req.x, req.w, f.width, 2, s.x, s.w);
    }
  }

  ghost predicate IsLeast(f: Format, req: Rect, r: Rect) {
    && f.Inside(r) && f.Aligned(r) && f.Covers(r, req)
    && forall s | f.Inside(s) && f.Aligned(s) && f.Covers(s, req) :: f.Covers(s, r)
  }

  /** Cut at the edge of the screen. */
  function Clamped(f: Format, raw: Rect): Rect {
    Rect(raw.x, raw.y,
         if raw.x <= f.width && raw.x + raw.w > f.width then f.width - raw.x else raw.w,
         if raw.y <= f.height && raw.y + raw.h > f.height then f.height - raw.y else raw.h)
  }

  /** What a backing asks for is taken when, cut at the edge, it covers the rectangle. */
  /** Where what the backing asks for is taken, its columns are whole bytes. */
  ghost predicate Usable(f: Format, req: Rect, raw: Rect)
    requires f.Ok() && f.Inside(req)
  {
    forall a | IsLeast(f, req, a) && raw.x < f.width && raw.y < f.height && f.Covers(Clamped(f, raw), a) ::
      f.Aligned(Clamped(f, raw))
  }

  /** What the backing asks for where it can be taken, else the rectangle. */
  function Widened(f: Format, r: Rect, raw: Rect): Rect {
    if raw.x < f.width && raw.y < f.height && f.Covers(Clamped(f, raw), r) then Clamped(f, raw) else r
  }

  /** What a flush of a request shows. */
  ghost predicate Grown(f: Format, req: Rect, raw: Rect, r: Rect) {
    exists least :: IsLeast(f, req, least) && r == Widened(f, least, raw)
  }

  lemma {:induction false} LeastFits(f: Format, req: Rect, r: Rect)
    requires f.Ok() && f.Inside(req) && IsLeast(f, req, r)
    ensures f.Inside(r) && f.Aligned(r) && f.Covers(r, req)
  {
  }

  method WidenByBacking(f: Format, r: Rect, raw: Rect) returns (out: Rect)
    requires f.Ok() && f.Inside(r)
    ensures f.Inside(out) && f.Covers(out, r)
    ensures out == Widened(f, r, raw)
  {
    if raw.x >= f.width || raw.y >= f.height {
      return r;
    }
    var w, h := raw.w, raw.h;
    if raw.x + w > f.width {
      w := f.width - raw.x;
    }
    if raw.y + h > f.height {
      h := f.height - raw.y;
    }
    if raw.x > r.x || raw.y > r.y || raw.x + w < r.x + r.w || raw.y + h < r.y + r.h {
      return r;
    }
    return Rect(raw.x, raw.y, w, h);
  }

  // ---- Observers ----

  /** The copy agrees with the flushed screen on every byte that no owed rectangle covers. */
  ghost predicate Agrees(f: Format, flushed: seq<byte>, copy: seq<byte>, owed: seq<Rect>)
    requires f.Ok()
  {
    && |copy| == |flushed|
    && forall k | 0 <= k < |flushed| :: copy[k] == flushed[k] || Owed(f, owed, k)
  }

  ghost predicate Tidy(f: Format, owed: seq<Rect>) {
    forall i | 0 <= i < |owed| :: f.Inside(owed[i]) && f.Aligned(owed[i])
  }

  ghost predicate Owed(f: Format, owed: seq<Rect>, k: nat)
    requires f.Ok()
  {
    exists i | 0 <= i < |owed| :: f.InBytes(owed[i], k)
  }

  lemma {:induction false} WholeColumns(f: Format)
    requires f.Ok()
    ensures f.RowBytes(0) == 0 && f.RowBytes(f.width) == f.Stride()
  {
  }

  lemma {:induction false} WholeIsAll(f: Format, k: nat)
    requires f.Ok() && k < f.Size()
    ensures f.InBytes(f.Whole(), k)
  {
    hide f.RowBytes, f.Stride;
    WholeColumns(f);
    DivBelow(k, f.height, f.Stride());
    assert 0 <= k % f.Stride() < f.Stride();
  }

  /** Telling an observer of a flush, or of the whole screen in place of all it was owed, keeps it in agreement. */
  lemma {:induction false} TellKeeps(f: Format, before: seq<byte>, after: seq<byte>, copy: seq<byte>, queue: seq<Rect>,
                                     hand: seq<Rect>, r: Rect)
    requires f.Ok() && |before| == |after| == f.Size()
    requires forall k | 0 <= k < |after| && !f.InBytes(r, k) :: after[k] == before[k]
    requires f.Inside(r) && f.Aligned(r)
    requires Agrees(f, before, copy, queue + hand) && Tidy(f, queue + hand)
    ensures Agrees(f, after, copy, queue + [r] + hand) && Tidy(f, queue + [r] + hand)
    ensures Agrees(f, after, copy, [f.Whole()] + hand) && Tidy(f, [f.Whole()] + hand)
  {
    hide f.InBytes, f.Aligned;
    TidyTold(f, queue, hand, r);
    var told, all := queue + [r] + hand, [f.Whole()] + hand;
    forall k | 0 <= k < |after| ensures copy[k] == after[k] || Owed(f, told, k) {
      if f.InBytes(r, k) {
        assert told[|queue|] == r;
      } else if copy[k] != before[k] {
        var i :| 0 <= i < |queue + hand| && f.InBytes((queue + hand)[i], k);
        assert told[if i < |queue| then i else i + 1] == (queue + hand)[i];
      }
    }
    forall k | 0 <= k < |after| ensures Owed(f, all, k) {
      WholeIsAll(f, k);
      assert all[0] == f.Whole();
    }
  }

  lemma {:induction false} TidyTold(f: Format, queue: seq<Rect>, hand: seq<Rect>, r: Rect)
    requires f.Ok() && f.Inside(r) && f.Aligned(r) && Tidy(f, queue + hand)
    ensures Tidy(f, queue + [r] + hand) && Tidy(f, [f.Whole()] + hand)
  {
    assert f.Aligned(f.Whole()) && f.Inside(f.Whole());
    hide f.Aligned;
    var owed, told, all := queue + hand, queue + [r] + hand, [f.Whole()] + hand;
    forall i | 0 <= i < |told| ensures f.Inside(told[i]) && f.Aligned(told[i]) {
      if i != |queue| {
        assert told[i] == owed[if i < |queue| then i else i - 1];
      }
    }
    forall i | 0 <= i < |all| ensures f.Inside(all[i]) && f.Aligned(all[i]) {
      if i > 0 {
        assert all[i] == owed[|queue| + i - 1];
      }
    }
  }

  /** What is owed does not depend on how much of it is in the ring and how much in hand. */
  lemma {:induction false} SameOwed(f: Format, flushed: seq<byte>, copy: seq<byte>, owed: seq<Rect>, owed': seq<Rect>)
    requires f.Ok() && Agrees(f, flushed, copy, owed) && Tidy(f, owed)
    requires forall r :: r in owed <==> r in owed'
    ensures Agrees(f, flushed, copy, owed') && Tidy(f, owed')
  {
    hide f.InBytes, f.Aligned;
    forall k | 0 <= k < |flushed| && Owed(f, owed, k) ensures Owed(f, owed', k) {
      var i :| 0 <= i < |owed| && f.InBytes(owed[i], k);
      assert owed[i] in owed';
    }
    forall i | 0 <= i < |owed'| ensures f.Inside(owed'[i]) && f.Aligned(owed'[i]) {
      assert owed'[i] in owed;
    }
  }

  /** The first row of a rectangle, and the rows under it. */
  function TopRow(r: Rect): Rect {
    Rect(r.x, r.y, r.w, 1)
  }

  function RowsUnder(r: Rect): seq<Rect> {
    if r.h <= 1 then [] else [Rect(r.x, r.y + 1, r.w, r.h - 1)]
  }

  lemma {:induction false} RowSplit(f: Format, r: Rect, k: nat)
    requires f.Ok() && r.h > 0
    ensures f.InBytes(r, k) <==> f.InBytes(TopRow(r), k) || Owed(f, RowsUnder(r), k)
  {
    hide f.Stride, f.RowBytes;
    if r.h > 1 {
      assert RowsUnder(r)[0] == Rect(r.x, r.y + 1, r.w, r.h - 1);
    }
  }

  lemma {:induction false} OwedConcat(f: Format, a: seq<Rect>, b: seq<Rect>, k: nat)
    requires f.Ok()
    ensures Owed(f, a + b, k) <==> Owed(f, a, k) || Owed(f, b, k)
  {
    hide f.InBytes;
    if Owed(f, a, k) {
      var i :| 0 <= i < |a| && f.InBytes(a[i], k);
      assert (a + b)[i] == a[i];
    }
    if Owed(f, b, k) {
      var i :| 0 <= i < |b| && f.InBytes(b[i], k);
      assert (a + b)[|a| + i] == b[i];
    }
  }

  /** Re-reading the first row of a rectangle owed leaves the rows under it owed, and all else as it was. */
  lemma {:induction false} RowSettles(f: Format, flushed: seq<byte>, copy: seq<byte>, owed: seq<Rect>, i: nat)
    requires f.Ok() && i < |owed| && Agrees(f, flushed, copy, owed) && Tidy(f, owed)
    ensures var left := owed[..i] + RowsUnder(owed[i]) + owed[i + 1..];
            Agrees(f, flushed, Copied(f, copy, flushed, TopRow(owed[i])), left) && Tidy(f, left)
  {
    hide f.InBytes, f.Aligned, Owed, RowsUnder, TopRow;
    var r := owed[i];
    var copy', left := Copied(f, copy, flushed, TopRow(r)), owed[..i] + RowsUnder(r) + owed[i + 1..];
    assert owed == owed[..i] + [r] + owed[i + 1..];
    forall k | 0 <= k < |flushed| ensures copy'[k] == flushed[k] || Owed(f, left, k) {
      OwedConcat(f, owed[..i] + [r], owed[i + 1..], k);
      OwedConcat(f, owed[..i], [r], k);
      OwedConcat(f, owed[..i] + RowsUnder(r), owed[i + 1..], k);
      OwedConcat(f, owed[..i], RowsUnder(r), k);
      OwedOne(f, r, k);
      RowSplit(f, r, k);
    }
    UnderFits(f, r);
  }

  lemma {:induction false} OwedOne(f: Format, r: Rect, k: nat)
    requires f.Ok()
    ensures Owed(f, [r], k) <==> f.InBytes(r, k)
  {
    hide f.InBytes;
    assert [r][0] == r;
  }

  lemma {:induction false} UnderFits(f: Format, r: Rect)
    requires f.Inside(r) && f.Aligned(r)
    ensures forall q | q in RowsUnder(r) :: f.Inside(q) && f.Aligned(q)
  {
  }

  /** Every pixel outside the owed rectangles is the flushed one; with nothing owed the copy is the screen. */
  lemma {:induction false} AgreesOnPixels(f: Format, flushed: seq<byte>, copy: seq<byte>, owed: seq<Rect>, x: nat,
                                          y: nat)
    requires f.Ok() && |flushed| == f.Size() && Agrees(f, flushed, copy, owed) && x < f.width && y < f.height
    requires Tidy(f, owed)
    requires forall i | 0 <= i < |owed| :: !Within(owed[i], x, y)
    ensures f.Pixel(copy, x, y) == f.Pixel(flushed, x, y)
  {
    hide f.RowBytes, f.Stride, f.PixelByte, f.Pixel, f.Aligned, f.PixelWidth;
    forall k | 0 <= k < |flushed| && k / f.Stride() == y
      && f.PixelByte(x) <= k % f.Stride() < f.PixelByte(x) + f.PixelWidth()
      ensures copy[k] == flushed[k]
    {
      forall i | 0 <= i < |owed| ensures !f.InBytes(owed[i], k) {
        assert !Within(owed[i], x, y);
        if owed[i].y <= y < owed[i].y + owed[i].h {
          f.PixelOutside(owed[i], x, k % f.Stride() - f.PixelByte(x));
        }
      }
    }
    f.SamePixel(copy, flushed, x, y);
  }

  lemma {:induction false} OwesAll(f: Format, flushed: seq<byte>, copy: seq<byte>)
    requires f.Ok() && |flushed| == |copy| == f.Size()
    ensures Agrees(f, flushed, copy, [f.Whole()]) && Tidy(f, [f.Whole()])
  {
    hide f.InBytes, f.Size;
    forall k | 0 <= k < |flushed| ensures Owed(f, [f.Whole()], k) {
      WholeIsAll(f, k);
      assert [f.Whole()][0] == f.Whole();
    }
  }

  /** An observer as a value: its copy, the damage queued for it, the rectangles in hand, and the length of its ring. */
  datatype Look = Look(copy: seq<byte>, queue: seq<Rect>, hand: seq<Rect>, ring: nat)

  /** One more rectangle to read again, or the whole screen in place of all that a full ring held. */
  function Told(f: Format, r: Rect, l: Look): Look {
    l.(queue := if |l.queue| < l.ring then l.queue + [r] else [f.Whole()])
  }

  /** One observer: the damage it has not read, and what it holds of the screen. */
  class Observer {
    const q: array<Rect>
    var head: nat
    var count: nat
    /** Rectangles read from the ring whose pixels are not yet re-read. */
    var hand: seq<Rect>
    /** The observer's own copy of the screen. */
    var copy: seq<byte>

    ghost predicate Shape()
      reads this
    {
      2 <= q.Length && head < q.Length && count <= q.Length
    }

    ghost function Queue(): (s: seq<Rect>)
      requires Shape()
      reads this, q
      ensures |s| == count
    {
      View(q[..], head, count)
    }

    ghost function Seen(): Look
      requires Shape()
      reads this, q
    {
      Look(copy, Queue(), hand, q.Length)
    }

    /** An observer starts with the whole screen to read and nothing queued. */
    constructor (f: Format, len: nat)
      requires f.Ok() && 2 <= len <= 256
      ensures Shape() && fresh(q) && q.Length == len
      ensures Queue() == [] && hand == [f.Whole()] && |copy| == f.Size()
    {
      q := new Rect[len](_ => Rect(0, 0, 0, 0));
      head, count := 0, 0;
      hand, copy := [f.Whole()], seq(f.Size(), _ => 0);
    }

    /** Adds a rectangle; a full ring collapses to the whole screen. */
    method QueueDamage(r: Rect, f: Format)
      requires Shape()
      modifies this`head, this`count, q
      ensures Shape()
      ensures Queue() == if old(count) < q.Length then old(Queue()) + [r] else [f.Whole()]
    {
      hide View;
      if count >= q.Length {
        head, count := 0, 1;
        q[0] := f.Whole();
        assert Queue() == [f.Whole()];
        return;
      }
      Pushed(q[..], head, count, r);
      SlotIsMod(head, count, q.Length);
      q[(head + count) % q.Length] := r;
      count := count + 1;
    }

    /** Takes as many whole records as `nbyte` bytes hold. */
    method PopOne()
      requires Shape() && count > 0
      modifies this`head, this`count, this`hand
      ensures Shape() && hand == old(hand) + [old(Queue())[0]] && Queue() == old(Queue())[1..]
    {
      hide View, Slot;
      Popped(q[..], head, count);
      SlotIsMod(head, 1, q.Length);
      hand := hand + [q[head]];
      head := (head + 1) % q.Length;
      count := count - 1;
    }

    method PopDamage(nbyte: nat) returns (n: nat)
      requires Shape()
      modifies this`head, this`count, this`hand
      ensures Shape()
      ensures n <= old(count) && (n == old(count) || 8 * (n + 1) > nbyte) && 8 * n <= nbyte
      ensures hand == old(hand) + old(Queue())[..n] && Queue() == old(Queue())[n..]
    {
      hide View, Observer.Queue;
      ghost var queue := Queue();
      n := 0;
      var used := 0;
      while count > 0 && used + 8 <= nbyte
        invariant Shape() && used == 8 * n <= nbyte
        invariant n <= |queue| && Queue() == queue[n..]
        invariant hand == old(hand) + queue[..n]
        decreases count
      {
        assert queue[..n + 1] == queue[..n] + [queue[n]] && queue[n..][1..] == queue[n + 1..];
        PopOne();
        used := used + 8;
        n := n + 1;
      }
    }
  }

  /** Putting the last of distinct elements in the place of the `i`th takes just that one out. */
  lemma {:induction false} LastInPlace<T>(s: seq<T>, i: nat)
    requires i < |s| && forall j, k | 0 <= j < k < |s| :: s[j] != s[k]
    ensures forall p :: p in s[i := s[|s| - 1]][..|s| - 1] <==> p in s && p != s[i]
  {
    var n := |s| - 1;
    var t := s[i := s[n]][..n];
    forall p | p in s && p != s[i] ensures p in t {
      var k :| 0 <= k < |s| && s[k] == p;
      if k == n {
        assert t[i] == p;
      } else {
        assert t[k] == p;
      }
    }
  }

  lemma {:induction false} ColumnsFit(f: Format, r: Rect)
    requires f.Ok() && f.Inside(r) && f.Aligned(r)
    ensures f.RowBytes(r.x) + f.RowBytes(r.w) <= f.Stride()
  {
    if f.bits == 1 {
      SpanFits(r.x, r.w, f.width);
    } else if f.bits == 4 {
      SpanFits(r.x * 4, r.w * 4, f.width * 4);
    } else if f.bits == 16 {
      SpanFits(r.x * 16, r.w * 16, f.width * 16);
    } else {
      SpanFits(r.x * 24, r.w * 24, f.width * 24);
    }
  }

  lemma {:induction false} SpanFits(from: nat, len: nat, edge: nat)
    requires from % 8 == 0 && from + len <= edge
    ensures (from + 7) / 8 + (len + 7) / 8 <= (edge + 7) / 8
  {
    var a := from / 8;
    assert from == 8 * a;
  }

  lemma {:induction false} RowFits(f: Format, row: nat, first: nat, bytes: nat)
    requires f.Ok() && row < f.height && first + bytes <= f.Stride()
    ensures 0 <= row * f.Stride() + first && row * f.Stride() + first + bytes <= f.Size()
  {
    hide f.Stride;
    Product(row, 1, f.Stride());
    MulMono(row + 1, f.height, f.Stride());
    MulMono(0, row, f.Stride());
  }

  /** The byte is one of the rectangle's in a row before `row`. */
  ghost predicate RowsDone(f: Format, r: Rect, row: nat, k: nat)
    requires f.Ok()
  {
    f.InBytes(r, k) && k / f.Stride() < row
  }

  lemma {:induction false} AllRows(f: Format, r: Rect, k: nat)
    requires f.Ok()
    ensures !RowsDone(f, r, r.y, k) && (RowsDone(f, r, r.y + r.h, k) <==> f.InBytes(r, k))
  {
    hide f.Stride, f.RowBytes;
  }

  /** The bytes copied for one row are the bytes of the rectangle in that row. */
  lemma {:induction false} RowBytesOf(f: Format, r: Rect, row: nat, off: nat, k: nat)
    requires f.Ok() && r.y <= row < r.y + r.h && off == row * f.Stride() + f.RowBytes(r.x)
    requires f.RowBytes(r.x) + f.RowBytes(r.w) <= f.Stride()
    ensures RowsDone(f, r, row + 1, k) <==> RowsDone(f, r, row, k) || off <= k < off + f.RowBytes(r.w)
  {
    hide f.Stride, f.RowBytes;
    var s := f.Stride();
    if off <= k < off + f.RowBytes(r.w) {
      DivInUnit(row, k - row * s, s);
      ModInUnit(row, k - row * s, s);
    } else if k / s == row {
      assert k == row * s + k % s;
    }
  }

  /** Observers and their rings. */
  ghost function Parts(os: seq<Observer>): (parts: set<object>)
    ensures forall o | o in os :: o in parts && o.q in parts
  {
    (set o: Observer | o in os :: o as object) + (set o: Observer | o in os :: o.q as object)
  }

  lemma {:induction false} PartsOf(os: seq<Observer>, some: seq<Observer>)
    requires forall o | o in some :: o in os
    ensures Parts(some) <= Parts(os)
  {
  }

  class Screen {
    const f: Format
    const pixels: array<byte>
    /** The screen as last flushed; held while there is an observer. */
    var flushed: array?<byte>
    var observers: seq<Observer>
    const maxObservers: nat
    /** Which requests for memory fail, and how many were made. */
    const fails: nat -> bool
    var calls: nat

    ghost predicate Shape()
      reads this
    {
      && f.Ok()
      && pixels.Length == f.Size()
      && (flushed == null <==> observers == [])
      && (flushed != null ==> flushed.Length == f.Size() && flushed != pixels)
      && |observers| <= maxObservers
      && (forall i, j | 0 <= i < j < |observers| :: observers[i] != observers[j] && observers[i].q != observers[j].q)
    }

    ghost function Repr(): set<object>
      reads this
    {
      Parts(observers)
    }

    /** What an observer is owed: the damage in its ring and the rectangles it holds. */
    ghost predicate InStep(o: Observer, shown: seq<byte>)
      requires f.Ok()
      reads o, o.q
    {
      o.Shape() && Agrees(f, shown, o.copy, o.Queue() + o.hand) && Tidy(f, o.Queue() + o.hand)
    }

    ghost predicate Valid()
      reads this, flushed, Repr()
    {
      && Shape()
      && (flushed != null ==> forall i | 0 <= i < |observers| :: InStep(observers[i], flushed[..]))
    }

    /** The screen and its observers as values. */
    ghost function Shown(): (a: Shot)
      requires Valid()
      reads this, pixels, flushed, Repr()
      ensures |a.looks| == |observers|
      ensures forall i | 0 <= i < |observers| :: observers[i].Shape() && a.looks[i] == observers[i].Seen()
      ensures a.pixels == pixels[..] && a.calls == calls
      ensures a.flushed == if flushed == null then None else Some(flushed[..])
      ensures Sized(f, a)
    {
      Shot(pixels[..], if flushed == null then None else Some(flushed[..]), Looks(observers), calls)
    }

    ghost function Looks(os: seq<Observer>): (ls: seq<Look>)
      requires forall i | 0 <= i < |os| :: os[i] in Parts(os) && os[i].Shape()
      reads Parts(os)
      ensures |ls| == |os|
      ensures forall i | 0 <= i < |os| :: ls[i] == os[i].Seen()
    {
      seq(|os|, i requires 0 <= i < |os| && os[i].Shape() reads Parts(os) => os[i].Seen())
    }

    constructor (f: Format, maxObservers: nat, fails: nat -> bool)
      requires f.Ok()
      ensures Valid() && this.f == f && observers == [] && fresh(pixels) && this.maxObservers == maxObservers
              && this.fails == fails
    {
      this.f, this.fails, calls := f, fails, 0;
      this.maxObservers := maxObservers;
      pixels := new byte[f.Size()](_ => 0);
      flushed := null;
      observers := [];
    }

    /** A writer stores pixels; nothing is shown until it flushes. */
    method WriteData(at: nat, data: seq<byte>) returns (n: nat)
      requires Valid()
      modifies pixels
      ensures Valid()
      ensures n == if at >= f.Size() then 0 else if |data| < f.Size() - at then |data| else f.Size() - at
      ensures pixels[..] == if n == 0 then old(pixels[..]) else old(pixels[..at]) + data[..n] + old(pixels[at + n..])
    {
      hide Agrees, Tidy, f.Size, View;
      if at >= f.Size() {
        return 0;
      }
      n := f.Size() - at;
      if n > |data| {
        n := |data|;
      }
      forall k | 0 <= k < n {
        pixels[at + k] := data[k];
      }
      assert pixels[..] == old(pixels[..at]) + data[..n] + old(pixels[at + n..]);
      assert flushed != null ==> flushed[..] == old(flushed[..]);
    }

    /** Adds an observer; the first one has the flushed copy made, from the live pixels, if there is memory for it. */
    method Attach(o: Observer) returns (ok: bool)
      requires Valid() && o.Shape() && o.Queue() == [] && o.hand == [f.Whole()] && |o.copy| == f.Size()
      requires forall i | 0 <= i < |observers| :: observers[i] != o && observers[i].q != o.q
      modifies this`flushed, this`observers, this`calls
      ensures Valid()
      ensures ok <==> |old(observers)| < maxObservers && (old(observers) == [] ==> !fails(old(calls)))
      ensures ok ==> observers == old(observers) + [o] && flushed != null
      ensures ok && old(observers) == [] ==> fresh(flushed) && flushed[..] == pixels[..]
      ensures ok && old(observers) != [] ==> flushed == old(flushed)
      ensures !ok ==> observers == old(observers) && flushed == old(flushed)
      ensures calls == old(calls) + if old(observers) == [] && maxObservers > 0 then 1 else 0
    {
      hide f.Size, View, Agrees, Tidy;
      if |observers| >= maxObservers {
        return false;
      }
      if flushed == null {
        calls := calls + 1;
        if fails(calls - 1) {
          return false;
        }
        var copy := new byte[f.Size()](_ => 0);
        forall k | 0 <= k < copy.Length {
          copy[k] := pixels[k];
        }
        flushed := copy;
        assert flushed[..] == pixels[..];
      }
      OwesAll(f, flushed[..], o.copy);
      assert o.Queue() + o.hand == [f.Whole()];
      observers := observers + [o];
      return true;
    }

    /** Removes an observer; with the last one the flushed copy goes. */
    method Detach(o: Observer)
      requires Valid()
      modifies this`flushed, this`observers
      ensures Valid()
      ensures forall p :: p in observers <==> p in old(observers) && p != o
      ensures flushed == if observers == [] then null else old(flushed)
      ensures var n := |old(observers)| - 1; n >= 0 && old(observers)[n] == o ==> observers == old(observers)[..n]
      ensures forall i | 0 <= i < |old(observers)| && old(observers)[i] == o ::
                var n := |old(observers)| - 1; observers == old(observers)[i := old(observers)[n]][..n]
    {
      hide Agrees, Tidy, f.Size, View;
      var i := 0;
      while i < |observers| && observers[i] != o
        modifies {}
        invariant 0 <= i <= |observers| && forall k | 0 <= k < i :: observers[k] != o
      {
        i := i + 1;
      }
      if i < |observers| {
        var last := observers[|observers| - 1];
        LastInPlace(observers, i);
        observers := observers[i := last][..|observers| - 1];
      }
      if observers == [] {
        flushed := null;
      }
    }

    /** Copies the rectangle row by row into the flushed copy. */
    method CopyRows(r: Rect)
      requires Shape() && flushed != null && f.Inside(r) && f.Aligned(r)
      modifies flushed
      ensures flushed[..] == Copied(f, old(flushed[..]), pixels[..], r)
    {
      hide f.RowBytes, f.Stride, f.Aligned, f.InBytes, RowsDone;
      var first := f.RowBytes(r.x);
      var bytes := f.RowBytes(r.w);
      ColumnsFit(f, r);
      forall k: nat ensures !RowsDone(f, r, r.y, k) && (RowsDone(f, r, r.y + r.h, k) <==> f.InBytes(r, k)) {
        AllRows(f, r, k);
      }
      for row := r.y to r.y + r.h
        invariant forall k | 0 <= k < flushed.Length ::
                    flushed[k] == if RowsDone(f, r, row, k) then pixels[k] else old(flushed[k])
      {
        var off := row * f.Stride() + first;
        RowFits(f, row, first, bytes);
        forall k | 0 <= k < flushed.Length ensures RowsDone(f, r, row + 1, k) <==>
          RowsDone(f, r, row, k) || off <= k < off + bytes {
          RowBytesOf(f, r, row, off, k);
        }
        CopyRow(off, bytes);
      }
    }

    method CopyRow(off: nat, bytes: nat)
      requires Shape() && flushed != null && off + bytes <= flushed.Length
      modifies flushed
      ensures forall k | 0 <= k < flushed.Length ::
                flushed[k] == if off <= k < off + bytes then pixels[k] else old(flushed[k])
    {
      hide f.Size;
      forall k | off <= k < off + bytes {
        flushed[k] := pixels[k];
      }
    }

    lemma {:induction false} Shapes()
      requires Valid()
      ensures forall o | o in observers :: o.Shape()
    {
      hide Agrees, Tidy, View;
      forall o | o in observers ensures o.Shape() {
        var i :| 0 <= i < |observers| && observers[i] == o;
        assert InStep(observers[i], flushed[..]);
      }
    }

    /** Copies the rectangle into the flushed copy, then tells every observer. */
    method PublishFlush(r: Rect)
      requires Valid() && f.Inside(r) && f.Aligned(r)
      modifies flushed, Repr()
      ensures Valid()
      ensures flushed != null ==> flushed[..] == Copied(f, old(flushed[..]), pixels[..], r)
      ensures pixels[..] == old(pixels[..])
      ensures flushed != null ==>
                forall i | 0 <= i < |observers| ::
                  && old(observers[i].Shape()) && observers[i].Shape()
                  && observers[i].Seen() == Told(f, r, old(observers[i].Seen()))
    {
      hide Agrees, Tidy, View, f.InBytes, f.Aligned, f.Size, Screen.InStep, Observer.Seen, Told, Observer.Queue;
      if flushed == null {
        return;
      }
      Shapes();
      ghost var before := flushed[..];
      CopyRows(r);
      TellAll(before, r);
    }

    lemma {:induction false} ShapesBefore(before: seq<byte>)
      requires f.Ok() && forall j | 0 <= j < |observers| :: InStep(observers[j], before)
      ensures forall j | 0 <= j < |observers| :: observers[j].Shape()
    {
    }

    /** Tells every observer. */
    method TellAll(ghost before: seq<byte>, r: Rect)
      requires Shape() && flushed != null && |before| == f.Size() && f.Inside(r) && f.Aligned(r)
      requires forall k | 0 <= k < |before| && !f.InBytes(r, k) :: flushed[k] == before[k]
      requires forall j | 0 <= j < |observers| :: InStep(observers[j], before)
      modifies Repr()
      ensures Valid() && flushed[..] == old(flushed[..]) && pixels[..] == old(pixels[..])
      ensures forall i | 0 <= i < |observers| ::
                && old(observers[i].Shape()) && observers[i].Shape()
                && observers[i].Seen() == Told(f, r, old(observers[i].Seen()))
    {
      hide Agrees, Tidy, View, f.InBytes, f.Aligned, f.Size, Observer.Seen, Told, Screen.InStep, Observer.Queue;
      ShapesBefore(before);
      ghost var after := flushed[..];
      for i := 0 to |observers|
        invariant flushed[..] == after && pixels[..] == old(pixels[..])
        invariant forall j | 0 <= j < |observers| :: InStep(observers[j], if j < i then after else before)
        invariant forall j | 0 <= j < |observers| :: old(observers[j].Shape()) && observers[j].Shape()
        invariant forall j | 0 <= j < |observers| ::
                    observers[j].Seen()
                    == if j < i then Told(f, r, old(observers[j].Seen())) else old(observers[j].Seen())
      {
        assert observers[i] in observers;
        TellAt(i, before, after, r);
      }
    }

    method TellAt(i: nat, ghost before: seq<byte>, ghost after: seq<byte>, r: Rect)
      requires Shape() && i < |observers| && |before| == |after| == f.Size() && f.Inside(r) && f.Aligned(r)
      requires forall k | 0 <= k < |after| && !f.InBytes(r, k) :: after[k] == before[k]
      requires forall j | 0 <= j < |observers| :: InStep(observers[j], if j < i then after else before)
      modifies observers[i], observers[i].q
      ensures forall j | 0 <= j < |observers| :: InStep(observers[j], if j <= i then after else before)
      ensures forall j | 0 <= j < |observers| :: old(observers[j].Shape()) && observers[j].Shape()
      ensures observers[i].Seen() == Told(f, r, old(observers[i].Seen()))
      ensures forall j | 0 <= j < |observers| && j != i :: observers[j].Seen() == old(observers[j].Seen())
    {
      hide Agrees, Tidy, View, f.InBytes, f.Aligned, f.Size, Observer.Seen, Told, Observer.Queue;
      Tell(observers[i], before, after, r);
    }

    method Tell(o: Observer, ghost before: seq<byte>, ghost after: seq<byte>, r: Rect)
      requires f.Ok() && InStep(o, before) && |before| == |after| == f.Size() && f.Inside(r) && f.Aligned(r)
      requires forall k | 0 <= k < |after| && !f.InBytes(r, k) :: after[k] == before[k]
      modifies o`head, o`count, o.q
      ensures InStep(o, after) && old(o.Shape()) && o.Shape() && o.Seen() == Told(f, r, old(o.Seen()))
    {
      hide Agrees, Tidy, View, f.InBytes, f.Aligned, f.Size, Observer.Queue;
      TellKeeps(f, before, after, o.copy, o.Queue(), o.hand, r);
      o.QueueDamage(r, f);
    }

    /** Flushes a rectangle, grown to whole bytes and to what the backing asks for. */
    method FlushRect(req: Rect, raw: Rect) returns (r: Rect)
      requires Valid() && f.Inside(req)
      requires Usable(f, req, raw)
      modifies flushed, Repr()
      ensures Valid() && f.Inside(r) && f.Aligned(r) && f.Covers(r, req) && Grown(f, req, raw, r)
      ensures old(Valid()) && Flushed(f, r, old(Shown()), Shown())
      ensures flushed != null ==>
                forall x, y | 0 <= x < f.width && 0 <= y < f.height ::
                  f.Pixel(flushed[..], x, y)
                  == if Within(r, x, y) then f.Pixel(pixels[..], x, y) else f.Pixel(old(flushed[..]), x, y)
    {
      hide Agrees, Tidy, View, f.InBytes, f.Aligned, f.Pixel, f.Stride, IsLeast;
      var least := AlignToBytes(f, req);
      LeastFits(f, req, least);
      r := WidenByBacking(f, least, raw);
      if flushed != null {
        AlignedShows(f, flushed[..], pixels[..], r);
      }
      PublishFlush(r);
    }

    /** An observer reads records from its ring; what it is owed stays the same. */
    method ReadDamage(o: Observer, nbyte: nat) returns (n: nat)
      requires Valid() && o in observers
      modifies o`head, o`count, o`hand
      ensures Valid() && o.copy == old(o.copy)
      ensures n <= old(o.count) && (n == old(o.count) || 8 * (n + 1) > nbyte) && 8 * n <= nbyte
      ensures o.hand == old(o.hand) + old(o.Queue())[..n] && o.Queue() == old(o.Queue())[n..]
    {
      hide Agrees, Tidy, View, f.InBytes, f.Size;
      ghost var queue, hand := o.Queue(), o.hand;
      assert InStep(o, flushed[..]);
      n := o.PopDamage(nbyte);
      assert queue == queue[..n] + queue[n..];
      forall r ensures r in queue + hand <==> r in queue[n..] + (hand + queue[..n]) {}
      SameOwed(f, flushed[..], o.copy, queue + hand, o.Queue() + o.hand);
    }

    /** An observer re-reads one row of a rectangle it holds, which leaves the rows under it. */
    method ReadRow(o: Observer, i: nat)
      requires Valid() && o in observers && i < |o.hand| && flushed != null
      modifies o`hand, o`copy
      ensures Valid()
      ensures o.copy == Copied(f, old(o.copy), flushed[..], TopRow(old(o.hand[i])))
      ensures o.hand == old(o.hand[..i]) + RowsUnder(old(o.hand[i])) + old(o.hand[i + 1..])
    {
      hide View, Tidy, f.InBytes, f.Size, TopRow, RowsUnder;
      ghost var queue, was, hand := o.Queue(), o.copy, o.hand;
      assert InStep(o, flushed[..]);
      RowSettles(f, flushed[..], was, queue + hand, |queue| + i);
      assert (queue + hand)[|queue| + i] == hand[i];
      assert (queue + hand)[..|queue| + i] == queue + hand[..i] && (queue + hand)[|queue| + i + 1..] == hand[i + 1..];
      var r := TopRow(o.hand[i]);
      var shown := flushed[..];
      var fmt := f;
      var held := o.copy;
      o.copy := seq(|held|, k requires 0 <= k < |held| == |shown| => if fmt.InBytes(r, k) then shown[k] else held[k]);
      o.hand := o.hand[..i] + RowsUnder(o.hand[i]) + o.hand[i + 1..];
      assert o.copy == Copied(f, was, flushed[..], TopRow(hand[i]));
      assert o.Queue() + o.hand == queue + hand[..i] + RowsUnder(hand[i]) + hand[i + 1..];
    }

    /** An observer with nothing queued and nothing in hand holds the flushed screen. */
    lemma {:induction false} DrainedHoldsScreen(o: Observer)
      requires Valid() && o in observers && o.count == 0 && o.hand == []
      ensures flushed != null && o.copy == flushed[..]
    {
      assert InStep(o, flushed[..]);
    }

    /** The observer's pixel is the flushed one. */
    ghost predicate Sees(o: Observer, x: nat, y: nat)
      requires f.Ok() && x < f.width && y < f.height
      reads this, flushed, o
    {
      && flushed != null && |o.copy| == f.Size() == flushed.Length
      && f.Pixel(o.copy, x, y) == f.Pixel(flushed[..], x, y)
    }

    /** Outside what an observer is owed, each of its pixels is the flushed one. */
    lemma {:induction false} ObserverSees(o: Observer, x: nat, y: nat)
      requires Valid() && o in observers && x < f.width && y < f.height
      requires forall r | r in o.Queue() + o.hand :: !Within(r, x, y)
      ensures Sees(o, x, y)
    {
      hide View, Tidy, f.Pixel;
      assert InStep(o, flushed[..]);
      AgreesOnPixels(f, flushed[..], o.copy, o.Queue() + o.hand, x, y);
    }

    /** One observer changed, and nothing else. */
    lemma {:induction false} OneLook(a: Shot, k: nat, l: Look)
      requires Valid() && |a.looks| == |observers| && k < |observers| && flushed != null
      requires a.pixels == pixels[..] && a.calls == calls && a.flushed == Some(flushed[..])
      requires forall j | 0 <= j < |observers| ::
                 observers[j].Shape() && observers[j].Seen() == if j == k then l else a.looks[j]
      ensures Shown() == a.(looks := a.looks[k := l])
    {
      hide Screen.Valid, Observer.Seen, Sized;
      assert Shown().looks == a.looks[k := l];
    }

    lemma {:induction false} SeenBy()
      requires Valid()
      ensures forall o | o in observers :: o.Shape()
      ensures forall o, x, y | o in observers && 0 <= x < f.width && 0 <= y < f.height
                && (forall r | r in o.Queue() + o.hand :: !Within(r, x, y)) :: Sees(o, x, y)
      ensures forall o | o in observers && o.count == 0 && o.hand == [] :: flushed != null && o.copy == flushed[..]
    {
      hide View, Agrees, Tidy;
      Shapes();
      forall o, x, y | o in observers && 0 <= x < f.width && 0 <= y < f.height
                && (forall r | r in o.Queue() + o.hand :: !Within(r, x, y))
        ensures Sees(o, x, y)
      {
        ObserverSees(o, x, y);
      }
      forall o | o in observers && o.count == 0 && o.hand == [] ensures flushed != null && o.copy == flushed[..] {
        DrainedHoldsScreen(o);
      }
    }
  }

  /** The screen between two steps: its pixels, the flushed copy, its observers, and how often it asked for memory. */
  datatype Shot = Shot(pixels: seq<byte>, flushed: Option<seq<byte>>, looks: seq<Look>, calls: nat)

  ghost predicate Sized(f: Format, a: Shot) {
    && f.Ok() && |a.pixels| == f.Size() && (a.flushed.Some? ==> |a.flushed.value| == f.Size())
    && (a.flushed.None? <==> a.looks == [])
    && forall i | 0 <= i < |a.looks| :: |a.looks[i].copy| == f.Size()
  }

  /** A flush of a rectangle, if anyone observes. */
  ghost predicate Flushed(f: Format, r: Rect, a: Shot, b: Shot)
    requires Sized(f, a)
  {
    if a.flushed.None? then b == a
    else
      && b.pixels == a.pixels && b.calls == a.calls
      && b.flushed == Some(Copied(f, a.flushed.value, a.pixels, r))
      && |b.looks| == |a.looks| && forall i | 0 <= i < |a.looks| :: b.looks[i] == Told(f, r, a.looks[i])
  }

  /** The observers may be added to the screens: each has nothing queued, and is not there already. */
  ghost predicate Ready(screens: seq<Screen>, os: seq<Observer>)
    reads screens, os, set o: Observer | o in os :: o.q
  {
    && |os| == |screens| && (forall i, j | 0 <= i < j < |screens| :: screens[i] != screens[j])
    && forall i | 0 <= i < |screens| ::
         && screens[i].f.Ok() && os[i].Shape() && os[i].Queue() == [] && os[i].hand == [screens[i].f.Whole()]
         && |os[i].copy| == screens[i].f.Size()
         && forall k | 0 <= k < |screens[i].observers| ::
              screens[i].observers[k] != os[i] && screens[i].observers[k].q != os[i].q
  }

  /** The screen has a place for another observer, and memory for a flushed copy if it has none. */
  ghost predicate Takes(s: Screen)
    reads s
  {
    |s.observers| < s.maxObservers && (s.observers == [] ==> !s.fails(s.calls))
  }

  method AttachAt(screens: seq<Screen>, d: nat, o: Observer) returns (ok: bool)
    requires d < |screens| && (forall i | 0 <= i < |screens| :: screens[i].Valid())
    requires forall i | 0 <= i < |screens| && i != d :: screens[i] != screens[d]
    requires o.Shape() && o.Queue() == [] && o.hand == [screens[d].f.Whole()]
    requires screens[d].f.Ok() && |o.copy| == screens[d].f.Size()
    requires forall k | 0 <= k < |screens[d].observers| ::
               screens[d].observers[k] != o && screens[d].observers[k].q != o.q
    modifies screens[d]
    ensures forall i | 0 <= i < |screens| :: screens[i].Valid()
    ensures ok <==> old(Takes(screens[d]))
    ensures if ok then Joined(screens[d], o, old(screens[d].observers), old(screens[d].flushed))
            else screens[d].observers == old(screens[d].observers) && screens[d].flushed == old(screens[d].flushed)
  {
    hide Agrees, Tidy, View, Screen.InStep, Observer.Queue;
    ok := screens[d].Attach(o);
  }

  method DetachAt(screens: seq<Screen>, d: nat, o: Observer, ghost observers: seq<Observer>,
                  ghost flushed: array?<byte>)
    requires d < |screens| && (forall i | 0 <= i < |screens| :: screens[i].Valid())
    requires forall i | 0 <= i < |screens| && i != d :: screens[i] != screens[d]
    requires Joined(screens[d], o, observers, flushed)
    modifies screens[d]
    ensures forall i | 0 <= i < |screens| :: screens[i].Valid()
    ensures screens[d].observers == observers && screens[d].flushed == flushed
  {
    hide Agrees, Tidy, View, Screen.InStep, Observer.Queue;
    screens[d].Detach(o);
    assert (observers + [o])[..|observers|] == observers;
  }

  /** Registers an observer on every screen, or on none. */
  method AttachAll(screens: seq<Screen>, os: seq<Observer>) returns (ok: bool)
    requires (forall i | 0 <= i < |screens| :: screens[i].Valid()) && Ready(screens, os)
    modifies screens
    ensures forall i | 0 <= i < |screens| :: screens[i].Valid()
    ensures ok <==> forall i | 0 <= i < |screens| :: old(Takes(screens[i]))
    ensures ok ==> forall i | 0 <= i < |screens| :: screens[i].observers == old(screens[i].observers) + [os[i]]
    ensures !ok ==>
              forall i | 0 <= i < |screens| ::
                screens[i].observers == old(screens[i].observers) && screens[i].flushed == old(screens[i].flushed)
  {
    hide Screen.Valid, View, Observer.Queue, Takes;
    ghost var observers := seq(|screens|, i requires 0 <= i < |screens| reads screens => screens[i].observers);
    ghost var flushed := seq(|screens|, i requires 0 <= i < |screens| reads screens => screens[i].flushed);
    ok := true;
    var done := 0;
    while done < |screens| && ok
      invariant done <= |screens| && (!ok ==> done > 0) && forall i | 0 <= i < |screens| :: screens[i].Valid()
      invariant forall i | 0 <= i < (if ok then done else done - 1) ::
                  Joined(screens[i], os[i], observers[i], flushed[i])
      invariant forall i | (if ok then done else done - 1) <= i < |screens| ::
                  screens[i].observers == observers[i] && screens[i].flushed == flushed[i]
      invariant forall i | done <= i < |screens| :: Takes(screens[i]) == old(Takes(screens[i]))
      invariant forall i | 0 <= i < (if ok then done else done - 1) :: old(Takes(screens[i]))
      invariant !ok ==> !old(Takes(screens[done - 1]))
      decreases |screens| - done, ok
    {
      ok := AttachAt(screens, done, os[done]);
      done := done + 1;
    }
    if !ok {
      DetachFirst(screens, os, done - 1, observers, flushed);
    }
  }

  /** Takes observers off the first screens again, which leaves these as they were before. */
  method DetachFirst(screens: seq<Screen>, os: seq<Observer>, n: nat, ghost observers: seq<seq<Observer>>,
                     ghost flushed: seq<array?<byte>>)
    requires n <= |screens| == |os| == |observers| == |flushed|
    requires forall i, j | 0 <= i < j < |screens| :: screens[i] != screens[j]
    requires forall i | 0 <= i < |screens| :: screens[i].Valid()
    requires forall j | 0 <= j < n :: Joined(screens[j], os[j], observers[j], flushed[j])
    modifies screens
    ensures forall i | 0 <= i < |screens| :: screens[i].Valid()
    ensures forall j | 0 <= j < n :: screens[j].observers == observers[j] && screens[j].flushed == flushed[j]
    ensures forall j | n <= j < |screens| ::
              screens[j].observers == old(screens[j].observers) && screens[j].flushed == old(screens[j].flushed)
  {
    hide Screen.Valid, Joined;
    for i := 0 to n
      invariant forall j | 0 <= j < |screens| :: screens[j].Valid()
      invariant forall j | i <= j < n :: Joined(screens[j], os[j], observers[j], flushed[j])
      invariant forall j | 0 <= j < i :: screens[j].observers == observers[j] && screens[j].flushed == flushed[j]
      invariant forall j | n <= j < |screens| ::
                  screens[j].observers == old(screens[j].observers) && screens[j].flushed == old(screens[j].flushed)
    {
      DetachAt(screens, i, os[i], observers[i], flushed[i]);
    }
  }

  /** The screen as it was with one more observer. */
  ghost predicate Joined(s: Screen, o: Observer, observers: seq<Observer>, flushed: array?<byte>)
    reads s
  {
    && s.observers == observers + [o]
    && (observers == [] ==> flushed == null) && (observers != [] ==> s.flushed == flushed)
  }

  datatype Step =
    | Write(at: nat, data: seq<byte>)
    | Flush(req: Rect, raw: Rect)
    | Damage(observer: nat, nbyte: nat)
    | Reread(observer: nat, held: nat)
    | Leave(observer: nat)
    | Join(ring: nat)

  /** The pixels once data was stored from a place on, as far as it fits. */
  function Stored(pixels: seq<byte>, at: nat, data: seq<byte>): seq<byte> {
    if at >= |pixels| then pixels
    else
      var n := if |data| < |pixels| - at then |data| else |pixels| - at;
      pixels[..at] + data[..n] + pixels[at + n..]
  }

  /** The rectangles that fit the bytes of a read move into the hand. */
  function Taken(l: Look, nbyte: nat): Look {
    var n := if |l.queue| < nbyte / 8 then |l.queue| else nbyte / 8;
    l.(queue := l.queue[n..], hand := l.hand + l.queue[..n])
  }

  /** The first row of a rectangle in hand is read again. */
  ghost function Settled(f: Format, flushed: seq<byte>, l: Look, held: nat): Look
    requires f.Ok() && |l.copy| == |flushed| && held < |l.hand|
  {
    var r := l.hand[held];
    l.(copy := Copied(f, l.copy, flushed, TopRow(r)), hand := l.hand[..held] + RowsUnder(r) + l.hand[held + 1..])
  }

  /** One more observer, if there is a place for it and, for the first, memory for a copy of the pixels. */
  ghost predicate Joins(f: Format, max: nat, fails: nat -> bool, ring: nat, a: Shot, b: Shot)
    requires Sized(f, a)
  {
    if |a.looks| >= max then b == a
    else if a.looks == [] && fails(a.calls) then b == a.(calls := a.calls + 1)
    else
      && |b.looks| == |a.looks| + 1
      && b.looks[|a.looks|].(copy := []) == Look([], [], [f.Whole()], ring)
      && b == Shot(a.pixels, Some(if a.looks == [] then a.pixels else a.flushed.value), a.looks + [b.looks[|a.looks|]],
                   a.calls + if a.looks == [] then 1 else 0)
  }

  /** One step on values: what each call does to the pixels, the flushed copy and every observer. */
  ghost predicate Next(f: Format, max: nat, fails: nat -> bool, step: Step, a: Shot, b: Shot) {
    && Sized(f, a)
    && match step
       case Write(at, data) => b == a.(pixels := Stored(a.pixels, at, data))
       case Flush(req, raw) =>
         if !f.Inside(req) then b == a else exists r :: Grown(f, req, raw, r) && Flushed(f, r, a, b)
       case Damage(k, nbyte) =>
         b == if k < |a.looks| then a.(looks := a.looks[k := Taken(a.looks[k], nbyte)]) else a
       case Reread(k, held) =>
         b == if k < |a.looks| && held < |a.looks[k].hand|
              then a.(looks := a.looks[k := Settled(f, a.flushed.value, a.looks[k], held)]) else a
       case Leave(k) =>
         if k >= |a.looks| then b == a
         else
           var n := |a.looks| - 1;
           b == a.(looks := a.looks[k := a.looks[n]][..n], flushed := if n == 0 then None else a.flushed)
       case Join(ring) => if 2 <= ring <= 256 then Joins(f, max, fails, ring, a, b) else b == a
  }

  method DoWrite(s: Screen, at: nat, data: seq<byte>)
    requires s.Valid()
    modifies s.pixels
    ensures s.Valid() && s.Shown() == old(s.Shown()).(pixels := Stored(old(s.pixels[..]), at, data))
  {
    hide Agrees, Tidy, View, Observer.Seen, Sized;
    s.Shapes();
    var n := s.WriteData(at, data);
    assert s.flushed != null ==> s.flushed[..] == old(s.flushed[..]);
    assert s.Shown().looks == old(s.Shown()).looks;
  }

  lemma {:induction false} TakenIs(l: Look, nbyte: nat, n: nat)
    requires n <= |l.queue| && (n == |l.queue| || 8 * (n + 1) > nbyte) && 8 * n <= nbyte
    ensures Taken(l, nbyte) == l.(queue := l.queue[n..], hand := l.hand + l.queue[..n])
  {
  }

  method DoDamage(s: Screen, k: nat, nbyte: nat)
    requires s.Valid() && k < |s.observers|
    modifies s.observers[k]
    ensures s.Valid() && s.observers == old(s.observers)
    ensures var a := old(s.Shown()); s.Shown() == a.(looks := a.looks[k := Taken(a.looks[k], nbyte)])
  {
    hide Agrees, Tidy, View, Sized, Taken, Screen.InStep, Observer.Queue;
    s.Shapes();
    assert s.observers[k] in s.observers;
    ghost var a, l := s.Shown(), s.observers[k].Seen();
    var n := s.ReadDamage(s.observers[k], nbyte);
    s.Shapes();
    TakenIs(l, nbyte, n);
    s.OneLook(a, k, Taken(l, nbyte));
  }

  method DoReread(s: Screen, k: nat, held: nat)
    requires s.Valid() && k < |s.observers| && held < |s.observers[k].hand|
    modifies s.observers[k]
    ensures s.Valid() && s.observers == old(s.observers)
    ensures var a := old(s.Shown());
            s.Shown() == a.(looks := a.looks[k := Settled(s.f, a.flushed.value, a.looks[k], held)])
  {
    hide Agrees, Tidy, View, Copied, TopRow, RowsUnder;
    s.Shapes();
    assert s.observers[k] in s.observers;
    ghost var a, l := s.Shown(), s.observers[k].Seen();
    s.ReadRow(s.observers[k], held);
    s.Shapes();
    s.OneLook(a, k, Settled(s.f, s.flushed[..], l, held));
  }

  method DoLeave(s: Screen, k: nat)
    requires s.Valid() && k < |s.observers|
    modifies s`flushed, s`observers
    ensures s.Valid() && s.Repr() <= old(s.Repr()) && (s.flushed == null || s.flushed == old(s.flushed))
    ensures Next(s.f, s.maxObservers, s.fails, Leave(k), old(s.Shown()), s.Shown())
  {
    hide Agrees, Tidy, View, Observer.Seen, Screen.InStep, Observer.Queue, Sized, Parts;
    s.Shapes();
    ghost var a, os, n := s.Shown(), s.observers, |s.observers| - 1;
    s.Detach(s.observers[k]);
    PartsOf(os, s.observers);
    assert forall i | 0 <= i < n :: s.observers[i] == if i == k then os[n] else os[i];
    assert s.Shown().looks == a.looks[k := a.looks[n]][..n];
  }

  method DoJoin(s: Screen, ring: nat)
    requires s.Valid() && 2 <= ring <= 256
    modifies s`flushed, s`observers, s`calls
    ensures s.Valid() && Joins(s.f, s.maxObservers, s.fails, ring, old(s.Shown()), s.Shown())
    ensures forall x | x in s.Repr() :: x in old(s.Repr()) || fresh(x)
    ensures s.flushed == null || s.flushed == old(s.flushed) || fresh(s.flushed)
  {
    hide Agrees, Tidy, View;
    s.Shapes();
    var o := new Observer(s.f, ring);
    var ok := s.Attach(o);
    s.Shapes();
    ghost var a := old(s.Shown());
    if ok {
      assert s.Shown().looks == a.looks + [o.Seen()];
    } else {
      assert s.Shown().looks == a.looks;
    }
  }

  /** A step of the writer. */
  method DoWriter(s: Screen, step: Step)
    requires s.Valid() && (step.Write? || step.Flush?)
    requires step.Flush? && s.f.Inside(step.req) ==> Usable(s.f, step.req, step.raw)
    modifies s.pixels, s.flushed, s.Repr()
    ensures s.Valid() && s.observers == old(s.observers) && s.flushed == old(s.flushed)
    ensures Next(s.f, s.maxObservers, s.fails, step, old(s.Shown()), s.Shown())
  {
    hide Screen.Valid, Usable, Stored, Flushed, Grown;
    match step
    case Write(at, data) =>
      DoWrite(s, at, data);
    case Flush(req, raw) =>
      if s.f.Inside(req) {
        var r := s.FlushRect(req, raw);
      }
  }

  /** A step of an observer. */
  method DoObserver(s: Screen, step: Step)
    requires s.Valid() && (step.Damage? || step.Reread?)
    modifies s.Repr()
    ensures s.Valid() && s.observers == old(s.observers) && s.flushed == old(s.flushed)
    ensures Next(s.f, s.maxObservers, s.fails, step, old(s.Shown()), s.Shown())
  {
    hide Screen.Valid, Taken, Settled;
    var k := step.observer;
    if k < |s.observers| {
      assert s.observers[k] in s.observers;
      if step.Damage? {
        DoDamage(s, k, step.nbyte);
      } else if step.held < |s.observers[k].hand| {
        DoReread(s, k, step.held);
      }
    }
  }

  /** A step that an observer comes or goes by. */
  method DoAudience(s: Screen, step: Step)
    requires s.Valid() && (step.Leave? || step.Join?)
    modifies s`flushed, s`observers, s`calls
    ensures s.Valid() && Next(s.f, s.maxObservers, s.fails, step, old(s.Shown()), s.Shown())
    ensures forall x | x in s.Repr() :: x in old(s.Repr()) || fresh(x)
    ensures s.flushed == null || s.flushed == old(s.flushed) || fresh(s.flushed)
  {
    hide Screen.Valid, Joins;
    match step
    case Leave(k) =>
      if k < |s.observers| {
        DoLeave(s, k);
      }
    case Join(ring) =>
      if 2 <= ring <= 256 {
        DoJoin(s, ring);
      }
  }

  /** One step. */
  method Do(s: Screen, step: Step)
    requires s.Valid() && (step.Flush? && s.f.Inside(step.req) ==> Usable(s.f, step.req, step.raw))
    modifies s, s.pixels, s.flushed, s.Repr()
    ensures s.Valid() && Next(s.f, s.maxObservers, s.fails, step, old(s.Shown()), s.Shown())
    ensures forall x | x in s.Repr() :: x in old(s.Repr()) || fresh(x)
    ensures s.flushed == null || s.flushed == old(s.flushed) || fresh(s.flushed)
  {
    hide Screen.Valid, Usable, Next, Parts;
    if step.Write? || step.Flush? {
      DoWriter(s, step);
    } else if step.Damage? || step.Reread? {
      DoObserver(s, step);
    } else {
      DoAudience(s, step);
    }
  }

  /**
   * Any run of a writer and observers that come and go, the backing's columns aligned where they are taken: step by
   * step it does to the pixels, the flushed copy and every observer what each call should; and at its end each
   * observer sees the flushed screen outside what it is owed, and one that is owed nothing holds it whole.
   */
  method Run(s: Screen, steps: seq<Step>) returns (ghost trace: seq<Shot>)
    requires s.Valid()
    requires forall i | 0 <= i < |steps| && steps[i].Flush? && s.f.Inside(steps[i].req) ::
               Usable(s.f, steps[i].req, steps[i].raw)
    modifies s, s.pixels, s.flushed, s.Repr()
    ensures s.Valid()
    ensures |trace| == |steps| + 1 && trace[0] == old(s.Shown()) && trace[|steps|] == s.Shown()
    ensures forall i | 0 <= i < |steps| :: Next(s.f, s.maxObservers, s.fails, steps[i], trace[i], trace[i + 1])
    ensures forall o, x, y | o in s.observers && 0 <= x < s.f.width && 0 <= y < s.f.height
              && (forall r | r in o.Queue() + o.hand :: !Within(r, x, y)) :: s.Sees(o, x, y)
    ensures forall o | o in s.observers && o.count == 0 && o.hand == [] :: o.copy == s.flushed[..]
  {
    trace := RunSteps(s, steps);
    s.SeenBy();
  }

  method RunSteps(s: Screen, steps: seq<Step>) returns (ghost trace: seq<Shot>)
    requires s.Valid()
    requires forall i | 0 <= i < |steps| && steps[i].Flush? && s.f.Inside(steps[i].req) ::
               Usable(s.f, steps[i].req, steps[i].raw)
    modifies s, s.pixels, s.flushed, s.Repr()
    ensures s.Valid()
    ensures |trace| == |steps| + 1 && trace[0] == old(s.Shown()) && trace[|steps|] == s.Shown()
    ensures forall i | 0 <= i < |steps| :: Next(s.f, s.maxObservers, s.fails, steps[i], trace[i], trace[i + 1])
  {
    hide Screen.Valid, Usable, Next, Screen.Shown;
    trace := [s.Shown()];
    for i := 0 to |steps|
      invariant s.Valid() && forall x | x in s.Repr() :: x in old(s.Repr()) || fresh(x)
      invariant s.flushed == null || s.flushed == old(s.flushed) || fresh(s.flushed)
      invariant |trace| == i + 1 && trace[0] == old(s.Shown()) && trace[i] == s.Shown()
      invariant forall j | 0 <= j < i :: Next(s.f, s.maxObservers, s.fails, steps[j], trace[j], trace[j + 1])
    {
      Do(s, steps[i]);
      trace := trace + [s.Shown()];
    }
  }
}
