/** Where the pixels of a screen lie, and which bytes a rectangle of them takes. */
module FrameLayout {
  import opened Arith
  import opened Bytes

  datatype Rect = Rect(x: nat, y: nat, w: nat, h: nat)

  /** A screen of `bits` bits a pixel: rgb565, rgb888, mono1 or gray4. */
  datatype Format = Format(width: nat, height: nat, bits: nat) {
    predicate Ok() {
      0 < width < 0x1_0000 && 0 < height < 0x1_0000 && (bits == 16 || bits == 24 || bits == 1 || bits == 4)
    }

    /** Bytes of one row that hold `pixels` pixels. */
    function RowBytes(pixels: nat): nat {
      (pixels * bits + 7) / 8
    }

    function Stride(): (s: nat)
      requires Ok()
      ensures s > 0
    {
      RowBytes(width)
    }

    function Size(): nat
      requires Ok()
    {
      height * Stride()
    }

    predicate Inside(r: Rect) {
      0 < r.w && 0 < r.h && r.x + r.w <= width && r.y + r.h <= height
    }

    /** The columns begin on a byte, and end on one or at the edge of the screen. */
    predicate Aligned(r: Rect) {
      r.x * bits % 8 == 0 && ((r.x + r.w) * bits % 8 == 0 || r.x + r.w == width)
    }

    predicate Covers(r: Rect, s: Rect) {
      r.x <= s.x && r.y <= s.y && r.x + r.w >= s.x + s.w && r.y + r.h >= s.y + s.h
    }

    function Whole(): Rect {
      Rect(0, 0, width, height)
    }

    /** The byte at `k` belongs to a row and column of the rectangle, as a flush or a read of it counts them. */
    predicate InBytes(r: Rect, k: nat)
      requires Ok()
    {
      r.y <= k / Stride() < r.y + r.h && RowBytes(r.x) <= k % Stride() < RowBytes(r.x) + RowBytes(r.w)
    }

    /** The first byte of a pixel in its row. */
    function PixelByte(x: nat): nat {
      x * bits / 8
    }

    function ByteAt(x: nat, y: nat): nat
      requires Ok()
    {
      y * Stride() + PixelByte(x)
    }

    /** The value of a pixel: its bytes, or its bits of the byte it shares, the leftmost in the high bits. */
    function Pixel(buf: seq<byte>, x: nat, y: nat): seq<byte>
      requires Ok() && |buf| == Size() && x < width && y < height
    {
      PixelInBuffer(x, y);
      var at := ByteAt(x, y);
      if bits >= 8 then buf[at..at + bits / 8]
      else if bits == 4 then [if x % 2 == 0 then buf[at] / 16 else buf[at] % 16]
      else [buf[at] / Weight(x % 8) % 2]
    }

    lemma {:induction false} PixelInRow(x: nat)
      requires Ok() && x < width
      ensures PixelByte(x) < Stride() && (bits >= 8 ==> PixelByte(x) + bits / 8 <= Stride())
    {
    }

    lemma {:induction false} PixelInBuffer(x: nat, y: nat)
      requires Ok() && x < width && y < height
      ensures ByteAt(x, y) < Size() && (bits >= 8 ==> ByteAt(x, y) + bits / 8 <= Size())
    {
      PixelInRow(x);
      Product(y, 1, Stride());
      MulMono(y + 1, height, Stride());
    }

    /** Bytes that agree where a pixel lies give the same pixel. */
    lemma {:induction false} SamePixel(a: seq<byte>, b: seq<byte>, x: nat, y: nat)
      requires Ok() && |a| == |b| == Size() && x < width && y < height
      requires forall k | 0 <= k < |a| && k / Stride() == y
               && PixelByte(x) <= k % Stride() < PixelByte(x) + PixelWidth() :: a[k] == b[k]
      ensures Pixel(a, x, y) == Pixel(b, x, y)
    {
      PixelInRow(x);
      PixelInBuffer(x, y);
      var at := ByteAt(x, y);
      hide RowBytes, Stride, PixelByte;
      forall k | at <= k < at + PixelWidth() ensures a[k] == b[k] {
        DivInUnit(y, k - y * Stride(), Stride());
        ModInUnit(y, k - y * Stride(), Stride());
      }
      if bits >= 8 {
        assert a[at..at + bits / 8] == b[at..at + bits / 8];
      }
    }

    function PixelWidth(): nat {
      if bits >= 8 then bits / 8 else 1
    }

    lemma {:induction false} WideBytes(n: nat)
      ensures bits == 16 ==> RowBytes(n) == 2 * n && PixelByte(n) == 2 * n
      ensures bits == 24 ==> RowBytes(n) == 3 * n && PixelByte(n) == 3 * n
    {
    }

    /** The bytes of a pixel inside an aligned rectangle are bytes of the rectangle. */
    lemma {:induction false} PixelInside(r: Rect, x: nat, j: nat)
      requires Ok() && Inside(r) && Aligned(r) && r.x <= x < r.x + r.w && j < PixelWidth()
      ensures RowBytes(r.x) <= PixelByte(x) + j < RowBytes(r.x) + RowBytes(r.w)
    {
      if bits >= 8 {
        hide RowBytes, PixelByte, Aligned;
        WideBytes(r.x);
        WideBytes(r.w);
        WideBytes(x);
      } else {
        SmallBytes(r, x);
      }
    }

    /** The bytes of a pixel outside an aligned rectangle are not. */
    lemma {:induction false} PixelOutside(r: Rect, x: nat, j: nat)
      requires Ok() && Inside(r) && Aligned(r) && x < width && !(r.x <= x < r.x + r.w) && j < PixelWidth()
      ensures !(RowBytes(r.x) <= PixelByte(x) + j < RowBytes(r.x) + RowBytes(r.w))
    {
      if bits >= 8 {
        hide RowBytes, PixelByte, Aligned;
        WideBytes(r.x);
        WideBytes(r.w);
        WideBytes(x);
      } else {
        SmallBytes(r, x);
      }
    }

    lemma {:induction false} SmallBytes(r: Rect, x: nat)
      requires Ok() && Inside(r) && Aligned(r) && x < width && bits < 8
      ensures RowBytes(r.x) <= PixelByte(x) < RowBytes(r.x) + RowBytes(r.w) <==> r.x <= x < r.x + r.w
    {
      hide RowBytes, PixelByte, Aligned;
      if bits == 1 {
        OfBits(r, x);
        SpanBytes(r.x, r.w, x, 1, width);
      } else {
        OfNibbles(r, x);
        SpanBytes(r.x * 4, r.w * 4, x * 4, 4, width * 4);
      }
    }

    lemma {:induction false} OfBits(r: Rect, x: nat)
      requires bits == 1 && Aligned(r)
      ensures r.x % 8 == 0 && ((r.x + r.w) % 8 == 0 || r.x + r.w == width)
      ensures RowBytes(r.x) == (r.x + 7) / 8 && RowBytes(r.w) == (r.w + 7) / 8 && PixelByte(x) == x / 8
    {
    }

    lemma {:induction false} OfNibbles(r: Rect, x: nat)
      requires bits == 4 && Aligned(r)
      ensures r.x * 4 % 8 == 0 && ((r.x * 4 + r.w * 4) % 8 == 0 || r.x + r.w == width)
      ensures RowBytes(r.x) == (r.x * 4 + 7) / 8 && RowBytes(r.w) == (r.w * 4 + 7) / 8 && PixelByte(x) == x * 4 / 8
    {
    }
  }

  /** The bytes that hold a span of bits from a whole byte on, to a whole byte or the edge. */
  lemma {:induction false} SpanBytes(from: nat, len: nat, at: nat, b: nat, edge: nat)
    requires from % 8 == 0 && ((from + len) % 8 == 0 || from + len == edge) && b > 0 && at + b <= edge
    requires at + b <= from || from <= at
    requires at + b <= from + len || from + len <= at
    ensures (from + 7) / 8 <= at / 8 < (from + 7) / 8 + (len + 7) / 8 <==> from <= at < from + len
  {
    if at < from {
      BytesBefore(from, at);
    } else if at < from + len {
      BytesWithin(from, len, at);
    } else {
      BytesAfter(from, len, at);
    }
  }

  lemma {:induction false} BytesBefore(from: nat, at: nat)
    requires from % 8 == 0 && at < from
    ensures at / 8 < (from + 7) / 8
  {
  }

  lemma {:induction false} BytesWithin(from: nat, len: nat, at: nat)
    requires from % 8 == 0 && from <= at < from + len
    ensures (from + 7) / 8 <= at / 8 < (from + 7) / 8 + (len + 7) / 8
  {
    var a := from / 8;
    assert from == 8 * a;
  }

  lemma {:induction false} BytesAfter(from: nat, len: nat, at: nat)
    requires from % 8 == 0 && (from + len) % 8 == 0 && from + len <= at
    ensures at / 8 >= (from + 7) / 8 + (len + 7) / 8
  {
    var a, c := from / 8, (from + len) / 8;
    assert from == 8 * a && from + len == 8 * c;
  }

  function Weight(i: nat): (w: nat)
    requires i < 8
    ensures w > 0
  {
    [128, 64, 32, 16, 8, 4, 2, 1][i]
  }

  lemma {:induction false} ModInUnit(u: nat, off: nat, unit: nat)
    requires off < unit
    ensures (u * unit + off) % unit == off
  {
    DivInUnit(u, off, unit);
  }
}
