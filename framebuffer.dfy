/** Pure definitions behind the screen's double buffer: the byte layout of a
    pixel, the depth-tested write performed by StorePixel, the effect of
    ClearScreenColor, and what any sequence of writes does to the depth buffer. */
module Framebuffer {

  /** Bytes per pixel. Each pixel is stored as blue, green, red. */
  const Channels: nat := 3

  predicate IsByte(v: int) { 0 <= v < 256 }

  predicate AllBytes(s: seq<int>) { forall i :: 0 <= i < |s| ==> IsByte(s[i]) }

  /** A colour as the screen stores it: one byte per channel. */
  datatype Pixel = Pixel(blue: int, green: int, red: int)

  predicate ValidPixel(p: Pixel) { IsByte(p.blue) && IsByte(p.green) && IsByte(p.red) }

  /** Channel k of a pixel in buffer order: 0 is blue, 1 is green, 2 is red. */
  function Channel(p: Pixel, k: nat): (v: int)
    requires k < Channels
    ensures ValidPixel(p) ==> IsByte(v)
  {
    if k == 0 then p.blue else if k == 1 then p.green else p.red
  }

  /** The default colour of StorePixel and ClearScreenColor, {255, 255, 255}:
      the valid pixel that no valid pixel exceeds in any channel. */
  function White(): (p: Pixel)
    ensures ValidPixel(p)
    ensures forall q: Pixel, k: nat :: ValidPixel(q) && k < Channels ==> Channel(q, k) <= Channel(p, k)
  {
    Pixel(255, 255, 255)
  }

  /** The max macro of Windows.h, ((a) > (b)) ? (a) : (b): the larger of the two. */
  function Max(a: int, b: int): (m: int)
    ensures m >= a && m >= b
    ensures m == a || m == b
  {
    if a > b then a else b
  }

  function Zeros(n: nat): seq<int> { seq(n, _ => 0) }

  lemma MulMonotone(a: nat, b: nat, c: nat)
    requires a <= b
    ensures a * c <= b * c
  {
  }

  /** The depth-buffer offset StorePixel computes for (x, y): y * width + x. */
  function DepthOffset(w: nat, x: nat, y: nat): nat { y * w + x }

  /** Index of an in-screen pixel (x, y) in the depth buffer. */
  function PixelIndex(w: nat, h: nat, x: nat, y: nat): (q: nat)
    requires x < w && y < h
    ensures q < w * h
  {
    MulMonotone(y + 1, h, w);
    DepthOffset(w, x, y)
  }

  /** Index of channel k of pixel (x, y) in a pixel buffer: 3 * (y * width + x) + k. */
  function ByteIndex(w: nat, h: nat, x: nat, y: nat, k: nat): (b: nat)
    requires x < w && y < h && k < Channels
    ensures b < Channels * (w * h)
    ensures b / Channels == PixelIndex(w, h, x, y) && b % Channels == k
  {
    Channels * PixelIndex(w, h, x, y) + k
  }

  /** A pixel in an earlier row has a smaller depth offset. */
  lemma EarlierRowFirst(w: nat, x: nat, y: nat, x': nat, y': nat)
    requires x < w && y < y'
    ensures DepthOffset(w, x, y) < DepthOffset(w, x', y')
  {
    calc {
      DepthOffset(w, x, y);
    ==
      y * w + x;
    <
      y * w + w;
    ==
      (y + 1) * w;
    <=  { MulMonotone(y + 1, y', w); }
      y' * w;
    <=
      DepthOffset(w, x', y');
    }
  }

  /** Two different pixels have different depth entries. */
  lemma PixelIndexInjective(w: nat, h: nat, x: nat, y: nat, x': nat, y': nat)
    requires x < w && y < h && x' < w && y' < h
    ensures x != x' || y != y' ==> PixelIndex(w, h, x, y) != PixelIndex(w, h, x', y')
  {
    if y < y' {
      EarlierRowFirst(w, x, y, x', y');
    } else if y' < y {
      EarlierRowFirst(w, x', y', x, y);
    }
  }

  /** Every byte of a pixel buffer is a channel of some in-screen pixel (by
      PixelIndexInjective, of only one). */
  lemma ByteIndexOnto(w: nat, h: nat, j: nat)
    requires j < Channels * (w * h)
    ensures w > 0
    ensures (j / Channels) % w < w && (j / Channels) / w < h
    ensures ByteIndex(w, h, (j / Channels) % w, (j / Channels) / w, j % Channels) == j
  {
    var q := j / Channels;
    assert q < w * h;
    var x, y := q % w, q / w;
    assert q == y * w + x;
    if y >= h {
      MulMonotone(h, y, w);
    }
  }

  /** The part of the screen a write touches: the back pixel buffer and the depth buffer. */
  datatype Frame = Frame(pixels: seq<int>, depth: seq<int>)

  predicate WellFormed(f: Frame, w: nat, h: nat)
  {
    && |f.depth| == w * h
    && |f.pixels| == Channels * (w * h)
    && AllBytes(f.depth)
    && AllBytes(f.pixels)
  }

  /** StorePixel(x, y, z, p): a depth-tested write of pixel (x, y). */
  function Store(f: Frame, w: nat, h: nat, x: nat, y: nat, z: int, p: Pixel): (r: Frame)
    requires WellFormed(f, w, h) && x < w && y < h && IsByte(z) && ValidPixel(p)
    ensures WellFormed(r, w, h)
    // the depth entry becomes the larger of the stored and the written depth
    ensures r.depth[PixelIndex(w, h, x, y)] == Max(z, f.depth[PixelIndex(w, h, x, y)])
    // closer: the colour replaces the pixel; equal depth: channel-wise maximum
    ensures forall k :: 0 <= k < Channels ==>
      r.pixels[ByteIndex(w, h, x, y, k)] ==
        if f.depth[PixelIndex(w, h, x, y)] < z then Channel(p, k)
        else if f.depth[PixelIndex(w, h, x, y)] == z then Max(Channel(p, k), f.pixels[ByteIndex(w, h, x, y, k)])
        else f.pixels[ByteIndex(w, h, x, y, k)]
    // farther: nothing changes
    ensures f.depth[PixelIndex(w, h, x, y)] > z ==> r == f
    // only the pixel's three bytes and its depth entry can change
    ensures forall q :: 0 <= q < |f.depth| && q != PixelIndex(w, h, x, y) ==> r.depth[q] == f.depth[q]
    ensures forall j :: 0 <= j < |f.pixels| && j / Channels != PixelIndex(w, h, x, y) ==> r.pixels[j] == f.pixels[j]
  {
    var q := PixelIndex(w, h, x, y);
    var b := Channels * q;
    if f.depth[q] < z then
      Frame(f.pixels[b := p.blue][b + 1 := p.green][b + 2 := p.red], f.depth[q := z])
    else if f.depth[q] == z then
      Frame(f.pixels[b := Max(p.blue, f.pixels[b])]
                    [b + 1 := Max(p.green, f.pixels[b + 1])]
                    [b + 2 := Max(p.red, f.pixels[b + 2])], f.depth)
    else
      f
  }

  /** A write to pixel (x, y) leaves every byte and the depth of every other pixel alone. */
  lemma StoreLeavesOtherPixels(f: Frame, w: nat, h: nat, x: nat, y: nat, z: int, p: Pixel,
                               x': nat, y': nat, k: nat)
    requires WellFormed(f, w, h) && x < w && y < h && IsByte(z) && ValidPixel(p)
    requires x' < w && y' < h && k < Channels && (x' != x || y' != y)
    ensures Store(f, w, h, x, y, z, p).pixels[ByteIndex(w, h, x', y', k)] == f.pixels[ByteIndex(w, h, x', y', k)]
    ensures Store(f, w, h, x, y, z, p).depth[PixelIndex(w, h, x', y')] == f.depth[PixelIndex(w, h, x', y')]
  {
    PixelIndexInjective(w, h, x, y, x', y');
  }

  /** One call of StorePixel, as recorded for a sequence of calls. */
  datatype Write = Write(x: nat, y: nat, z: int, color: Pixel)

  predicate ValidWrite(wr: Write, w: nat, h: nat)
  {
    wr.x < w && wr.y < h && IsByte(wr.z) && ValidPixel(wr.color)
  }

  predicate ValidWrites(ws: seq<Write>, w: nat, h: nat)
  {
    forall n :: 0 <= n < |ws| ==> ValidWrite(ws[n], w, h)
  }

  /** The frame after the writes ws are stored one after another. */
  function StoreAll(f: Frame, w: nat, h: nat, ws: seq<Write>): (r: Frame)
    requires WellFormed(f, w, h) && ValidWrites(ws, w, h)
    ensures WellFormed(r, w, h)
    decreases |ws|
  {
    if ws == [] then f
    else StoreAll(Store(f, w, h, ws[0].x, ws[0].y, ws[0].z, ws[0].color), w, h, ws[1..])
  }

  /** The depth buffer is monotone: no sequence of writes lowers any entry. */
  lemma {:induction false} DepthNeverDecreases(f: Frame, w: nat, h: nat, ws: seq<Write>, q: nat)
    requires WellFormed(f, w, h) && ValidWrites(ws, w, h) && q < w * h
    ensures StoreAll(f, w, h, ws).depth[q] >= f.depth[q]
    decreases |ws|
  {
    if ws != [] {
      var g := Store(f, w, h, ws[0].x, ws[0].y, ws[0].z, ws[0].color);
      assert ValidWrites(ws[1..], w, h);
      DepthNeverDecreases(g, w, h, ws[1..], q);
    }
  }

  /** After a sequence of writes, each pixel's depth is at least every depth written to it. */
  lemma {:induction false} DepthCoversWrites(f: Frame, w: nat, h: nat, ws: seq<Write>, n: nat)
    requires WellFormed(f, w, h) && ValidWrites(ws, w, h) && n < |ws|
    ensures StoreAll(f, w, h, ws).depth[PixelIndex(w, h, ws[n].x, ws[n].y)] >= ws[n].z
    decreases |ws|
  {
    var g := Store(f, w, h, ws[0].x, ws[0].y, ws[0].z, ws[0].color);
    assert ValidWrites(ws[1..], w, h);
    if n == 0 {
      DepthNeverDecreases(g, w, h, ws[1..], PixelIndex(w, h, ws[0].x, ws[0].y));
    } else {
      assert ws[1..][n - 1] == ws[n];
      DepthCoversWrites(g, w, h, ws[1..], n - 1);
    }
  }

  /** A pixel that no write in ws names keeps its bytes and its depth. */
  lemma {:induction false} UnwrittenPixelsKept(f: Frame, w: nat, h: nat, ws: seq<Write>,
                                               x: nat, y: nat, k: nat)
    requires WellFormed(f, w, h) && ValidWrites(ws, w, h)
    requires x < w && y < h && k < Channels
    requires forall n :: 0 <= n < |ws| ==> ws[n].x != x || ws[n].y != y
    ensures StoreAll(f, w, h, ws).pixels[ByteIndex(w, h, x, y, k)] == f.pixels[ByteIndex(w, h, x, y, k)]
    ensures StoreAll(f, w, h, ws).depth[PixelIndex(w, h, x, y)] == f.depth[PixelIndex(w, h, x, y)]
    decreases |ws|
  {
    if ws != [] {
      var g := Store(f, w, h, ws[0].x, ws[0].y, ws[0].z, ws[0].color);
      StoreLeavesOtherPixels(f, w, h, ws[0].x, ws[0].y, ws[0].z, ws[0].color, x, y, k);
      assert ValidWrites(ws[1..], w, h);
      assert forall n :: 0 <= n < |ws[1..]| ==> ws[1..][n] == ws[n + 1];
      UnwrittenPixelsKept(g, w, h, ws[1..], x, y, k);
    }
  }

  /** ClearScreenColor(c): every pixel whose depth is 0 takes the channel-wise
      maximum of c and its old bytes; everything else stays as it was. */
  function Cleared(f: Frame, w: nat, h: nat, c: Pixel): (r: Frame)
    requires WellFormed(f, w, h) && ValidPixel(c)
    ensures WellFormed(r, w, h)
    ensures r.depth == f.depth
    ensures forall j :: 0 <= j < |f.pixels| ==> r.pixels[j] >= f.pixels[j]
  {
    Frame(seq(|f.pixels|, j requires 0 <= j < |f.pixels| =>
                if f.depth[j / Channels] == 0 then Max(Channel(c, j % Channels), f.pixels[j])
                else f.pixels[j]),
          f.depth)
  }

  /** Two well-formed frames that agree on the depth buffer and on every
      channel of every in-screen pixel are equal. */
  lemma FramesEqualByPixels(a: Frame, b: Frame, w: nat, h: nat)
    requires WellFormed(a, w, h) && WellFormed(b, w, h) && a.depth == b.depth
    requires forall x: nat, y: nat, k: nat :: x < w && y < h && k < Channels ==>
      a.pixels[ByteIndex(w, h, x, y, k)] == b.pixels[ByteIndex(w, h, x, y, k)]
    ensures a == b
  {
    forall j | 0 <= j < |a.pixels|
      ensures a.pixels[j] == b.pixels[j]
    {
      ByteIndexOnto(w, h, j);
    }
  }

  /** One step of a clear sweep: a depth-0 StorePixel at a pixel (px, py) that
      still holds its starting bytes gives that pixel its cleared bytes and
      leaves every other pixel, and the depth buffer, as they were. */
  lemma ClearStep(before: Frame, start: Frame, w: nat, h: nat, c: Pixel, px: nat, py: nat)
    requires WellFormed(before, w, h) && WellFormed(start, w, h) && ValidPixel(c)
    requires px < w && py < h && before.depth == start.depth
    requires forall k: nat :: k < Channels ==>
      before.pixels[ByteIndex(w, h, px, py, k)] == start.pixels[ByteIndex(w, h, px, py, k)]
    ensures Store(before, w, h, px, py, 0, c).depth == start.depth
    ensures forall x: nat, y: nat, k: nat :: x < w && y < h && k < Channels ==>
      Store(before, w, h, px, py, 0, c).pixels[ByteIndex(w, h, x, y, k)]
        == if x == px && y == py then Cleared(start, w, h, c).pixels[ByteIndex(w, h, x, y, k)]
           else before.pixels[ByteIndex(w, h, x, y, k)]
  {
    var after := Store(before, w, h, px, py, 0, c);
    forall q | 0 <= q < |before.depth|
      ensures after.depth[q] == before.depth[q]
    {
    }
    forall x: nat, y: nat, k: nat | x < w && y < h && k < Channels
      ensures after.pixels[ByteIndex(w, h, x, y, k)]
        == if x == px && y == py then Cleared(start, w, h, c).pixels[ByteIndex(w, h, x, y, k)]
           else before.pixels[ByteIndex(w, h, x, y, k)]
    {
      if x != px || y != py {
        StoreLeavesOtherPixels(before, w, h, px, py, 0, c, x, y, k);
      } else {
        ClearedIsZeroDepthStore(start, w, h, c, x, y, k);
      }
    }
  }

  /** Clearing treats each pixel as one StorePixel at depth 0 would. */
  lemma ClearedIsZeroDepthStore(f: Frame, w: nat, h: nat, c: Pixel, x: nat, y: nat, k: nat)
    requires WellFormed(f, w, h) && ValidPixel(c) && x < w && y < h && k < Channels
    ensures Cleared(f, w, h, c).pixels[ByteIndex(w, h, x, y, k)]
         == Store(f, w, h, x, y, 0, c).pixels[ByteIndex(w, h, x, y, k)]
  {
  }
}
