/** The screen: two pixel buffers of width * height * 3 bytes (blue, green,
    red per pixel), a depth buffer of one byte per pixel, and the index of the
    front buffer, the one shown. Drawing goes into the other, the back buffer. */
module Screens {
  import opened Framebuffer

  /** std::fill: every element of a becomes v. */
  method Fill(a: array<int>, v: int)
    modifies a
    ensures a[..] == seq(a.Length, _ => v)
  {
    var i := 0;
    while i < a.Length
      invariant 0 <= i <= a.Length
      invariant forall j :: 0 <= j < i ==> a[j] == v
    {
      a[i] := v;
      i := i + 1;
    }
  }

  class Screen {
    const width: nat
    const height: nat
    /** The two pixel buffers. */
    const buffers: seq<array<int>>
    /** One depth byte per pixel; a larger value is closer to the viewer. */
    const depth: array<int>
    /** Index of the front buffer in buffers. */
    var front: nat

    /** The shape of the buffers, fixed at construction. */
    ghost predicate Sized()
    {
      && |buffers| == 2
      && buffers[0] != buffers[1]
      && depth !in buffers
      && buffers[0].Length == Channels * (width * height)
      && buffers[1].Length == Channels * (width * height)
      && depth.Length == width * height
    }

    ghost predicate Valid()
      reads this, buffers, depth
    {
      && Sized()
      && front < |buffers|
      && AllBytes(buffers[0][..])
      && AllBytes(buffers[1][..])
      && AllBytes(depth[..])
    }

    /** The buffer drawn into: (front + 1) % 2. */
    function BackBuffer(): (b: array<int>)
      reads this
      requires |buffers| == 2
      ensures b in buffers
    {
      buffers[(front + 1) % |buffers|]
    }

    /** The buffer shown: buffers[front]. */
    function FrontBuffer(): (f: array<int>)
      reads this
      requires |buffers| == 2 && front < |buffers|
      ensures f in buffers
      ensures buffers[0] != buffers[1] ==> f != BackBuffer()
    {
      buffers[front]
    }

    /** What StorePixel reads and writes: the back buffer and the depth buffer. */
    ghost function BackFrame(): Frame
      reads this, buffers, depth
      requires |buffers| == 2
    {
      Frame(BackBuffer()[..], depth[..])
    }

    constructor (width: nat, height: nat)
      ensures Valid()
      ensures this.width == width && this.height == height
      ensures fresh(buffers[0]) && fresh(buffers[1]) && fresh(depth)
      ensures buffers[0][..] == Zeros(Channels * (width * height))
      ensures buffers[1][..] == Zeros(Channels * (width * height))
      ensures depth[..] == Zeros(width * height)
      ensures front == 1
    {
      var rowStride := width * Channels;
      var b0 := new int[rowStride * height];
      var b1 := new int[rowStride * height];
      Fill(b0, 0);
      Fill(b1, 0);
      var d := new int[width * height];
      Fill(d, 0);
      this.width := width;
      this.height := height;
      buffers := [b0, b1];
      depth := d;
      front := 1;
    }

    function Width(): (w: nat)
      requires Sized()
      ensures w * height == depth.Length
    {
      width
    }

    function Height(): (h: nat)
      requires Sized()
      ensures width * h == depth.Length
    {
      height
    }

    /** The bytes that are shown: the front buffer, never the one being drawn into. */
    function GetScreenData(): (data: array<int>)
      reads this
      requires Sized() && front < |buffers|
      ensures data in buffers && data != BackBuffer()
      ensures data.Length == Channels * (Width() * Height())
    {
      FrontBuffer()
    }

    /** Depth-tested write of colour p at pixel (x, y) with depth z. */
    method StorePixel(x: nat, y: nat, z: int, p: Pixel := White())
      requires Valid() && x < width && y < height && IsByte(z) && ValidPixel(p)
      modifies BackBuffer(), depth
      ensures Valid() && front == old(front)
      ensures BackFrame() == Store(old(BackFrame()), width, height, x, y, z, p)
      ensures FrontBuffer()[..] == old(FrontBuffer()[..])
    {
      var current := (front + 1) % |buffers|;
      var buffer := buffers[current];
      var q := PixelIndex(width, height, x, y);
      if depth[q] < z {
        buffer[Channels * q + 0] := p.blue;
        buffer[Channels * q + 1] := p.green;
        buffer[Channels * q + 2] := p.red;
        depth[q] := z;
      } else if depth[q] == z {
        buffer[Channels * q + 0] := Max(p.blue, buffer[Channels * q + 0]);
        buffer[Channels * q + 1] := Max(p.green, buffer[Channels * q + 1]);
        buffer[Channels * q + 2] := Max(p.red, buffer[Channels * q + 2]);
      }
    }

    /** StorePixel(i, j, 0, c) for every row i and column j, passing the row
        index i as x. Only on a square screen, an empty one, or one a single
        pixel wide does this visit every pixel once; on any other taller screen
        at least two pixels wide it misses some pixels and repeats others, and
        on a screen with at least one row that is wider than it is tall it
        indexes past the end of the buffers. */
    method ClearScreenColor(c: Pixel := White())
      requires Valid() && ValidPixel(c) && width == height
      modifies BackBuffer(), depth
      ensures Valid() && front == old(front)
      ensures BackFrame() == Cleared(old(BackFrame()), width, height, c)
      ensures FrontBuffer()[..] == old(FrontBuffer()[..])
    {
      ghost var start := BackFrame();
      ghost var goal := Cleared(start, width, height, c);
      var i := 0;
      while i < height
        invariant 0 <= i <= height
        invariant Valid() && front == old(front)
        invariant FrontBuffer()[..] == old(FrontBuffer()[..])
        invariant BackFrame().depth == start.depth
        invariant forall x: nat, y: nat, k: nat :: x < width && y < height && k < Channels ==>
          BackFrame().pixels[ByteIndex(width, height, x, y, k)]
            == (if x < i then goal else start).pixels[ByteIndex(width, height, x, y, k)]
      {
        var j := 0;
        while j < width
          invariant 0 <= j <= width
          invariant Valid() && front == old(front)
          invariant FrontBuffer()[..] == old(FrontBuffer()[..])
          invariant BackFrame().depth == start.depth
          invariant forall x: nat, y: nat, k: nat :: x < width && y < height && k < Channels ==>
            BackFrame().pixels[ByteIndex(width, height, x, y, k)]
              == (if x < i || (x == i && y < j) then goal else start).pixels[ByteIndex(width, height, x, y, k)]
        {
          ghost var before := BackFrame();
          StorePixel(i, j, 0, c);
          ClearStep(before, start, width, height, c, i, j);
          j := j + 1;
        }
        i := i + 1;
      }
      FramesEqualByPixels(BackFrame(), goal, width, height);
    }

    /** ClearScreenColor with the row index passed as y, as its loops
        evidently intend: StorePixel(j, i, 0, c) for every row i and column j.
        It stays inside the buffers on a screen of any shape. */
    method ClearScreenColorRowMajor(c: Pixel := White())
      requires Valid() && ValidPixel(c)
      modifies BackBuffer(), depth
      ensures Valid() && front == old(front)
      ensures BackFrame() == Cleared(old(BackFrame()), width, height, c)
      ensures FrontBuffer()[..] == old(FrontBuffer()[..])
    {
      ghost var start := BackFrame();
      ghost var goal := Cleared(start, width, height, c);
      var i := 0;
      while i < height
        invariant 0 <= i <= height
        invariant Valid() && front == old(front)
        invariant FrontBuffer()[..] == old(FrontBuffer()[..])
        invariant BackFrame().depth == start.depth
        invariant forall x: nat, y: nat, k: nat :: x < width && y < height && k < Channels ==>
          BackFrame().pixels[ByteIndex(width, height, x, y, k)]
            == (if y < i then goal else start).pixels[ByteIndex(width, height, x, y, k)]
      {
        var j := 0;
        while j < width
          invariant 0 <= j <= width
          invariant Valid() && front == old(front)
          invariant FrontBuffer()[..] == old(FrontBuffer()[..])
          invariant BackFrame().depth == start.depth
          invariant forall x: nat, y: nat, k: nat :: x < width && y < height && k < Channels ==>
            BackFrame().pixels[ByteIndex(width, height, x, y, k)]
              == (if y < i || (y == i && x < j) then goal else start).pixels[ByteIndex(width, height, x, y, k)]
        {
          ghost var before := BackFrame();
          StorePixel(j, i, 0, c);
          ClearStep(before, start, width, height, c, j, i);
          j := j + 1;
        }
        i := i + 1;
      }
      FramesEqualByPixels(BackFrame(), goal, width, height);
    }

    /** Zero-fill the front buffer, then make the other buffer the front. */
    method Swap()
      requires Valid()
      modifies this, FrontBuffer()
      ensures Valid()
      ensures front == (old(front) + 1) % 2
      ensures FrontBuffer()[..] == old(BackBuffer()[..])
      ensures BackBuffer()[..] == Zeros(Channels * (width * height))
      ensures depth[..] == old(depth[..])
    {
      Fill(buffers[front], 0);
      front := (front + 1) % |buffers|;
    }

    /** Swap, then hand the new front buffer to the display; the bytes shown
        are exactly those drawn into the back buffer before the call. */
    method DrawScreen() returns (shown: seq<int>)
      requires Valid()
      modifies this, FrontBuffer()
      ensures Valid()
      ensures shown == old(BackBuffer()[..])
      ensures front == (old(front) + 1) % 2
      ensures BackBuffer()[..] == Zeros(Channels * (width * height))
      ensures depth[..] == old(depth[..])
    {
      Swap();
      shown := GetScreenData()[..];
    }
  }

  /** ClearScreenColor as written passes the row i < height as x and the column
      j < width as y, so StorePixel computes the depth offset DepthOffset(width, i, j).
      On a screen with at least one row that is wider than it is tall, the call
      for the last row and the last column computes an offset past the end of the width * height depth entries
      (and pixel bytes past the end of the buffer). */
  lemma WideClearOverruns(w: nat, h: nat)
    requires 0 < h < w
    ensures exists i: nat, j: nat :: i < h && j < w && DepthOffset(w, i, j) >= w * h
  {
    // h * w <= (w - 1) * w, and the last row adds h - 1 >= 0
    MulMonotone(h, w - 1, w);
    assert DepthOffset(w, h - 1, w - 1) >= w * h;
  }
}
