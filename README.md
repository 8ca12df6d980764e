# Framebuffer and colour of a small Windows ray tracer

This project models the two stateful parts of the ray tracer: the `Screen`
class and the `Color` struct.

`Screen` is a double-buffered framebuffer. It owns two pixel buffers of
`width * height * 3` bytes, with each pixel stored as blue, green, red. It also
owns a depth buffer of one byte per pixel and the index of the front buffer,
which is the buffer shown on the console. The other buffer is the back buffer.
Drawing always goes into the back buffer:

- `StorePixel(x, y, z, c)` is a depth-tested write, where a larger depth is closer.
  - A closer write replaces the pixel's three bytes and its depth.
  - A write at equal depth keeps the channel-wise maximum of the old and new colours.
  - A farther write changes nothing.
- `ClearScreenColor(c)` calls `StorePixel` at depth 0 for every row i and column j, passing i as x and j as y. Only on a square screen, an empty one, or one a single pixel wide does this reach every pixel exactly once.
- `DrawScreen` calls `Swap` first. `Swap` zero-fills the front buffer and makes the other buffer the front, and that buffer is then painted.

`Color` is an RGB triple. Its constructor and its three setters clamp each
channel to [0, 255].

The project has three modules:

- `Framebuffer` (framebuffer.dfy) holds pure definitions:
  - the byte layout `3 * (y * width + x) + k`;
  - `Store`, the depth-tested write, on a `Frame` (the back buffer plus the depth buffer);
  - `StoreAll`, a sequence of writes;
  - `Cleared`, the effect of a clear;
  - the lemmas about all of these.
- `Screens` (screen.dfy) holds the `Screen` class. Its fields are `array<int>` buffers, and its methods are proved against the `Framebuffer` definitions.
- `Colors` (color.dfy) holds `Clamp` and the `Color` class.

## Model

| member | source | states |
|---|---|---|
| Framebuffer.Channel | src/screen.h:62-64 | the buffer order of a pixel's bytes, blue at offset 0, green at 1 and red at 2; each channel of a valid pixel is a byte |
| Framebuffer.White | src/screen.h:56 | the default colour `{255, 255, 255}` of `StorePixel` (and of `ClearScreenColor`, line 47) is a valid pixel that no valid pixel exceeds in any channel |
| Framebuffer.Max | src/screen.h:69-71 | the `max` macro of Windows.h, `((a) > (b)) ? (a) : (b)`: the result is one of the two arguments and at least both |
| Framebuffer.DepthOffset | src/screen.h:59 | no contract; the offset `y * width_ + x` computed for any arguments, in range or not |
| Framebuffer.PixelIndex | src/screen.h:59 | the depth index `y * width + x` of a pixel inside the screen lies below `width * height` |
| Framebuffer.ByteIndex | src/screen.h:62-64 | the byte `3 * (y * width + x) + k` lies inside the pixel buffer; that byte divided by 3 gives the pixel's depth index, and the remainder gives the channel k |
| Framebuffer.PixelIndexInjective | src/screen.h:59 | two different pixels of a row-major screen never share a depth entry, so they never share bytes |
| Framebuffer.ByteIndexOnto | src/screen.h:62-64 | every byte of a `width * height * 3` buffer is channel `j % 3` of some in-screen pixel; with `PixelIndexInjective`, of only one |
| Framebuffer.EarlierRowFirst | src/screen.h:59 | a pixel in an earlier row has a smaller depth offset `y * width + x` |
| Framebuffer.Store | src/screen.h:55-72 | a depth-tested write: the pixel's depth becomes `max(z, old depth)`; closer writes store blue, green and red; equal depth gives the channel-wise max; farther changes nothing; no other byte or depth entry changes; all values stay bytes |
| Framebuffer.StoreLeavesOtherPixels | src/screen.h:59-72 | a write to pixel (x, y) leaves the bytes and the depth of every other pixel (x', y') untouched |
| Framebuffer.StoreAll | src/screen.h:55-72 | any sequence of in-bounds writes keeps the buffer sizes and keeps every entry a byte |
| Framebuffer.DepthNeverDecreases | src/screen.h:59-72 | no sequence of writes lowers any depth entry |
| Framebuffer.DepthCoversWrites | src/screen.h:59-72 | after a sequence of writes, each pixel's depth is at least the depth of every write made to that pixel |
| Framebuffer.UnwrittenPixelsKept | src/screen.h:59-72 | a pixel that no write names keeps its bytes and its depth through any sequence of writes |
| Framebuffer.Cleared | src/screen.h:47-53 | clearing leaves the depth buffer unchanged and never lowers a channel |
| Framebuffer.ClearedIsZeroDepthStore | src/screen.h:50 | each pixel after a clear is exactly what one `StorePixel` at depth 0 would make of it |
| Framebuffer.ClearStep | src/screen.h:50 | one depth-0 `StorePixel` during a sweep, at a pixel not yet visited, gives that pixel its cleared bytes; the depth buffer and every other pixel stay as they were |
| Framebuffer.FramesEqualByPixels | src/screen.h:62-64 | two frames with the same depth buffer that agree on every channel of every in-screen pixel are equal |
| Screens.Fill | src/screen.h:35-36 | `std::fill`: every element becomes the given value |
| Screens.Screen.BackBuffer | src/screen.h:57 | `curr_buf = (screen_buffer_ + 1) % buffers_.size()`: one of the two buffers; what `StorePixel` may modify |
| Screens.Screen.FrontBuffer | src/screen.h:76 | `buffers_[screen_buffer_]` (also lines 86 and 97): one of the two buffers, and never the back buffer while the two are distinct |
| Screens.Screen.constructor | src/screen.h:21-40 | both pixel buffers have `width * height * 3` zero bytes; the depth buffer has `width * height` zeros; the front index is 1 |
| Screens.Screen.Width | src/screen.h:91 | the width times the height is the number of depth entries |
| Screens.Screen.Height | src/screen.h:92 | the width times the height is the number of depth entries |
| Screens.Screen.GetScreenData | src/screen.h:75-77 | the data handed out is the front buffer, of `width * height * 3` bytes, and never the back buffer that `StorePixel` writes |
| Screens.Screen.StorePixel | src/screen.h:55-72 | the back buffer and the depth buffer become `Store` of their old contents; the front buffer and the front index are unchanged |
| Screens.Screen.ClearScreenColor | src/screen.h:47-53 | on a square screen the back buffer becomes `Cleared` of its old contents: each pixel at depth 0 becomes the channel-wise max of c and its old bytes, and the rest is unchanged; the depth buffer, the front buffer and the front index are unchanged |
| Screens.Screen.ClearScreenColorRowMajor | src/screen.h:47-53 | the same sweep with the row index passed as y clears correctly on a screen of any shape |
| Screens.WideClearOverruns | src/screen.h:48-50 | on a screen with at least one row that is wider than it is tall, the sweep as written makes `StorePixel` compute a depth offset `DepthOffset(width, i, j)` past the end of the depth buffer |
| Screens.Screen.Swap | src/screen.h:96-99 | the old front buffer becomes all zeros and is the new back buffer; the old back buffer becomes the front buffer with its contents unchanged; the front index moves to the other of {0, 1}; the depth buffer is unchanged |
| Screens.Screen.DrawScreen | src/screen.h:81-89 | after the swap, the bytes painted are exactly the bytes drawn into the back buffer before the call |
| Colors.Clamp | src/color.h:11-13 | `std::clamp(v, 0, 255)` lies in the range and is the point of the range nearest to v |
| Colors.ClampCases | src/color.h:10-13 | a value in [0, 255] is kept; one below 0 becomes 0; one above 255 becomes 255 |
| Colors.ClampIdempotent | src/color.h:14-19 | clamping a clamped value changes nothing |
| Colors.Color.constructor | src/color.h:10-13 | every channel is the clamp of its argument, so the object starts valid (all channels in [0, 255]) |
| Colors.Color.R | src/color.h:17 | the red channel read back is in [0, 255] |
| Colors.Color.G | src/color.h:18 | the green channel read back is in [0, 255] |
| Colors.Color.B | src/color.h:19 | the blue channel read back is in [0, 255] |
| Colors.Color.SetR | src/color.h:14 | `r()` then returns clamp(v, 0, 255); green and blue are unchanged; the invariant is kept |
| Colors.Color.SetG | src/color.h:15 | `g()` then returns clamp(v, 0, 255); red and blue are unchanged; the invariant is kept |
| Colors.Color.SetB | src/color.h:16 | `b()` then returns clamp(v, 0, 255); red and green are unchanged; the invariant is kept |
| Colors.SetterOfGetterIsIdentity | src/color.h:14-19 | every stored channel is its own clamp |
| Colors.ReassignChannels | src/color.h:14-19 | `r(r())`, `g(g())` and `b(b())` leave the colour as it was |

## Findings

| source | as written | input that shows it | evidently intended | confidence | as-written member | corrected member |
|---|---|---|---|---|---|---|
| src/screen.h:48-50 | `StorePixel(i, j, 0, c)` passes the row `i < height` as x and the column `j < width` as y | width 3, height 2: the call for i = 1, j = 2 addresses depth entry 2 * 3 + 1 = 7 of a 6-entry buffer; `Screens.WideClearOverruns` shows this for every screen with at least one row that is wider than it is tall | `StorePixel(j, i, 0, c)` | high; not executed | Screens.Screen.ClearScreenColor | Screens.Screen.ClearScreenColorRowMajor |

The only screen the program builds is 640 × 640 (src/main.cc:77). On that screen the two orders visit the same pixels, so the program as shipped is not affected.

## Left out

- Screens.Screen.ClearScreenColor: requires a square screen. On a screen taller than it is wide, the source's writes stay inside the buffers. On a screen one pixel wide, the call for row i addresses offset `0 * 1 + i`, which is pixel (0, i)'s own entry, so every pixel is still written once. On a screen with no columns there are no writes at all. On any other tall screen, at least two pixels wide, some writes go to the wrong pixel: some pixels are written twice and others are missed. The model does not follow this, because `StorePixel` is modelled only for in-screen pixels.
- Screens.Screen.StorePixel: requires `x < width` and `y < height`. The source does not check this. When `x >= width` but `y * width + x < width * height`, the source addresses a valid index that belongs to another pixel; for example, `StorePixel(2, 0, ...)` on a 2 × 2 screen reads and compares the depth entry of pixel (0, 1), and then writes that pixel's depth and bytes under the usual depth test. The model does not follow such writes. An offset of `width * height` or more is undefined behaviour in the source.
- The device handle, `SetBMPHeaderValues`, `BITMAPINFO` and `SetDIBitsToDevice` (src/screen.h:81-112) are platform output. `DrawScreen` returns the bytes it would paint instead.
- `Screen` reads a colour through `blue()`, `green()` and `red()`, but `Color` declares only `b()`, `g()` and `r()`. Those bytes also need an implicit double-to-`uint8_t` conversion. The screen therefore takes a `Pixel` of three integers in 0..255, and the two classes are not connected.
- `Color` channels are modelled as mathematical reals. Doubles, rounding, NaN and infinities are not modelled.
- The index arithmetic is over unbounded naturals. A `size_t` overflow of `width * height * 3` is not modelled.
- The depth argument and the stored depths are integers restricted to 0..255. They stand for `uint8_t`.
- Scene geometry and shading (src/objects.h), the camera mapping (src/view_frustum.h), rays and lights (src/common.h) and the entry point (src/main.cc) are not part of this model. They are floating-point geometry, or code that calls into the screen. The `Tracer` in src/main.cc calls `StorePixel` with three arguments, which does not match its declaration.
