# Verified kernels of the Raspberry Pi examples

This project models four small programs and proves what they compute, for all inputs.

* **Circles and rectangles on a framebuffer** (`Circle`, `Ring`, `Framebuffer`, `Pictures`). The integer circle loop
  draws eight reflected points an iteration and keeps one error term. The set it plots is described without the loop
  (`Circle.OnRing`): the pixels just outside the disc u² + v² <= r² - r. `Screen.DrawCircle` is proved to colour
  exactly that set around any centre for any radius, with the 32-bit unsigned offset arithmetic of `drawpoint` written
  out, and to touch no other byte. The ring is then shown to be a simple closed 8-connected curve, watertight against
  4-connected paths, one pixel thick, and within half a pixel of the true circle. Circles that leave the screen are
  clipped at its top and bottom but not at its sides, and the two rectangle fills do not always agree; the exact
  conditions are given.
* **Camera capture, BMP writer, BMP reader, viewer** (`Capture`, `Bmp`, `Viewer`, `RoundTrip`). YUYV frames are
  converted to BGRA on the screen and, flipped, to the image of a BMP file; the file is written, read back and drawn.
  Width (even), height and screen width are parameters; the source fixes width and height to 800 and 600.
* **Two threads, a semaphore and a counter** (`Runs`, `Threads`, `LoadStore`). `Threads` takes `cnt++` and `cnt--` as single
  steps; `LoadStore` splits them into a load and a store. N iterations a thread and a semaphore starting at K are
  parameters (10 and 7 in the source).
* **Sepia filter** (`Sepia`), one pixel at a time and in eight 16-bit lanes that wrap around.

Fixed assumptions: 32 bits per pixel; little-endian structures without padding inside; `>>` of a negative int is an
arithmetic shift; a one-byte write at an offset past the end of the framebuffer device stores nothing.

## Where code and comments differ

The model follows the code.

* `Chapter5/thread.c`: a comment says that `p()` blocks when the semaphore is 0. `p()` is `sem_post` and never blocks;
  `v()` is `sem_wait`. The comment at line 25 speaks of waiting at 7, but the sleep holds nothing back: the counter
  reaches min(N, K + 2), which is 9 (`Threads.CounterRange`).
* `Chapter13/NeonProgramming/colorsepia.c`: the comment at line 35 announces a bounds check, but the values have
  already been cut to a byte. A sum of 2^16 or more wraps instead of saturating (`Sepia.LimitedIff`).
* `Chapter13/NeonProgramming/neonsepia.c` uses the green weight 137 where the scalar filter uses 136, so the blue bytes
  of the two filters can differ by one (`Sepia.FiltersAgreeIff`).
* `Chapter7/Image/fbdraw_mmap.c`: `drawfacemmap` scales `end_x` to bytes but not `start_x` (`Pictures.FillsAgreeIff`).
* `Chapter7/Image/bmpViewer.c` declares `readBmp` with five parameters and `bmpHeader.c` defines it with four; the
  viewer's `color` therefore stays 24, as modelled.

## Model

| member | source | states |
|---|---|---|
| Circle.NextErrorTerm | Chapter7/Image/fbdraw_mmap.c:108-114 | radiusError measures the pixel diagonally below (x, y) against the disc at every loop head, the last included |
| Circle.ErrorBounds | Chapter7/Image/fbdraw_mmap.c:95-115 | 2(y-x)+2 <= radiusError <= 2y and 1 <= x <= r while the loop runs; for r < 2^29 every sum of an iteration is a 32-bit int |
| Circle.NextGood | Chapter7/Image/fbdraw_mmap.c:99-115 | one iteration followed by a true guard goes from a ring point to a ring point |
| Circle.RingColumnUnique | Chapter7/Image/fbdraw_mmap.c:99-115 | for each shorter coordinate there is at most one longer coordinate on the ring |
| Circle.ExitExhausts | Chapter7/Image/fbdraw_mmap.c:99-115 | when the guard fails no ring pixel of the octant is left and the last point is within one of the diagonal |
| Ring.OctantExact | Chapter7/Image/fbdraw_mmap.c:99-115 | the successive (x, y) are exactly the ring pixels of the octant, one for each y, each one straight or diagonal step after the other |
| Ring.RingIsSimpleCycle | Chapter7/Image/fbdraw_mmap.c:99-115 | for every r >= 1 the ring pixels, each listed once, form a cycle in which each is 8-adjacent to the next and the last to the first |
| Ring.TwoNeighbours | Chapter7/Image/fbdraw_mmap.c:99-115 | every ring pixel has exactly two 8-neighbours on the ring, so the cycle does not touch itself |
| Ring.HalfPixel | Chapter7/Image/fbdraw_mmap.c:91-116 | every ring pixel has r²-r+1 <= u²+v² <= r²+r-1, within half a pixel of the circle |
| Ring.Watertight | Chapter7/Image/fbdraw_mmap.c:91-116 | every 4-connected path from inside the disc to outside it meets a ring pixel |
| Ring.OnePixelThick | Chapter7/Image/fbdraw_mmap.c:91-116 | through every ring pixel a 4-connected path of three leads from inside to outside, so no pixel can be spared |
| Framebuffer.OffsetIsSlot | Chapter7/Image/fbdraw_mmap.c:18-20 | the offset, computed in wrapping unsigned 32-bit arithmetic, is four times (x + y*xres) mod 2^27 |
| Framebuffer.SlotInjective | Chapter7/Image/fbdraw_mmap.c:18-20 | different positions on the screen have different offsets |
| Framebuffer.RowOfRing | Chapter7/Image/fbdraw_mmap.c:100-107 | the eight points of an iteration are exactly the ring pixels with shorter coordinate y |
| Framebuffer.Screen.DrawPoint | Chapter7/Image/fbdraw_mmap.c:14-26 | four bytes from the offset 4*((x + y*xres) mod 2^27) become B, G, R, 0xFF, all other bytes are unchanged; an offset past the end stores nothing; any coordinates |
| Framebuffer.Screen.DrawEight | Chapter7/Image/fbdraw_mmap.c:100-107 | the eight calls of an iteration paint the eight reflections of (x, y) |
| Framebuffer.Screen.DrawCircle | Chapter7/Image/fbdraw_mmap.c:91-116 | for every centre and radius, exactly the ring's pixels take the colour and all other bytes are unchanged; the loop walks the octant |
| Framebuffer.LoopStep | Chapter7/Image/fbdraw_mmap.c:99-115 | one iteration keeps the loop invariant, and the last one completes the ring |
| Framebuffer.Screen.DrawFace | Chapter7/Image/fbdraw_mmap.c:44-63 | the slow fill paints the pixels (x, y) with start_x <= x < end_x and start_y <= y < end_y and no others, any arguments; an end of 0 means full width or height, any other end means itself |
| Framebuffer.Screen.DrawFaceMmap | Chapter7/Image/fbdraw_mmap.c:65-89 | the fast fill stores its four bytes at every position of the byte cursor and every row, and nothing else; ends of 0 as in the slow fill |
| Pictures.CircleClipped | Chapter7/Image/fbdraw_mmap.c:91-116 | between the left and right edges, a pixel of the screen has the colour if and only if it is on the ring around the centre; rows above and below the screen are clipped |
| Pictures.ClippedIff | Chapter7/Image/fbdraw_mmap.c:91-116 | for a circle narrower than the screen whose leftmost and rightmost pixels have offsets on the screen: the picture is the clipped ring, on every memory, if and only if r <= cx < xres - r |
| Pictures.ClippedAroundPixelIff | Chapter7/Image/fbdraw_mmap.c:91-116 | for a circle narrower than the screen around any pixel of the screen: the picture is the clipped ring if and only if r <= cx < xres - r, or r is 1 in the upper left or lower right corner |
| Pictures.ClippingFails | Chapter7/Image/fbdraw_mmap.c:91-116 | a concrete circle, radius 2 around (0, 2) on 8 by 4 pixels, that is not clipped |
| Pictures.ClippedIffLandsOnRing | Chapter7/Image/fbdraw_mmap.c:91-116 | for every circle and screen: the picture is the clipped ring, on every memory, if and only if each ring pixel with an offset on the screen is stored at a ring position |
| Pictures.OverhangWraps | Chapter7/Image/fbdraw_mmap.c:18-20 | a ring pixel past the left or right edge is painted in its column modulo xres, one row up or down for each screen width it is away; never at a ring position when 2r < xres |
| Pictures.FaceOnScreen | Chapter7/Image/fbdraw_mmap.c:44-63 | a rectangle on the screen: a pixel is painted if and only if it is in the rectangle |
| Pictures.FillsAgree | Chapter7/Image/fbdraw_mmap.c:44-89 | for start_x = 0 both fills leave the same memory for every other argument |
| Pictures.FillsAgreeIff | Chapter7/Image/fbdraw_mmap.c:77-85 | for every rectangle on the screen, the fills agree on every memory if and only if start_x is 0, there is no row, or the byte cursor starts past the end |
| Pictures.FillsDiffer | Chapter7/Image/fbdraw_mmap.c:77-85 | a concrete rectangle, columns 4 to 7 of a row of 8, on which they differ with all stores inside the mapping |
| Pictures.StoresInMappingIff | Chapter7/Image/fbdraw_mmap.c:74-85 | a rectangle on the screen is stored inside the mapping if and only if nothing is stored, start_x is a multiple of 4, or the last column or the last row is left out |
| Pictures.FastFillRuns | Chapter7/Image/fbdraw_mmap.c:74-85 | for every rectangle on the screen and every byte of the mapping: the byte is coloured if and only if it is in [start_x, 4*end_x + start_x mod 4) of a row of the rectangle, with the channel given by its distance from start_x; all others keep their value |
| Pictures.RectangleInMapping | Chapter7/Image/fbdraw_mmap.c:74-85 | a rectangle on the screen with start_x = 0 is stored inside the mapping |
| Pictures.WholeScreen | Chapter7/Image/fbdraw_mmap.c:141-141 | the call with four zeros colours every pixel |
| Capture.RoundNearest | Chapter7/Camera/bmpCapture.c:203-208 | add half, shift, clip: the value limited to [0, 255] and rounded to nearest, halves upwards, negative sums included |
| Capture.ConvertAccurate | Chapter7/Camera/bmpCapture.c:235-252 | r, g, b are (298y + 409(v-128))/256, (298y - 100(u-128) - 208(v-128))/256 and (298y + 516(u-128))/256, limited to [0, 255] and rounded to nearest; the exact range of each sum, well inside 32 bits |
| Capture.FrameAccurate | Chapter7/Camera/bmpCapture.c:222-263 | after any frame every converted channel, on the screen and in the image, is its linear combination of the frame's luma and chroma bytes, limited to [0, 255] and rounded to nearest; on the screen the pixel is opaque |
| Capture.PairPixels | Chapter7/Camera/bmpCapture.c:229-252 | the four bytes at the cursor give the two pixels of a macropixel, with their own luma and shared chroma |
| Capture.ConvertRow | Chapter7/Camera/bmpCapture.c:223-262 | the inner loop converts one row into both destinations and leaves the cursor at the next row |
| Capture.ConvertFrame | Chapter7/Camera/bmpCapture.c:210-263 | both destinations hold the converted frame, every channel limited and rounded to nearest, and are unchanged elsewhere, for any frame, even width and screen width; no image byte is stored twice, and every one is stored when the screen rows are long enough |
| Capture.ScreenHolds | Chapter7/Camera/bmpCapture.c:236-256 | pixel (x, y) is at screen byte 4*(y*pitch + x) |
| Capture.ImageHolds | Chapter7/Camera/bmpCapture.c:244-261 | the same B, G, R are at image byte 3*((height-1-y)*width + x): the vertical flip |
| Capture.WrittenOnce | Chapter7/Camera/bmpCapture.c:244-261 | the indices the loops store in inimg, in order: no index occurs twice, and exactly those of the converted columns occur |
| Capture.ImageCompleteIff | Chapter7/Camera/bmpCapture.c:220-262 | no image byte keeps its uninitialised value if and only if the image is no wider than the screen rows the cursor walks |
| Capture.StraightIff | Chapter7/Camera/bmpCapture.c:223-227 | every frame shows pixel (x, y) at byte 4*(y*xres + x) of every screen if and only if the screen width is even or at most one row is drawn |
| Bmp.FileHeaderRoundTrip | Chapter7/Camera/bmpHeader.h:4-10 | the packed file header decodes to what was encoded |
| Bmp.InfoHeaderRoundTrip | Chapter7/Camera/bmpHeader.h:12-24 | the info header decodes to what was encoded |
| Bmp.FileHeaderBytesRoundTrip | Chapter7/Image/bmpHeader.h:4-10 | encoding a decoded file header gives its 14 bytes back |
| Bmp.InfoHeaderBytesRoundTrip | Chapter7/Image/bmpHeader.h:12-24 | encoding a decoded info header gives its 40 bytes back |
| Bmp.FieldsLittleEndian | Chapter7/Image/bmpHeader.h:4-24 | the four bytes of a 32-bit field, as written and as read, are its number, low byte first |
| Bmp.SaveImage | Chapter7/Camera/bmpCapture.c:102-148 | the file is header, info header, palette and image, or nothing when it cannot be opened |
| Bmp.SavedBytes | Chapter7/Camera/bmpCapture.c:110-147 | the saved file byte by byte, as numbers at offsets: "BM", file size, 1078, 40, width, height, 1 plane, 24 bits, image size, 0x0B12 twice, zeros, then 1024 palette bytes and the image from byte 1078 on |
| Bmp.FileSizeIff | Chapter7/Camera/bmpCapture.c:111-116 | bfOffBits is the offset of the image, and bfSize the file length if and only if that fits 32 bits |
| Bmp.ReadBmp | Chapter7/Image/bmpHeader.c:4-45 | for any file: status 0 if and only if bytes 28 and 29 hold 24; then cols and rows are bytes 18 to 25 as signed numbers, the data buffer starts with the bytes from bfOffBits to bfSize or the end of the file, and keeps its old bytes behind them; missing header bytes are what the stack held; on -1 nothing changes |
| Bmp.ReadSaved | Chapter7/Image/bmpHeader.c:17-40 | reading a saved file recovers both headers and exactly the image bytes |
| Viewer.ViewBmp | Chapter7/Image/bmpViewer.c:65-82 | every pixel of the screen shows the last image row drawn over it, read bottom up, and the buffer's old bytes where none is; wide images included |
| Viewer.ViewHolds | Chapter7/Image/bmpViewer.c:65-79 | the byte shown at (x, y) is channel k of image row rows-1-y, or 255, unless a later row was drawn over it |
| Viewer.StaysIff | Chapter7/Image/bmpViewer.c:65-79 | pixel (x, y) of every image of a size is shown at its own position of every screen if and only if x < xres or y is the last row |
| Viewer.ViewKeeps | Chapter7/Image/bmpViewer.c:65-79 | for images no wider than the screen everything outside the image keeps its value |
| RoundTrip.ProcessImage | Chapter7/Camera/bmpCapture.c:210-267 | the conversion, then a file of the converted image |
| RoundTrip.SavedImageViewsAsCaptured | Chapter7/Camera/bmpCapture.c:102-148 | saving, reading and viewing shows the bytes the capture showed, for any two screens, at every image pixel with x < xres or in the last row |
| RoundTrip.SurvivesIff | Chapter7/Image/bmpViewer.c:59-82 | a captured pixel is viewed as captured in every round trip if and only if x < xres or y is the last row; otherwise a frame with one bright pixel shows other bytes |
| RoundTrip.CaptureThenView | Chapter7/Image/bmpViewer.c:59-82 | the same for the loops themselves, run one after the other on arrays |
| Threads.InvHolds | Chapter5/thread.c:20-48 | every reachable state counts increments, posts and decrements consistently with counter and semaphore |
| Threads.RunsExact | Chapter5/thread.c:20-48 | a sequence of actions is a run from the start if and only if increments and waits alternate, posts and decrements alternate, each at most N times, and no prefix has more than K waits beyond its posts |
| Threads.RunComputes | Chapter5/thread.c:20-48 | the counter is increments minus decrements and the semaphore K plus posts minus waits, in every run |
| Threads.SemaphoreAccounting | Chapter5/thread.c:24-44 | sem == K - cnt + a + b in every reachable state, so -N <= cnt <= min(N, K + 2) |
| Threads.NoDeadlock | Chapter5/thread.c:20-48 | until both threads have finished some step is enabled; a thread waiting on 0 leaves the other a step |
| Threads.MaximalRuns | Chapter5/thread.c:50-62 | runs have at most 4N steps, are stuck if and only if they have 4N, and then end with cnt 0 and sem K |
| Threads.CounterRange | Chapter5/thread.c:24-44 | the counter takes exactly the values from -N to min(N, K + 2) |
| Threads.RunThreads | Chapter5/thread.c:20-62 | both bodies under any scheduler: they terminate after 4N steps with cnt 0 and sem K |
| LoadStore.RunsExact | Chapter5/thread.c:20-48 | a sequence of actions is a run from the start if and only if one thread goes round load, store, wait and the other round post, fetch, put back, each at most N times, and no prefix has more than K waits beyond its posts: every interleaving of the two loops, nothing else |
| LoadStore.RunComputes | Chapter5/thread.c:26-41 | every store leaves one more, every put back one less, than the counter held at that thread's last load; nothing else changes the counter; the semaphore is K plus posts minus waits |
| LoadStore.CounterBounded | Chapter5/thread.c:24-44 | with split updates, -(stores of the posting thread) <= cnt <= (stores of the counting thread), and the semaphore accounting still holds, in every run RunsExact describes |
| LoadStore.NoDeadlock | Chapter5/thread.c:20-48 | split updates do not deadlock either |
| LoadStore.MaximalRuns | Chapter5/thread.c:50-62 | runs have at most 6N steps, are stuck if and only if they have 6N, and then both loops are finished and the semaphore is back at K |
| LoadStore.FinalValues | Chapter5/thread.c:26-41 | complete runs can leave exactly the values from -N to N in the counter, for every K |
| LoadStore.SingleStepRuns | Chapter5/thread.c:20-48 | every interleaving with single-step updates is an interleaving with split ones, with the same counter and semaphore |
| LoadStore.UninterruptedIsSingleStep | Chapter5/thread.c:26-41 | a split run in which no store of the other thread falls between a load and its store has the counter and semaphore of a single-step run; complete ones leave 0 |
| Sepia.WrapThenNarrow | Chapter13/NeonProgramming/neonsepia.c:43-59 | wrapping to 16 bits after each of any number of multiply-accumulates and narrowing by 8 gives floor(sum/256) mod 256 |
| Sepia.ChannelLane | Chapter13/NeonProgramming/neonsepia.c:43-59 | each lane of a channel is the narrowed unbounded sum of its own pixel |
| Sepia.FilterLanes | Chapter13/NeonProgramming/neonsepia.c:24-64 | for every n, each pixel p < n - n mod 8 becomes (33b+137g+70r)/256, (43b+175g+89r)/256, (48b+197g+100r)/256 modulo 256 of the source's old bytes; every other byte is unchanged, negative n included; in place or not |
| Sepia.LanePixel | Chapter13/NeonProgramming/neonsepia.c:26-62 | the three bytes of a pixel the lanes have filtered, as weighted sums of its source bytes |
| Sepia.FilterPixels | Chapter13/NeonProgramming/colorsepia.c:23-40 | for every n, each pixel p < n becomes (33b+136g+70r)/256, (43b+175g+89r)/256, (48b+197g+100r)/256 modulo 256 of the source's old bytes; every other byte is unchanged; in place or not |
| Sepia.ScalarPixel | Chapter13/NeonProgramming/colorsepia.c:30-38 | the three bytes of a pixel the scalar filter has written, as weighted sums of its source bytes |
| Sepia.BlueNeverWraps | Chapter13/NeonProgramming/neonsepia.c:43-45 | the blue accumulator stays below 2^16 |
| Sepia.ChannelsCompared | Chapter13/NeonProgramming/neonsepia.c:26-59 | on every pixel green and red agree, and blue is one higher exactly at a carry |
| Sepia.FiltersCompared | Chapter13/NeonProgramming/neonsepia.c:24-64 | byte by byte what both filters leave, for every buffer and n divisible by 8 |
| Sepia.FiltersAgreeIff | Chapter13/NeonProgramming/colorsepia.c:23-40 | the filters leave the same bytes if and only if no pixel has a blue carry |
| Sepia.FiltersDiffer | Chapter13/NeonProgramming/neonsepia.c:26-47 | a concrete block of eight pixels on which they differ |
| Sepia.BlocksAreIndependent | Chapter13/NeonProgramming/neonsepia.c:35-63 | a block's output depends on its own 24 source bytes |
| Sepia.LimitedIff | Chapter13/NeonProgramming/colorsepia.c:30-38 | the stored byte is the saturated one if and only if the sum is below 2^16 |
| Sepia.UnsaturatedIff | Chapter13/NeonProgramming/colorsepia.c:30-38 | some pixel is stored unsaturated in the green and in the red channel, none in the blue one |

## Left out

- Device and system calls (open, ioctl, mmap, lseek, fopen, select): byte arrays and a byte-sequence file take their place; failures other than fopen's are not modelled.
- Screens of more than 2^27 pixels: `Framebuffer.Screen.Valid` excludes them, because the 32-bit size and offset computations of the source wrap there.
- Signed overflow of 32-bit ints in coordinates far outside the screen and in image sizes: the first is treated as unbounded arithmetic, the second excluded in the round trip by `RoundTrip.IntSized`.
- Framebuffer.Screen.DrawFaceMmap: requires every store to fall inside the mapping; what a store outside it does is up to the operating system.
- File offsets of 2^31 and more, where a 32-bit long would turn negative in fseek.
- Odd image widths in the capture program, whose width is the constant 800.
- Sleeping, printing, thread creation and interrupted waits in Chapter5/thread.c: only counter and semaphore steps are modelled, and the semaphore is taken to start at K even if one of that name exists.
- Threads.RunThreads: runs the program with single-step updates; the one with split updates is a step relation only.
- drawline: one row of a rectangle, with the pixel store already modelled.
- Copies of the same code in other chapters, and the filters of v4l2_framebuffer_neon.c and neonconvert.c, whose arithmetic does not refine the scalar code.
- Qt, OpenCV, Caffe, OpenGL, GStreamer and ALSA programs, sockets, web servers, kernel modules and sensor programs: thin wrappers and input/output.
