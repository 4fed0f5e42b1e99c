/** Capturing a frame, saving it, reading it back and viewing it shows the captured picture. */
module RoundTrip {
  import opened Bytes
  import Bmp
  import Capture
  import Viewer

  /** Sizes at which the source's int expressions do not overflow. */
  predicate IntSized(width: nat, height: nat) {
    width < 0x8000_0000 && height < 0x8000_0000 && 24 * (width * height) < 0x8000_0000
  }

  lemma IntSizedFields(width: nat, height: nat)
    requires IntSized(width, height)
    ensures var i := Bmp.InfoHeaderFor(width, height);
      Bmp.ToInt(i.biWidth) == width && Bmp.ToInt(i.biHeight) == height && i.biBitCount == 24
    ensures Bmp.OFF_BITS + 3 * (width * height) < WORD
  {
  }

  /** The complete image has the colour of every pixel. */
  lemma ShownIsPixel(g: Capture.Geometry, frame: seq<byte>, m: seq<byte>, rest: seq<byte>, x: int, y: int, k: int)
    requires Capture.FrameFits(g, frame) && |m| == 3 * (g.width * g.height)
    requires 0 <= x < g.Columns() && 0 <= y < g.height && 0 <= k < 4
    ensures var data := Capture.ImageAfter(g, frame, m) + rest;
      && Viewer.DataHolds(data, g.width, g.height)
      && Viewer.Shown(data, g.width, g.height, x, y, k) == Capture.Pixel(g, frame, x, y).Channel(k)
  {
    var data := Capture.ImageAfter(g, frame, m) + rest;
    assert g.height * g.width == g.width * g.height;
    if k < 3 {
      Capture.ImageHolds(g, frame, m, x, y, k);
    }
  }

  /**
   What a round trip starts from: the frame, what the capture's screen and image buffer held before,
   the palette, what the reader's stack and data buffer held before, and the viewer's buffer.
   */
  datatype Trip = Trip(frame: seq<byte>, screen: seq<byte>, image: seq<byte>, palette: seq<byte>,
                       stack: seq<byte>, memory: seq<byte>, view: seq<byte>)

  /** The parts have the sizes the programs need; xres is the width of the viewing screen. */
  ghost predicate Fits(g: Capture.Geometry, xres: nat, t: Trip) {
    && Capture.FrameFits(g, t.frame) && Capture.ScreenFits(g, |t.screen|)
    && |t.image| == 3 * (g.width * g.height) <= |t.memory| && |t.palette| == Bmp.PALETTE
    && |t.stack| == Bmp.FILE_HEADER + Bmp.INFO_HEADER
    && Viewer.ImageFits(g.width, g.height, xres, |t.view|)
  }

  ghost function File(g: Capture.Geometry, xres: nat, t: Trip): seq<byte>
    requires Fits(g, xres, t)
  {
    Bmp.BmpFile(g.width, g.height, t.palette, Capture.ImageAfter(g, t.frame, t.image))
  }

  /** The file is accepted, with the size of the image, and all of the image is read into memory. */
  ghost predicate ReadBack(g: Capture.Geometry, xres: nat, t: Trip)
    requires Fits(g, xres, t)
  {
    var file := File(g, xres, t);
    var h, i := Bmp.FileHeaderIn(file, t.stack), Bmp.InfoHeaderIn(file, t.stack);
    && i.biBitCount == 24 && Bmp.ToInt(i.biWidth) == g.width && Bmp.ToInt(i.biHeight) == g.height
    && Bmp.Available(file, h.bfOffBits, Bmp.DataCount(h)) == |t.image|
    && Viewer.DataHolds(Bmp.Fread(t.memory, file, h.bfOffBits, Bmp.DataCount(h)), g.width, g.height)
  }

  /** The viewing screen in the end. */
  ghost function Viewed(g: Capture.Geometry, xres: nat, t: Trip): seq<byte>
    requires Fits(g, xres, t) && ReadBack(g, xres, t)
  {
    var file := File(g, xres, t);
    var h := Bmp.FileHeaderIn(file, t.stack);
    Viewer.ViewAfter(t.view, Bmp.Fread(t.memory, file, h.bfOffBits, Bmp.DataCount(h)), g.width, g.height, xres)
  }

  /** The data the viewer draws: the saved image, then what its buffer held. */
  lemma ViewedIs(g: Capture.Geometry, xres: nat, t: Trip)
    requires Fits(g, xres, t) && IntSized(g.width, g.height)
    ensures ReadBack(g, xres, t)
    ensures var data := Capture.ImageAfter(g, t.frame, t.image) + t.memory[|t.image|..];
      && Viewer.DataHolds(data, g.width, g.height)
      && Viewed(g, xres, t) == Viewer.ViewAfter(t.view, data, g.width, g.height, xres)
  {
    var saved := Capture.ImageAfter(g, t.frame, t.image);
    IntSizedFields(g.width, g.height);
    Bmp.ReadSaved(g.width, g.height, t.palette, saved, t.stack, t.memory);
    assert g.height * g.width == g.width * g.height;
  }

  /** Channel k of pixel (x, y) is the same on both screens. */
  ghost predicate SameChannel(view: seq<byte>, xres: nat, screen: seq<byte>, pitch: nat, x: int, y: int, k: int) {
    var to, from := 4 * (y * xres + x) + k, 4 * (y * pitch + x) + k;
    0 <= to < |view| && 0 <= from < |screen| && view[to] == screen[from]
  }

  /** The file is read back, and the viewer shows at (x, y) what the capture put on its screen for (x, y). */
  ghost predicate ViewsAsCaptured(g: Capture.Geometry, xres: nat, t: Trip, x: int, y: int, k: int)
    requires Fits(g, xres, t)
  {
    && ReadBack(g, xres, t)
    && SameChannel(Viewed(g, xres, t), xres, Capture.ScreenAfter(g, t.frame, t.screen), g.Pitch(), x, y, k)
  }

  /**
   The round trip, for every frame, every screen used for capturing and every screen used for viewing:
   whatever the palette, the unread buffers and both screens held before, every pixel within the
   width of the viewing screen, and the whole last row, is viewed as it was captured.
   */
  lemma SavedImageViewsAsCaptured(g: Capture.Geometry, xres: nat, t: Trip, x: int, y: int, k: int)
    requires Fits(g, xres, t) && IntSized(g.width, g.height)
    requires 0 <= x < g.Columns() && 0 <= y < g.height && 0 <= k < 4 && (x < xres || y == g.height - 1)
    ensures ViewsAsCaptured(g, xres, t, x, y, k)
  {
    ViewedIs(g, xres, t);
    var rest := t.memory[|t.image|..];
    var data := Capture.ImageAfter(g, t.frame, t.image) + rest;
    ShownIsPixel(g, t.frame, t.image, rest, x, y, k);
    Viewer.ViewHolds(t.view, data, g.width, g.height, xres, x, y, k);
    Capture.ScreenHolds(g, t.frame, t.screen, x, y, k);
  }

  // ----- the other pixels

  /** A black frame but for the luma of pixel (x, y). */
  function BrightPixel(g: Capture.Geometry, x: int, y: int): (frame: seq<byte>)
    ensures |frame| == 2 * (g.width * g.height)
    ensures forall i :: 0 <= i < |frame| ==> frame[i] == if i == 2 * (y * g.width + x) then 255 else 0
  {
    seq(2 * (g.width * g.height), i => if i == 2 * (y * g.width + x) then 255 else 0)
  }

  /** The bytes that pixel (x', y') is converted from. */
  lemma BrightBytes(g: Capture.Geometry, x: int, y: int, x': int, y': int)
    requires g.Valid() && 0 <= x < g.width && 0 <= y < g.height && 0 <= x' < g.width && 0 <= y' < g.height
    ensures var frame, at := BrightPixel(g, x, y), 2 * (y' * g.width) + 4 * (x' / 2);
      && 0 <= at && at + 3 < |frame|
      && frame[at + 2 * (x' % 2)] == (if x' == x && y' == y then 255 else 0)
      && frame[at + 1] == 0 && frame[at + 3] == 0
  {
    Capture.MacropixelFits(g, BrightPixel(g, x, y), x', y');
    LumaIndex(y' * g.width, x', y * g.width + x);
    SamePosition(g.width, x, y, x', y');
  }

  lemma BlueOfBytes()
    ensures Capture.Convert(255, 0, 0).b == 39 && Capture.Convert(0, 0, 0).b == 0
  {
  }

  /** Only that pixel has any blue. */
  lemma BrightBlue(g: Capture.Geometry, x: int, y: int, x': int, y': int)
    requires g.Valid() && 0 <= x < g.width && 0 <= y < g.height && 0 <= x' < g.width && 0 <= y' < g.height
    ensures Capture.Pixel(g, BrightPixel(g, x, y), x', y').b == if x' == x && y' == y then 39 else 0
  {
    BrightBytes(g, x, y, x', y');
    var luma: byte := if x' == x && y' == y then 255 else 0;
    assert Capture.Pixel(g, BrightPixel(g, x, y), x', y') == Capture.Convert(luma, 0, 0);
    BlueOfBytes();
  }

  /** Lumas are the even bytes, one to a pixel; chroma bytes are odd. */
  lemma LumaIndex(row: int, x: int, q: int)
    ensures var at := 2 * row + 4 * (x / 2);
      (at + 2 * (x % 2) == 2 * q <==> row + x == q) && at + 1 != 2 * q && at + 3 != 2 * q
  {
  }

  lemma SamePosition(width: int, x: int, y: int, x': int, y': int)
    requires 0 <= x < width && 0 <= x' < width
    ensures y' * width + x' == y * width + x <==> x' == x && y' == y
  {
    RowMajor(y, width, x);
    RowMajor(y', width, x');
  }

  /** Everything black, but for the one bright pixel. */
  ghost function BrightTrip(g: Capture.Geometry, xres: nat, x: int, y: int): (t: Trip)
    requires g.Valid() && g.width > 0 && g.height > 0
    ensures Fits(g, xres, t) && t.frame == BrightPixel(g, x, y)
    ensures forall i :: 0 <= i < |t.image| ==> t.image[i] == 0
  {
    RowsBelow(g.height - 1, g.height - 1, g.Pitch());
    RowsBelow(g.height - 1, g.height - 1, xres);
    var n := 3 * (g.width * g.height);
    Trip(BrightPixel(g, x, y), Black(4 * ((g.height - 1) * g.Pitch() + g.Columns())), Black(n), Black(Bmp.PALETTE),
         Black(Bmp.FILE_HEADER + Bmp.INFO_HEADER), Black(n), Black(4 * ((g.height - 1) * xres + g.width)))
  }

  function Black(n: nat): (s: seq<byte>)
    ensures |s| == n && forall i :: 0 <= i < n ==> s[i] == 0
  {
    seq(n, _ => 0)
  }

  /** The image has no blue at another pixel, converted or not. */
  lemma NoBlueSaved(g: Capture.Geometry, m: seq<byte>, rest: seq<byte>, x: int, y: int, x': int, y': int)
    requires g.Valid() && |m| == 3 * (g.width * g.height) && forall i :: 0 <= i < |m| ==> m[i] == 0
    requires 0 <= x < g.width && 0 <= y < g.height && 0 <= x' < g.width && 0 <= y' < g.height && y' != y
    ensures var data := Capture.ImageAfter(g, BrightPixel(g, x, y), m) + rest;
      Viewer.DataHolds(data, g.width, g.height) && Viewer.Shown(data, g.width, g.height, x', y', 0) == 0
  {
    assert g.height * g.width == g.width * g.height;
    NoBlueThere(g, m, x, y, x', y');
  }

  lemma NoBlueThere(g: Capture.Geometry, m: seq<byte>, x: int, y: int, x': int, y': int)
    requires g.Valid() && |m| == 3 * (g.width * g.height) && forall i :: 0 <= i < |m| ==> m[i] == 0
    requires 0 <= x < g.width && 0 <= y < g.height && 0 <= x' < g.width && 0 <= y' < g.height && y' != y
    ensures var at := 3 * ((g.height - 1 - y') * g.width + x');
      0 <= at < |m| && Capture.ImageAfter(g, BrightPixel(g, x, y), m)[at] == 0
  {
    if x' < g.Columns() {
      Capture.ImageHolds(g, BrightPixel(g, x, y), m, x', y', 0);
      BrightBlue(g, x, y, x', y');
    } else {
      Capture.ImageKeeps(g, BrightPixel(g, x, y), m, x', y', 0);
    }
  }

  lemma CapturedBright(g: Capture.Geometry, screen: seq<byte>, x: int, y: int)
    requires g.Valid() && Capture.ScreenFits(g, |screen|) && 0 <= x < g.Columns() && 0 <= y < g.height
    ensures var at := 4 * (y * g.Pitch() + x);
      0 <= at < |screen| && Capture.ScreenAfter(g, BrightPixel(g, x, y), screen)[at] == 39
  {
    Capture.ScreenHolds(g, BrightPixel(g, x, y), screen, x, y, 0);
    BrightBlue(g, x, y, x, y);
  }

  lemma ViewedDark(g: Capture.Geometry, view: seq<byte>, data: seq<byte>, m: seq<byte>, rest: seq<byte>,
                   xres: nat, x: int, y: int)
    requires g.Valid() && |m| == 3 * (g.width * g.height) && forall i :: 0 <= i < |m| ==> m[i] == 0
    requires xres <= x < g.width && 0 <= y < g.height - 1 && Viewer.ImageFits(g.width, g.height, xres, |view|)
    requires data == Capture.ImageAfter(g, BrightPixel(g, x, y), m) + rest && Viewer.DataHolds(data, g.width, g.height)
    ensures var at := 4 * (y * xres + x);
      0 <= at < |view| && Viewer.ViewAfter(view, data, g.width, g.height, xres)[at] == 0
  {
    var x', y' := Viewer.OtherShown(view, data, g.width, g.height, xres, x, y, 0);
    NoBlueSaved(g, m, rest, x, y, x', y');
  }

  /** A bright pixel beyond the width of the viewing screen is drawn over by a later, black row. */
  lemma BrightPixelLost(g: Capture.Geometry, xres: nat, x: int, y: int)
    requires g.Valid() && IntSized(g.width, g.height)
    requires xres <= x < g.Columns() && 0 <= y < g.height - 1
    ensures !ViewsAsCaptured(g, xres, BrightTrip(g, xres, x, y), x, y, 0)
  {
    var t := BrightTrip(g, xres, x, y);
    ViewedIs(g, xres, t);
    var rest := t.memory[|t.image|..];
    ViewedDark(g, t.view, Capture.ImageAfter(g, t.frame, t.image) + rest, t.image, rest, xres, x, y);
    CapturedBright(g, t.screen, x, y);
  }

  /** The pixel survives every round trip. */
  ghost predicate Survives(g: Capture.Geometry, xres: nat, x: int, y: int) {
    forall t, k | Fits(g, xres, t) && 0 <= k < 4 :: ViewsAsCaptured(g, xres, t, x, y, k)
  }

  /** Exactly which captured pixels survive every round trip: those within the viewing screen, and the last row. */
  lemma SurvivesIff(g: Capture.Geometry, xres: nat, x: int, y: int)
    requires g.Valid() && IntSized(g.width, g.height) && 0 <= x < g.Columns() && 0 <= y < g.height
    ensures Survives(g, xres, x, y) <==> x < xres || y == g.height - 1
  {
    if x < xres || y == g.height - 1 {
      forall t, k | Fits(g, xres, t) && 0 <= k < 4 ensures ViewsAsCaptured(g, xres, t, x, y, k) {
        SavedImageViewsAsCaptured(g, xres, t, x, y, k);
      }
    } else {
      BrightPixelLost(g, xres, x, y);
    }
  }

  // ----- the programs themselves

  /** processImage as a whole: the conversion loops, then saveImage on the converted image. */
  method ProcessImage(g: Capture.Geometry, p: array<byte>, fbp: array<byte>, inimg: array<byte>,
                      palette: seq<byte>, openable: bool)
    returns (file: Bmp.Option<seq<byte>>)
    requires Capture.FrameFits(g, p[..]) && Capture.ScreenFits(g, fbp.Length)
    requires inimg.Length == 3 * (g.width * g.height) && |palette| == Bmp.PALETTE
    requires p != fbp && p != inimg && fbp != inimg
    modifies fbp, inimg
    ensures fbp[..] == Capture.ScreenAfter(g, p[..], old(fbp[..]))
    ensures file == if openable
      then Bmp.Some(Bmp.BmpFile(g.width, g.height, palette, Capture.ImageAfter(g, p[..], old(inimg[..])))) else Bmp.None
  {
    ghost var written := Capture.ConvertFrame(g, p, fbp, inimg);
    file := Bmp.SaveImage(g.width, g.height, inimg, palette, openable);
  }

  /** The two programs one after the other, from the camera's frame to the viewer's screen. */
  method CaptureThenView(
    g: Capture.Geometry, p: array<byte>, fbp: array<byte>, inimg: array<byte>, palette: seq<byte>,
    stack: seq<byte>, data: array<byte>, xres: nat, bmp: array<byte>, fb: array<byte>)
    requires Capture.FrameFits(g, p[..]) && Capture.ScreenFits(g, fbp.Length) && IntSized(g.width, g.height)
    requires inimg.Length == 3 * (g.width * g.height) <= data.Length
    requires |palette| == Bmp.PALETTE && |stack| == Bmp.FILE_HEADER + Bmp.INFO_HEADER
    requires Viewer.ImageFits(g.width, g.height, xres, bmp.Length) && fb.Length == bmp.Length
    requires |{p, fbp, inimg, data, bmp, fb}| == 6
    modifies fbp, inimg, data, bmp, fb
    ensures forall x, y, k | 0 <= x < g.Columns() && 0 <= y < g.height && 0 <= k < 4 ::
      x < xres || y == g.height - 1 ==> SameChannel(fb[..], xres, fbp[..], g.Pitch(), x, y, k)
  {
    ghost var t := Trip(p[..], fbp[..], inimg[..], palette, stack, data[..], bmp[..]);
    Distinct(p, fbp, inimg, data, bmp, fb);
    var file := ProcessImage(g, p, fbp, inimg, palette, true);
    ViewedIs(g, xres, t);
    var status, cols, rows := Bmp.ReadBmp(file, stack, data, 0, 0);
    Viewer.ViewBmp(data, cols, rows, xres, bmp, fb);
    assert fb[..] == Viewed(g, xres, t);
    forall x, y, k | 0 <= x < g.Columns() && 0 <= y < g.height && 0 <= k < 4 && (x < xres || y == g.height - 1)
      ensures SameChannel(fb[..], xres, fbp[..], g.Pitch(), x, y, k)
    {
      SavedImageViewsAsCaptured(g, xres, t, x, y, k);
    }
  }

  lemma Distinct(a: array<byte>, b: array<byte>, c: array<byte>, d: array<byte>, e: array<byte>, f: array<byte>)
    requires |{a, b, c, d, e, f}| == 6
    ensures a != b && a != c && a != d && a != e && a != f && b != c && b != d && b != e && b != f
    ensures c != d && c != e && c != f && d != e && d != f && e != f
  {
  }
}
