/** The BMP file: header structures as bytes, the writer saveImage and the reader readBmp. */
module Bmp {
  import opened Bytes

  datatype Option<+T> = None | Some(value: T)

  // ----- little-endian fields

  type ushort = x: int | 0 <= x < 0x1_0000
  type uint = x: int | 0 <= x < 0x1_0000_0000

  function Bytes2(v: ushort): (s: seq<byte>)
    ensures |s| == 2
  {
    [v % 256, v / 256]
  }

  function Bytes4(v: uint): (s: seq<byte>)
    ensures |s| == 4
  {
    [v % 256, v / 256 % 256, v / 65536 % 256, v / 16777216]
  }

  function Field2(s: seq<byte>, at: nat): ushort
    requires at + 2 <= |s|
  {
    var a: int, b: int := s[at], s[at + 1];
    a + 256 * b
  }

  function Field4(s: seq<byte>, at: nat): uint
    requires at + 4 <= |s|
  {
    var a: int, b: int, c: int, d: int := s[at], s[at + 1], s[at + 2], s[at + 3];
    a + 256 * b + 65536 * c + 16777216 * d
  }

  /** A field read back at the place where it was written. */
  lemma FieldRoundTrip2(pre: seq<byte>, v: ushort, post: seq<byte>)
    ensures Field2(pre + Bytes2(v) + post, |pre|) == v
  {
  }

  lemma FieldRoundTrip4(pre: seq<byte>, v: uint, post: seq<byte>)
    ensures Field4(pre + Bytes4(v) + post, |pre|) == v
  {
    var s := pre + Bytes4(v) + post;
    assert s[|pre|] == v % 256 && s[|pre| + 1] == v / 256 % 256;
    assert s[|pre| + 2] == v / 65536 % 256 && s[|pre| + 3] == v / 16777216;
    assert v == v % 256 + 256 * (v / 256);
    assert v / 256 == v / 256 % 256 + 256 * (v / 65536);
    assert v / 65536 == v / 65536 % 256 + 256 * (v / 16777216);
  }

  /** The lowest digit, and the rest. */
  lemma Digit(a: int, q: int)
    requires 0 <= a < 256
    ensures (a + 256 * q) % 256 == a && (a + 256 * q) / 256 == q
  {
  }

  lemma DivideTwice(v: nat)
    ensures v / 65536 == v / 256 / 256 && v / 16777216 == v / 256 / 256 / 256
  {
  }

  lemma BytesRoundTrip4(s: seq<byte>, at: nat)
    requires at + 4 <= |s|
    ensures Bytes4(Field4(s, at)) == s[at..at + 4]
  {
    var a: int, b: int, c: int, d: int := s[at], s[at + 1], s[at + 2], s[at + 3];
    var v := Field4(s, at);
    assert v == a + 256 * (b + 256 * (c + 256 * d));
    Digit(a, b + 256 * (c + 256 * d));
    Digit(b, c + 256 * d);
    Digit(c, d);
    DivideTwice(v);
    assert Bytes4(v) == [s[at], s[at + 1], s[at + 2], s[at + 3]];
  }

  lemma BytesRoundTrip2(s: seq<byte>, at: nat)
    requires at + 2 <= |s|
    ensures Bytes2(Field2(s, at)) == s[at..at + 2]
  {
  }

  /** The number a sequence of bytes stands for, low byte first. */
  function LittleEndian(s: seq<byte>): nat {
    if s == [] then 0 else s[0] as int + 256 * LittleEndian(s[1..])
  }

  lemma LittleEndian4(s: seq<byte>)
    requires |s| == 4
    ensures LittleEndian(s) == s[0] as int + 256 * s[1] as int + 65536 * s[2] as int + 16777216 * s[3] as int
  {
    var t1, t2, t3 := s[1..], s[2..], s[3..];
    assert t1[1..] == t2 && t2[1..] == t3 && t3[1..] == [];
    assert LittleEndian(t3) == s[3] as int;
    assert LittleEndian(t2) == s[2] as int + 256 * LittleEndian(t3);
    assert LittleEndian(t1) == s[1] as int + 256 * LittleEndian(t2);
  }

  /** A field in memory is its number, low byte first. */
  lemma FieldsLittleEndian(v: uint, s: seq<byte>, at: nat)
    requires at + 4 <= |s|
    ensures LittleEndian(Bytes4(v)) == v
    ensures Field4(s, at) == LittleEndian(s[at..at + 4])
  {
    LittleEndian4(Bytes4(v));
    LittleEndian4(s[at..at + 4]);
    FieldRoundTrip4([], v, []);
    assert [] + Bytes4(v) + [] == Bytes4(v);
  }

  // ----- the two header structures

  datatype FileHeader = FileHeader(bfType: ushort, bfSize: uint, bfReserved1: ushort, bfReserved2: ushort,
                                   bfOffBits: uint)

  datatype InfoHeader = InfoHeader(biSize: uint, biWidth: uint, biHeight: uint, biPlanes: ushort, biBitCount: ushort,
                                   biCompression: uint, sizeImage: uint, biXPelsPerMeter: uint, biYPelsPerMeter: uint,
                                   biClrUsed: uint, biClrImportant: uint)

  const FILE_HEADER: nat := 14
  const INFO_HEADER: nat := 40
  const PALETTE: nat := 1024
  const OFF_BITS: nat := FILE_HEADER + INFO_HEADER + PALETTE

  /** The packed structure in memory. */
  function FileHeaderBytes(h: FileHeader): (s: seq<byte>)
    ensures |s| == FILE_HEADER
  {
    Bytes2(h.bfType) + Bytes4(h.bfSize) + Bytes2(h.bfReserved1) + Bytes2(h.bfReserved2) + Bytes4(h.bfOffBits)
  }

  function FileHeaderOf(s: seq<byte>): FileHeader
    requires |s| == FILE_HEADER
  {
    FileHeader(Field2(s, 0), Field4(s, 2), Field2(s, 6), Field2(s, 8), Field4(s, 10))
  }

  /** Every field is naturally aligned, so the structure has no padding. */
  function InfoHeaderBytes(h: InfoHeader): (s: seq<byte>)
    ensures |s| == INFO_HEADER
  {
    Bytes4(h.biSize) + Bytes4(h.biWidth) + Bytes4(h.biHeight) + Bytes2(h.biPlanes) + Bytes2(h.biBitCount) +
    Bytes4(h.biCompression) + Bytes4(h.sizeImage) + Bytes4(h.biXPelsPerMeter) + Bytes4(h.biYPelsPerMeter) +
    Bytes4(h.biClrUsed) + Bytes4(h.biClrImportant)
  }

  function InfoHeaderOf(s: seq<byte>): InfoHeader
    requires |s| == INFO_HEADER
  {
    InfoHeader(Field4(s, 0), Field4(s, 4), Field4(s, 8), Field2(s, 12), Field2(s, 14), Field4(s, 16), Field4(s, 20),
               Field4(s, 24), Field4(s, 28), Field4(s, 32), Field4(s, 36))
  }

  /** Reading back what was written, for every header. */
  lemma FileHeaderRoundTrip(h: FileHeader)
    ensures FileHeaderOf(FileHeaderBytes(h)) == h
  {
    var s := FileHeaderBytes(h);
    var p1 := Bytes2(h.bfType);
    var p2 := p1 + Bytes4(h.bfSize);
    var p3 := p2 + Bytes2(h.bfReserved1);
    var p4 := p3 + Bytes2(h.bfReserved2);
    FieldAt2(s, [], h.bfType);
    FieldAt4(s, p1, h.bfSize);
    FieldAt2(s, p2, h.bfReserved1);
    FieldAt2(s, p3, h.bfReserved2);
    FieldAt4(s, p4, h.bfOffBits);
  }

  lemma InfoHeaderRoundTrip(h: InfoHeader)
    ensures InfoHeaderOf(InfoHeaderBytes(h)) == h
  {
    var s := InfoHeaderBytes(h);
    var p1 := Bytes4(h.biSize);
    var p2 := p1 + Bytes4(h.biWidth);
    var p3 := p2 + Bytes4(h.biHeight);
    var p4 := p3 + Bytes2(h.biPlanes);
    var p5 := p4 + Bytes2(h.biBitCount);
    var p6 := p5 + Bytes4(h.biCompression);
    var p7 := p6 + Bytes4(h.sizeImage);
    var p8 := p7 + Bytes4(h.biXPelsPerMeter);
    var p9 := p8 + Bytes4(h.biYPelsPerMeter);
    var p10 := p9 + Bytes4(h.biClrUsed);
    FieldAt4(s, [], h.biSize);
    FieldAt4(s, p1, h.biWidth);
    FieldAt4(s, p2, h.biHeight);
    FieldAt2(s, p3, h.biPlanes);
    FieldAt2(s, p4, h.biBitCount);
    FieldAt4(s, p5, h.biCompression);
    FieldAt4(s, p6, h.sizeImage);
    FieldAt4(s, p7, h.biXPelsPerMeter);
    FieldAt4(s, p8, h.biYPelsPerMeter);
    FieldAt4(s, p9, h.biClrUsed);
    FieldAt4(s, p10, h.biClrImportant);
  }

  lemma FieldAt4(s: seq<byte>, pre: seq<byte>, v: uint)
    requires pre + Bytes4(v) <= s
    ensures Field4(s, |pre|) == v
  {
    var n := |pre| + 4;
    assert s == pre + Bytes4(v) + s[n..];
    FieldRoundTrip4(pre, v, s[n..]);
  }

  lemma FieldAt2(s: seq<byte>, pre: seq<byte>, v: ushort)
    requires pre + Bytes2(v) <= s
    ensures Field2(s, |pre|) == v
  {
    var n := |pre| + 2;
    assert s == pre + Bytes2(v) + s[n..];
    FieldRoundTrip2(pre, v, s[n..]);
  }

  /** The places of the fields. */
  lemma FileHeaderPlaces(h: FileHeader)
    ensures var s := FileHeaderBytes(h);
      && s[0..2] == Bytes2(h.bfType) && s[2..6] == Bytes4(h.bfSize) && s[6..8] == Bytes2(h.bfReserved1)
      && s[8..10] == Bytes2(h.bfReserved2) && s[10..14] == Bytes4(h.bfOffBits)
  {
  }

  lemma InfoHeaderPlaces(h: InfoHeader)
    ensures var s := InfoHeaderBytes(h);
      && s[0..4] == Bytes4(h.biSize) && s[4..8] == Bytes4(h.biWidth) && s[8..12] == Bytes4(h.biHeight)
      && s[12..14] == Bytes2(h.biPlanes) && s[14..16] == Bytes2(h.biBitCount) && s[16..20] == Bytes4(h.biCompression)
      && s[20..24] == Bytes4(h.sizeImage) && s[24..28] == Bytes4(h.biXPelsPerMeter)
      && s[28..32] == Bytes4(h.biYPelsPerMeter) && s[32..36] == Bytes4(h.biClrUsed)
      && s[36..40] == Bytes4(h.biClrImportant)
  {
  }

  /** Writing back what was read: the structures hold every byte of the file's header. */
  lemma FileHeaderBytesRoundTrip(s: seq<byte>)
    requires |s| == FILE_HEADER
    ensures FileHeaderBytes(FileHeaderOf(s)) == s
  {
    BytesRoundTrip2(s, 0);
    BytesRoundTrip4(s, 2);
    BytesRoundTrip2(s, 6);
    BytesRoundTrip2(s, 8);
    BytesRoundTrip4(s, 10);
    assert s == s[0..2] + s[2..6] + s[6..8] + s[8..10] + s[10..14];
  }

  lemma InfoHeaderBytesRoundTrip(s: seq<byte>)
    requires |s| == INFO_HEADER
    ensures InfoHeaderBytes(InfoHeaderOf(s)) == s
  {
    BytesRoundTrip4(s, 0);
    BytesRoundTrip4(s, 4);
    BytesRoundTrip4(s, 8);
    BytesRoundTrip2(s, 12);
    BytesRoundTrip2(s, 14);
    BytesRoundTrip4(s, 16);
    BytesRoundTrip4(s, 20);
    BytesRoundTrip4(s, 24);
    BytesRoundTrip4(s, 28);
    BytesRoundTrip4(s, 32);
    BytesRoundTrip4(s, 36);
    InfoHeaderIs(InfoHeaderOf(s), s);
  }

  lemma InfoHeaderIs(h: InfoHeader, s: seq<byte>)
    requires |s| == INFO_HEADER && s[0..4] == Bytes4(h.biSize) && s[4..8] == Bytes4(h.biWidth)
    requires s[8..12] == Bytes4(h.biHeight) && s[12..14] == Bytes2(h.biPlanes) && s[14..16] == Bytes2(h.biBitCount)
    requires s[16..20] == Bytes4(h.biCompression) && s[20..24] == Bytes4(h.sizeImage)
    requires s[24..28] == Bytes4(h.biXPelsPerMeter) && s[28..32] == Bytes4(h.biYPelsPerMeter)
    requires s[32..36] == Bytes4(h.biClrUsed) && s[36..40] == Bytes4(h.biClrImportant)
    ensures InfoHeaderBytes(h) == s
  {
    InfoHeaderPieces(s);
  }

  lemma InfoHeaderPieces(s: seq<byte>)
    requires |s| == INFO_HEADER
    ensures s == s[0..4] + s[4..8] + s[8..12] + s[12..14] + s[14..16] + s[16..20] + s[20..24] + s[24..28] +
      s[28..32] + s[32..36] + s[36..40]
  {
  }

  // ----- the writer

  function FileHeaderFor(width: nat, height: nat): FileHeader {
    FileHeader(0x4d42, (OFF_BITS + 3 * (width * height)) % WORD, 0, 0, OFF_BITS)
  }

  function InfoHeaderFor(width: nat, height: nat): InfoHeader {
    InfoHeader(INFO_HEADER, width % WORD, height % WORD, 1, 24, 0, 3 * (width * height) % WORD, 0x0B12, 0x0B12, 0, 0)
  }

  /** The bytes of a saved image; the palette is whatever the uninitialised array held. */
  function BmpFile(width: nat, height: nat, palette: seq<byte>, image: seq<byte>): seq<byte> {
    FileHeaderBytes(FileHeaderFor(width, height)) + InfoHeaderBytes(InfoHeaderFor(width, height)) + palette + image
  }

  method FillFileHeader(width: nat, height: nat) returns (h: FileHeader)
    ensures h == FileHeaderFor(width, height)
  {
    var pixels := width * height;
    h := FileHeader(0, 0, 0, 0, 0);
    h := h.(bfType := 0x4d42);
    h := h.(bfOffBits := FILE_HEADER + INFO_HEADER);
    h := h.(bfOffBits := h.bfOffBits + 4 * 256);
    h := h.(bfSize := h.bfOffBits);
    h := h.(bfSize := (h.bfSize + pixels * 3) % WORD);
  }

  method FillInfoHeader(width: nat, height: nat) returns (h: InfoHeader)
    ensures h == InfoHeaderFor(width, height)
  {
    var pixels := width * height;
    h := InfoHeader(0, 0, 0, 0, 0, 0, 0, 0, 0, 0, 0);
    h := h.(biSize := INFO_HEADER, biWidth := width % WORD, biHeight := height % WORD);
    h := h.(biPlanes := 1, biBitCount := 3 * 8);
    h := h.(sizeImage := pixels * 24 / 8 % WORD);
    h := h.(biXPelsPerMeter := 0x0B12, biYPelsPerMeter := 0x0B12);
  }

  /** Appends the four parts in turn; openable tells whether the file can be opened. */
  method SaveImage(width: nat, height: nat, inimg: array<byte>, palette: seq<byte>, openable: bool)
    returns (file: Option<seq<byte>>)
    requires inimg.Length == 3 * (width * height) && |palette| == PALETTE
    ensures file == if openable then Some(BmpFile(width, height, palette, inimg[..])) else None
  {
    var head := FillFileHeader(width, height);
    var info := FillInfoHeader(width, height);
    if !openable {
      return None;
    }
    var bytes := FileHeaderBytes(head);
    bytes := bytes + InfoHeaderBytes(info);
    bytes := bytes + palette;
    bytes := bytes + inimg[..];
    file := Some(bytes);
  }

  // ----- the reader

  /** How many of n bytes a read at pos gets. */
  function Available(file: seq<byte>, pos: nat, n: nat): (k: nat)
    ensures k <= n && (k > 0 ==> pos + k <= |file|)
  {
    if pos <= |file| then Min(n, |file| - pos) else 0
  }

  /** Memory after a read: the bytes the file has, and behind them what was there before. */
  function Fread(memory: seq<byte>, file: seq<byte>, pos: nat, n: nat): (after: seq<byte>)
    requires Available(file, pos, n) <= |memory|
    ensures |after| == |memory|
  {
    var k := Available(file, pos, n);
    (if k > 0 then file[pos..pos + k] else []) + memory[k..]
  }

  lemma FreadIs(memory: seq<byte>, file: seq<byte>, pos: nat, n: nat, after: seq<byte>)
    requires var k := Available(file, pos, n);
      && k <= |memory| == |after|
      && (forall i :: 0 <= i < k ==> after[i] == file[pos + i])
      && (forall i :: k <= i < |after| ==> after[i] == memory[i])
    ensures after == Fread(memory, file, pos, n)
  {
  }

  /** A read into the caller's buffer. */
  method FreadData(file: seq<byte>, pos: nat, n: nat, data: array<byte>)
    requires Available(file, pos, n) <= data.Length
    modifies data
    ensures data[..] == Fread(old(data[..]), file, pos, n)
  {
    var k := Available(file, pos, n);
    forall i | 0 <= i < k {
      data[i] := file[pos + i];
    }
    FreadIs(old(data[..]), file, pos, n, data[..]);
  }

  /** The headers readBmp works with: stack contents where a short file leaves them unread. */
  function FileHeaderIn(file: seq<byte>, stack: seq<byte>): FileHeader
    requires |stack| == FILE_HEADER + INFO_HEADER
  {
    FileHeaderOf(Fread(stack[..FILE_HEADER], file, 0, FILE_HEADER))
  }

  function InfoHeaderIn(file: seq<byte>, stack: seq<byte>): InfoHeader
    requires |stack| == FILE_HEADER + INFO_HEADER
  {
    InfoHeaderOf(Fread(stack[FILE_HEADER..], file, FILE_HEADER, INFO_HEADER))
  }

  /** The byte count of the last read: an unsigned difference. */
  function DataCount(h: FileHeader): uint {
    (h.bfSize - h.bfOffBits) % WORD
  }

  /** An unsigned field stored in an int. */
  function ToInt(v: uint): int {
    if v < 0x8000_0000 then v else v - WORD
  }

  /** The two structures after the reads: the first 54 bytes of the file, or as many as it has. */
  function HeaderMemory(file: seq<byte>, stack: seq<byte>): (s: seq<byte>)
    requires |stack| == FILE_HEADER + INFO_HEADER
    ensures |s| == 54
    ensures forall i :: 0 <= i < 54 ==> s[i] == if i < |file| then file[i] else stack[i]
  {
    if |file| < 54 then file + stack[|file|..] else file[..54]
  }

  /** The fields the reader uses, by their position in the file. */
  lemma HeadersInMemory(file: seq<byte>, stack: seq<byte>)
    requires |stack| == FILE_HEADER + INFO_HEADER
    ensures var s, h, i := HeaderMemory(file, stack), FileHeaderIn(file, stack), InfoHeaderIn(file, stack);
      && h.bfSize == Field4(s, 2) && h.bfOffBits == Field4(s, 10)
      && i.biWidth == Field4(s, 18) && i.biHeight == Field4(s, 22) && i.biBitCount == Field2(s, 28)
  {
    var s := HeaderMemory(file, stack);
    var a := Fread(stack[..FILE_HEADER], file, 0, FILE_HEADER);
    var b := Fread(stack[FILE_HEADER..], file, FILE_HEADER, INFO_HEADER);
    assert forall i :: 0 <= i < 14 ==> a[i] == s[i];
    assert forall i :: 0 <= i < 40 ==> b[i] == s[14 + i];
  }

  /** What the caller owes: room for the bytes the file really delivers. */
  predicate DataFits(file: Option<seq<byte>>, stack: seq<byte>, size: nat)
    requires |stack| == FILE_HEADER + INFO_HEADER
  {
    file.Some? && InfoHeaderIn(file.value, stack).biBitCount == 24 ==>
      var h := FileHeaderIn(file.value, stack);
      Available(file.value, h.bfOffBits, DataCount(h)) <= size
  }

  /** The last read gets the bytes from bfOffBits to bfSize, or to the end of a shorter file, and no others. */
  lemma DataRead(file: seq<byte>, h: FileHeader, memory: seq<byte>)
    requires Available(file, h.bfOffBits, DataCount(h)) <= |memory|
    ensures var off, size := h.bfOffBits, h.bfSize;
      var n := if off <= size then size - off else size - off + 0x1_0000_0000;
      var k := if |file| < off then 0 else if |file| < off + n then |file| - off else n;
      var after := Fread(memory, file, off, DataCount(h));
      && k == Available(file, off, DataCount(h))
      && (forall i :: 0 <= i < k ==> after[i] == file[off + i])
      && (forall i :: k <= i < |memory| ==> after[i] == memory[i])
  {
  }

  /** None is a file that cannot be opened; status is 0 or -1 as in the source. */
  method ReadBmp(file: Option<seq<byte>>, stack: seq<byte>, data: array<byte>, cols0: int, rows0: int)
    returns (status: int, cols: int, rows: int)
    requires |stack| == FILE_HEADER + INFO_HEADER && DataFits(file, stack, data.Length)
    modifies data
    ensures status == if file.None? || InfoHeaderIn(file.value, stack).biBitCount != 24 then -1 else 0
    ensures status == -1 ==> cols == cols0 && rows == rows0 && data[..] == old(data[..])
    ensures status == 0 ==>
      var h, i := FileHeaderIn(file.value, stack), InfoHeaderIn(file.value, stack);
      && cols == ToInt(i.biWidth) && rows == ToInt(i.biHeight)
      && data[..] == Fread(old(data[..]), file.value, h.bfOffBits, DataCount(h))
    ensures file.None? ==> status == -1
    ensures file.Some? ==>
      var f, s := file.value, HeaderMemory(file.value, stack);
      && status == (if s[28] == 24 && s[29] == 0 then 0 else -1)
      && (status == 0 ==>
        var size, off, width, height := Field4(s, 2), Field4(s, 10), Field4(s, 18), Field4(s, 22);
        var n := if off <= size then size - off else size - off + 0x1_0000_0000;
        var k := if |f| < off then 0 else if |f| < off + n then |f| - off else n;
        && cols == (if width < 0x8000_0000 then width else width - 0x1_0000_0000)
        && rows == (if height < 0x8000_0000 then height else height - 0x1_0000_0000)
        && k <= data.Length
        && (forall i :: 0 <= i < k ==> data[i] == f[off + i])
        && (forall i :: k <= i < data.Length ==> data[i] == old(data[i])))
  {
    status, cols, rows := -1, cols0, rows0;
    if file.None? {
      return;
    }
    var f := file.value;
    HeadersInMemory(f, stack);
    var head, info := FileHeaderIn(f, stack), InfoHeaderIn(f, stack);
    if info.biBitCount != 24 {
      return;
    }
    cols, rows := ToInt(info.biWidth), ToInt(info.biHeight);
    DataRead(f, head, data[..]);
    FreadData(f, head.bfOffBits, DataCount(head), data);
    status := 0;
  }

  /** Four parts of known length are read back one by one. */
  lemma ReadParts(a: seq<byte>, b: seq<byte>, palette: seq<byte>, image: seq<byte>,
                  m1: seq<byte>, m2: seq<byte>, m3: seq<byte>)
    requires |a| == |m1| && |b| == |m2| && |image| <= |m3|
    ensures var f, off := a + b + palette + image, |a| + |b| + |palette|;
      && Available(f, 0, |a|) == |a| && Fread(m1, f, 0, |a|) == a
      && Available(f, |a|, |b|) == |b| && Fread(m2, f, |a|, |b|) == b
      && f[off..] == image && Available(f, off, |image|) == |image|
      && Fread(m3, f, off, |image|) == image + m3[|image|..]
  {
    var f, off := a + b + palette + image, |a| + |b| + |palette|;
    assert f[0..|a|] == a;
    assert f[|a|..|a| + |b|] == b;
    assert f[off..] == image && f[off..off + |image|] == image;
    assert m1[|a|..] == [] && m2[|b|..] == [];
  }

  lemma ReadHeaders(a: seq<byte>, b: seq<byte>, palette: seq<byte>, image: seq<byte>, stack: seq<byte>)
    requires |a| == FILE_HEADER && |b| == INFO_HEADER && |stack| == FILE_HEADER + INFO_HEADER
    ensures var f := a + b + palette + image;
      FileHeaderIn(f, stack) == FileHeaderOf(a) && InfoHeaderIn(f, stack) == InfoHeaderOf(b)
  {
    ReadParts(a, b, palette, image, stack[..FILE_HEADER], stack[FILE_HEADER..], image);
  }

  lemma CountSaved(width: nat, height: nat)
    requires OFF_BITS + 3 * (width * height) < WORD
    ensures DataCount(FileHeaderFor(width, height)) == 3 * (width * height)
  {
  }

  /** Reading a saved file: both headers decode to what was encoded, and the data is the image. */
  lemma ReadSaved(width: nat, height: nat, palette: seq<byte>, image: seq<byte>, stack: seq<byte>, memory: seq<byte>)
    requires |palette| == PALETTE && |image| == 3 * (width * height) <= |memory|
    requires |stack| == FILE_HEADER + INFO_HEADER
    requires OFF_BITS + |image| < WORD
    ensures var f := BmpFile(width, height, palette, image);
      var h := FileHeaderIn(f, stack);
      && h == FileHeaderFor(width, height)
      && InfoHeaderIn(f, stack) == InfoHeaderFor(width, height)
      && Available(f, h.bfOffBits, DataCount(h)) == |image|
      && Fread(memory, f, h.bfOffBits, DataCount(h)) == image + memory[|image|..]
  {
    var fh, ih := FileHeaderFor(width, height), InfoHeaderFor(width, height);
    var a, b := FileHeaderBytes(fh), InfoHeaderBytes(ih);
    assert FileHeaderOf(a) == fh by { FileHeaderRoundTrip(fh); }
    assert InfoHeaderOf(b) == ih by { InfoHeaderRoundTrip(ih); }
    ReadHeaders(a, b, palette, image, stack);
    ReadParts(a, b, palette, image, a, b, memory);
    CountSaved(width, height);
  }

  lemma FileHeaderConstants(a: seq<byte>)
    requires |a| == 14 && a[0..2] == Bytes2(0x4d42) && a[6..8] == a[8..10] == Bytes2(0) && a[10..14] == Bytes4(1078)
    ensures a[0..2] == [66, 77] && a[6..10] == [0, 0, 0, 0] && a[10..14] == [54, 4, 0, 0]
  {
    assert a[6..10] == a[6..8] + a[8..10];
  }

  lemma SavedFileHeader(width: nat, height: nat)
    ensures var a := FileHeaderBytes(FileHeaderFor(width, height));
      && a[0..2] == [66, 77]
      && LittleEndian(a[2..6]) == (1078 + 3 * (width * height)) % 0x1_0000_0000
      && a[6..10] == [0, 0, 0, 0]
      && a[10..14] == [54, 4, 0, 0]
  {
    var h := FileHeaderFor(width, height);
    var a := FileHeaderBytes(h);
    FileHeaderPlaces(h);
    FieldsLittleEndian(h.bfSize, a, 0);
    FileHeaderConstants(a);
  }

  /** The fields that are the same in every saved file. */
  lemma InfoHeaderConstants(b: seq<byte>)
    requires |b| == 40 && b[0..4] == Bytes4(40) && b[12..14] == Bytes2(1) && b[14..16] == Bytes2(24)
    requires b[16..20] == Bytes4(0) && b[24..28] == b[28..32] == Bytes4(0x0B12) && b[32..36] == b[36..40] == Bytes4(0)
    ensures b[0..4] == [40, 0, 0, 0] && b[12..16] == [1, 0, 24, 0] && b[16..20] == [0, 0, 0, 0]
    ensures b[24..32] == [0x12, 0x0B, 0, 0, 0x12, 0x0B, 0, 0] && b[32..40] == [0, 0, 0, 0, 0, 0, 0, 0]
  {
    assert b[12..16] == b[12..14] + b[14..16];
    assert b[24..32] == b[24..28] + b[28..32];
    assert b[32..40] == b[32..36] + b[36..40];
  }

  lemma SavedInfoHeader(width: nat, height: nat)
    ensures var b := InfoHeaderBytes(InfoHeaderFor(width, height));
      && b[0..4] == [40, 0, 0, 0]
      && LittleEndian(b[4..8]) == width % 0x1_0000_0000
      && LittleEndian(b[8..12]) == height % 0x1_0000_0000
      && b[12..16] == [1, 0, 24, 0]
      && b[16..20] == [0, 0, 0, 0]
      && LittleEndian(b[20..24]) == 3 * (width * height) % 0x1_0000_0000
      && b[24..32] == [0x12, 0x0B, 0, 0, 0x12, 0x0B, 0, 0]
      && b[32..40] == [0, 0, 0, 0, 0, 0, 0, 0]
  {
    var h := InfoHeaderFor(width, height);
    var b := InfoHeaderBytes(h);
    InfoHeaderPlaces(h);
    FieldsLittleEndian(h.biWidth, b, 0);
    FieldsLittleEndian(h.biHeight, b, 0);
    FieldsLittleEndian(h.sizeImage, b, 0);
    InfoHeaderConstants(b);
  }

  /** The saved file byte by byte; numbers are low byte first. */
  lemma SavedBytes(width: nat, height: nat, palette: seq<byte>, image: seq<byte>)
    requires |palette| == 1024
    ensures var f := BmpFile(width, height, palette, image);
      && |f| == 1078 + |image|
      && f[0..2] == [66, 77]
      && LittleEndian(f[2..6]) == (1078 + 3 * (width * height)) % 0x1_0000_0000
      && f[6..10] == [0, 0, 0, 0]
      && f[10..14] == [54, 4, 0, 0]
      && f[14..18] == [40, 0, 0, 0]
      && LittleEndian(f[18..22]) == width % 0x1_0000_0000
      && LittleEndian(f[22..26]) == height % 0x1_0000_0000
      && f[26..30] == [1, 0, 24, 0]
      && f[30..34] == [0, 0, 0, 0]
      && LittleEndian(f[34..38]) == 3 * (width * height) % 0x1_0000_0000
      && f[38..46] == [0x12, 0x0B, 0, 0, 0x12, 0x0B, 0, 0]
      && f[46..54] == [0, 0, 0, 0, 0, 0, 0, 0]
      && f[54..1078] == palette && f[1078..] == image
  {
    var f := BmpFile(width, height, palette, image);
    var a, b := FileHeaderBytes(FileHeaderFor(width, height)), InfoHeaderBytes(InfoHeaderFor(width, height));
    SavedFileHeader(width, height);
    SavedInfoHeader(width, height);
    assert f == a + (b + palette + image);
    assert f[0..2] == a[0..2] && f[2..6] == a[2..6] && f[6..10] == a[6..10] && f[10..14] == a[10..14];
    assert f[14..18] == b[0..4] && f[18..22] == b[4..8] && f[22..26] == b[8..12] && f[26..30] == b[12..16];
    assert f[30..34] == b[16..20] && f[34..38] == b[20..24] && f[38..46] == b[24..32] && f[46..54] == b[32..40];
  }

  /** bfSize is the length of the file exactly when that length fits 32 bits. */
  lemma FileSizeIff(width: nat, height: nat, palette: seq<byte>, image: seq<byte>)
    requires |palette| == PALETTE && |image| == 3 * (width * height)
    ensures FileHeaderFor(width, height).bfSize == |BmpFile(width, height, palette, image)|
      <==> OFF_BITS + |image| < WORD
    ensures BmpFile(width, height, palette, image)[FileHeaderFor(width, height).bfOffBits..] == image
  {
    var a, b := FileHeaderBytes(FileHeaderFor(width, height)), InfoHeaderBytes(InfoHeaderFor(width, height));
    ReadParts(a, b, palette, image, a, b, image);
    WrapsIff(OFF_BITS + |image|);
    assert FileHeaderFor(width, height).bfSize == (OFF_BITS + |image|) % WORD;
  }

  lemma WrapsIff(n: nat)
    ensures n % WORD == n <==> n < WORD
  {
  }
}
