/** The sepia filter, one pixel at a time and eight lanes at a time. */
module Sepia {
  import opened Bytes

  type u16 = x: int | 0 <= x < 0x1_0000

  // ----- weighted sums

  /** The unbounded sum behind output channel c (0 blue, 1 green, 2 red) of the scalar filter. */
  function ScalarSum(c: int, b: byte, g: byte, r: byte): nat {
    if c == 0 then r * 70 + g * 136 + b * 33
    else if c == 1 then r * 89 + g * 175 + b * 43
    else r * 100 + g * 197 + b * 48
  }

  /** And behind that of the lane filter: the green weight of the blue output differs by one. */
  function LaneSum(c: int, b: byte, g: byte, r: byte): nat {
    if c == 0 then b * 33 + g * 137 + r * 70
    else if c == 1 then b * 43 + g * 175 + r * 89
    else b * 48 + g * 197 + r * 100
  }

  /** An int shifted right by 8 and stored in a byte. */
  function Narrow(sum: nat): byte {
    sum / 256 % 256
  }

  type Filter = (int, byte, byte, byte) -> nat

  /** Output byte i of a filter: channel i % 3 of pixel i / 3. */
  function Filtered(sum: Filter, src: seq<byte>, i: nat): byte
    requires 3 * (i / 3) + 2 < |src|
  {
    var at := 3 * (i / 3);
    Narrow(sum(i % 3, src[at], src[at + 1], src[at + 2]))
  }

  /** The destination after a filter has written its first n bytes. */
  ghost function After(sum: Filter, src: seq<byte>, dest: seq<byte>, n: nat): (after: seq<byte>)
    requires n % 3 == 0 && n <= |src|
    ensures |after| == |dest|
  {
    seq(|dest|, i requires 0 <= i < |dest| => if i < n then Filtered(sum, src, i) else dest[i])
  }

  /** Writing bytes n to n + size extends the filter's work. */
  lemma Extend(sum: Filter, src: seq<byte>, dest: seq<byte>, before: seq<byte>, after: seq<byte>, n: nat, size: nat)
    requires n % 3 == 0 && size % 3 == 0 && n + size <= |src| && |after| == |before| == |dest|
    requires before == After(sum, src, dest, n)
    requires forall i :: 0 <= i < |after| ==>
      after[i] == if n <= i < n + size then Filtered(sum, src, i) else before[i]
    ensures after == After(sum, src, dest, n + size)
  {
  }

  // ----- 16-bit accumulation

  function Product(a: byte, b: byte): (p: int)
    ensures 0 <= p <= 65025
  {
    ProductFits(a, b);
    a as int * b as int
  }

  lemma ProductFits(a: int, b: int)
    requires 0 <= a < 256 && 0 <= b < 256
    ensures 0 <= a * b <= 65025
  {
    RowsBelow(a, 255, b);
  }

  /** Multiply-accumulate over any number of terms, wrapping to 16 bits after each. */
  function WrappedSum(terms: seq<(byte, byte)>): u16 {
    if terms == [] then 0
    else
      var last := terms[|terms| - 1];
      (WrappedSum(terms[..|terms| - 1]) + Product(last.0, last.1)) % 0x1_0000
  }

  function PlainSum(terms: seq<(byte, byte)>): nat {
    if terms == [] then 0
    else
      var last := terms[|terms| - 1];
      PlainSum(terms[..|terms| - 1]) + Product(last.0, last.1)
  }

  /** Wrapping after every step loses nothing that narrowing would keep. */
  lemma {:induction false} WrapThenNarrow(terms: seq<(byte, byte)>)
    ensures WrappedSum(terms) == PlainSum(terms) % 0x1_0000
    ensures WrappedSum(terms) / 256 == Narrow(PlainSum(terms))
  {
    if terms != [] {
      var last := terms[|terms| - 1];
      WrapThenNarrow(terms[..|terms| - 1]);
      WrapStep(PlainSum(terms[..|terms| - 1]), Product(last.0, last.1));
    }
    ShiftWrapped(PlainSum(terms));
  }

  lemma SumsAppend(terms: seq<(byte, byte)>, a: byte, b: byte)
    ensures WrappedSum(terms + [(a, b)]) == (WrappedSum(terms) + Product(a, b)) % 0x1_0000
    ensures PlainSum(terms + [(a, b)]) == PlainSum(terms) + Product(a, b)
  {
    assert (terms + [(a, b)])[..|terms|] == terms;
  }

  lemma WrapStep(sum: nat, p: nat)
    ensures (sum % 0x1_0000 + p) % 0x1_0000 == (sum + p) % 0x1_0000
  {
  }

  lemma ShiftWrapped(s: nat)
    ensures s % 0x1_0000 / 256 == Narrow(s)
  {
  }

  // ----- eight lanes

  type Lanes8 = s: seq<byte> | |s| == 8 witness [0, 0, 0, 0, 0, 0, 0, 0]
  type Lanes16 = s: seq<u16> | |s| == 8 witness [0, 0, 0, 0, 0, 0, 0, 0]

  datatype Triple = Triple(val0: Lanes8, val1: Lanes8, val2: Lanes8) {
    function Val(c: int): Lanes8 {
      if c == 0 then val0 else if c == 1 then val1 else val2
    }
  }

  /** vdup_n_u8 */
  function Dup(b: byte): Lanes8 {
    seq(8, _ => b)
  }

  /** vld3_u8: 24 bytes taken apart into three sets of lanes. */
  function Load3(src: seq<byte>, at: nat): Triple
    requires at + 24 <= |src|
  {
    Triple(seq(8, k requires 0 <= k < 8 => src[at + 3 * k]),
           seq(8, k requires 0 <= k < 8 => src[at + 3 * k + 1]),
           seq(8, k requires 0 <= k < 8 => src[at + 3 * k + 2]))
  }

  /** vmull_u8 */
  function Mull(a: Lanes8, b: Lanes8): Lanes16 {
    seq(8, k requires 0 <= k < 8 => Product(a[k], b[k]))
  }

  /** vmlal_u8: the sum wraps to 16 bits. */
  function Mlal(acc: Lanes16, a: Lanes8, b: Lanes8): Lanes16 {
    seq(8, k requires 0 <= k < 8 => (acc[k] + Product(a[k], b[k])) % 0x1_0000)
  }

  /** vshrn_n_u16(acc, 8) */
  function Shrn8(acc: Lanes16): Lanes8 {
    seq(8, k requires 0 <= k < 8 => acc[k] / 256)
  }

  /** One output channel of a block: a multiply, two multiply-accumulates and a narrowing shift. */
  function Channel(bgr: Triple, f1: byte, f2: byte, f3: byte): Lanes8 {
    var temp := Mull(bgr.val0, Dup(f1));
    var temp' := Mlal(temp, bgr.val1, Dup(f2));
    var temp'' := Mlal(temp', bgr.val2, Dup(f3));
    Shrn8(temp'')
  }

  lemma OneTerm(a: byte, b: byte)
    ensures WrappedSum([(a, b)]) == PlainSum([(a, b)]) == Product(a, b)
  {
    var t: seq<(byte, byte)> := [(a, b)];
    assert t[..0] == [] && WrappedSum(t[..0]) == 0 && PlainSum(t[..0]) == 0;
  }

  lemma TwoTerms(b: byte, g: byte, f1: byte, f2: byte) returns (terms: seq<(byte, byte)>)
    ensures WrappedSum(terms) == (Product(b, f1) + Product(g, f2)) % 0x1_0000
    ensures PlainSum(terms) == Product(b, f1) + Product(g, f2)
  {
    OneTerm(b, f1);
    SumsAppend([(b, f1)], g, f2);
    terms := [(b, f1)] + [(g, f2)];
  }

  lemma ThreeTerms(b: byte, g: byte, r: byte, f1: byte, f2: byte, f3: byte) returns (terms: seq<(byte, byte)>)
    ensures WrappedSum(terms) == ((Product(b, f1) + Product(g, f2)) % 0x1_0000 + Product(r, f3)) % 0x1_0000
    ensures PlainSum(terms) == Product(b, f1) + Product(g, f2) + Product(r, f3)
  {
    var two := TwoTerms(b, g, f1, f2);
    SumsAppend(two, r, f3);
    terms := two + [(r, f3)];
  }

  lemma WrappedThree(b: byte, g: byte, r: byte, f1: byte, f2: byte, f3: byte)
    ensures ((Product(b, f1) + Product(g, f2)) % 0x1_0000 + Product(r, f3)) % 0x1_0000 / 256 ==
      Narrow(Product(b, f1) + Product(g, f2) + Product(r, f3))
  {
    var terms := ThreeTerms(b, g, r, f1, f2, f3);
    WrapThenNarrow(terms);
  }

  /** Every lane holds the narrowed unbounded sum, whether or not the accumulator wrapped. */
  lemma ChannelLane(bgr: Triple, f1: byte, f2: byte, f3: byte, k: nat)
    requires k < 8
    ensures Channel(bgr, f1, f2, f3)[k] ==
      Narrow(Product(bgr.val0[k], f1) + Product(bgr.val1[k], f2) + Product(bgr.val2[k], f3))
  {
    WrappedThree(bgr.val0[k], bgr.val1[k], bgr.val2[k], f1, f2, f3);
  }

  /** The three output channels of the lane filter. */
  function Gray(bgr: Triple): Triple {
    Triple(Channel(bgr, 33, 137, 70), Channel(bgr, 43, 175, 89), Channel(bgr, 48, 197, 100))
  }

  lemma GrayLane(bgr: Triple, c: int, k: nat)
    requires 0 <= c < 3 && k < 8
    ensures Gray(bgr).Val(c)[k] == Narrow(LaneSum(c, bgr.val0[k], bgr.val1[k], bgr.val2[k]))
  {
    if c == 0 {
      ChannelLane(bgr, 33, 137, 70, k);
    } else if c == 1 {
      ChannelLane(bgr, 43, 175, 89, k);
    } else {
      ChannelLane(bgr, 48, 197, 100, k);
    }
  }

  /** Three sets of lanes put together again in 24 bytes of memory. */
  function Interleaved(m: seq<byte>, at: nat, gray: Triple): (after: seq<byte>)
    requires at + 24 <= |m|
    ensures |after| == |m|
  {
    seq(|m|, i requires 0 <= i < |m| => if at <= i < at + 24 then gray.Val((i - at) % 3)[(i - at) / 3] else m[i])
  }

  /** vst3_u8 */
  method Store3(dest: array<byte>, at: nat, gray: Triple)
    requires at + 24 <= dest.Length
    modifies dest
    ensures dest[..] == Interleaved(old(dest[..]), at, gray)
  {
    forall i | at <= i < at + 24 {
      dest[i] := gray.Val((i - at) % 3)[(i - at) / 3];
    }
  }

  // ----- the two filters

  lemma BlockByte(src: seq<byte>, at: nat, i: nat)
    requires at % 3 == 0 && at + 24 <= |src| && at <= i < at + 24
    ensures Gray(Load3(src, at)).Val((i - at) % 3)[(i - at) / 3] == Filtered(LaneSum, src, i)
  {
    var k := (i - at) / 3;
    assert 3 * (i / 3) == at + 3 * k && i % 3 == (i - at) % 3;
    GrayLane(Load3(src, at), i % 3, k);
  }

  /** Lanes that hold the filtered bytes of a block extend the filter's work when stored. */
  lemma Interleave(s: seq<byte>, d: seq<byte>, before: seq<byte>, at: nat, gray: Triple)
    requires at % 3 == 0 && at + 24 <= |s| && at + 24 <= |d| == |before|
    requires before == After(LaneSum, s, d, at)
    requires forall i :: at <= i < at + 24 ==> BlockLane(s, at, gray, i)
    ensures Interleaved(before, at, gray) == After(LaneSum, s, d, at + 24)
  {
    var after := Interleaved(before, at, gray);
    forall i | 0 <= i < |after| ensures after[i] == After(LaneSum, s, d, at + 24)[i] {
      if at <= i < at + 24 {
        assert BlockLane(s, at, gray, i);
      }
    }
  }

  /** The lane for byte i of the block at at holds that byte, filtered. */
  ghost predicate BlockLane(s: seq<byte>, at: nat, gray: Triple, i: int)
    requires at % 3 == 0 && at + 24 <= |s|
  {
    at <= i < at + 24 && gray.Val((i - at) % 3)[(i - at) / 3] == Filtered(LaneSum, s, i)
  }

  lemma BlockDone(s: seq<byte>, d: seq<byte>, before: seq<byte>, at: nat)
    requires at % 3 == 0 && at + 24 <= |s| && at + 24 <= |d| == |before|
    requires before == After(LaneSum, s, d, at)
    ensures Interleaved(before, at, Gray(Load3(s, at))) == After(LaneSum, s, d, at + 24)
  {
    var gray := Gray(Load3(s, at));
    forall i | at <= i < at + 24 ensures BlockLane(s, at, gray, i) {
      BlockByte(s, at, i);
    }
    Interleave(s, d, before, at, gray);
  }

  /** n divided by 8 as C divides ints: the quotient is cut towards zero. */
  function Eighth(n: int): int {
    if n < 0 then -(-n / 8) else n / 8
  }

  /**
   Pixel p of the destination is the sepia of pixel p of the source: blue, green and red in turn, each a
   weighted sum shifted right by 8 and cut to a byte. The two filters differ in one weight.
   */
  ghost predicate PixelIs(after: seq<byte>, s: seq<byte>, p: nat, weight: nat) {
    && 3 * p + 2 < |s| && 3 * p + 2 < |after|
    && var b: int, g: int, r: int := s[3 * p], s[3 * p + 1], s[3 * p + 2];
      && after[3 * p] == (33 * b + weight * g + 70 * r) / 256 % 256
      && after[3 * p + 1] == (43 * b + 175 * g + 89 * r) / 256 % 256
      && after[3 * p + 2] == (48 * b + 197 * g + 100 * r) / 256 % 256
  }

  /** The three bytes of pixel p, filtered by the lanes. */
  lemma LanePixel(s: seq<byte>, d: seq<byte>, size: nat, p: nat)
    requires size % 3 == 0 && 3 * p + 2 < size <= |s| && size <= |d|
    ensures var after, b: int, g: int, r: int := After(LaneSum, s, d, size), s[3 * p], s[3 * p + 1], s[3 * p + 2];
      && after[3 * p] == (33 * b + 137 * g + 70 * r) / 256 % 256
      && after[3 * p + 1] == (43 * b + 175 * g + 89 * r) / 256 % 256
      && after[3 * p + 2] == (48 * b + 197 * g + 100 * r) / 256 % 256
  {
    PixelBytes(p);
  }

  /** And by the scalar filter. */
  lemma ScalarPixel(s: seq<byte>, d: seq<byte>, size: nat, p: nat)
    requires size % 3 == 0 && 3 * p + 2 < size <= |s| && size <= |d|
    ensures var after, b: int, g: int, r: int := After(ScalarSum, s, d, size), s[3 * p], s[3 * p + 1], s[3 * p + 2];
      && after[3 * p] == (33 * b + 136 * g + 70 * r) / 256 % 256
      && after[3 * p + 1] == (43 * b + 175 * g + 89 * r) / 256 % 256
      && after[3 * p + 2] == (48 * b + 197 * g + 100 * r) / 256 % 256
  {
    PixelBytes(p);
  }

  lemma PixelBytes(p: nat)
    ensures 3 * p / 3 == p && (3 * p + 1) / 3 == p && (3 * p + 2) / 3 == p
    ensures 3 * p % 3 == 0 && (3 * p + 1) % 3 == 1 && (3 * p + 2) % 3 == 2
  {
  }

  /** The blocks the loop counts are the whole blocks among n pixels. */
  lemma WholeBlocks(n: int)
    ensures 24 * Max(Eighth(n), 0) == 3 * Max(n - n % 8, 0)
  {
  }

  lemma LanesDone(s: seq<byte>, d: seq<byte>, n: int)
    requires 3 * (n - n % 8) <= |s| && 3 * (n - n % 8) <= |d|
    ensures var after := After(LaneSum, s, d, 3 * Max(n - n % 8, 0));
      && (forall p :: 0 <= p < n - n % 8 ==> PixelIs(after, s, p, 137))
      && forall k :: 0 <= k < |d| && k >= 3 * (n - n % 8) ==> after[k] == d[k]
  {
    var after := After(LaneSum, s, d, 3 * Max(n - n % 8, 0));
    forall p | 0 <= p < n - n % 8 ensures PixelIs(after, s, p, 137) {
      LanePixel(s, d, 3 * Max(n - n % 8, 0), p);
    }
  }

  /**
   The lane filter, its two pointers advancing by 24 bytes, for every n: the whole blocks among the first n
   pixels are filtered, and every other byte is kept. Source and destination may be the same buffer.
   */
  method FilterLanes(dest: array<byte>, src: array<byte>, n: int)
    requires 3 * (n - n % 8) <= src.Length && 3 * (n - n % 8) <= dest.Length
    modifies dest
    ensures dest[..] == After(LaneSum, old(src[..]), old(dest[..]), 3 * Max(n - n % 8, 0))
    ensures forall p :: 0 <= p < n - n % 8 ==> PixelIs(dest[..], old(src[..]), p, 137)
    ensures forall k :: 0 <= k < dest.Length && k >= 3 * (n - n % 8) ==> dest[k] == old(dest[k])
  {
    ghost var s, d, size := src[..], dest[..], 3 * Max(n - n % 8, 0);
    var blocks := Eighth(n);
    WholeBlocks(n);
    var i, at := 0, 0;
    while i < blocks
      invariant 0 <= i <= Max(blocks, 0) && at == 24 * i
      invariant at % 3 == 0 && size == 24 * Max(blocks, 0)
      invariant dest[..] == After(LaneSum, s, d, at)
      invariant forall k :: at <= k < |s| ==> src[k] == s[k]
    {
      BlockDone(s, d, dest[..], at);
      var bgr := Load3(src[..], at);
      assert bgr == Load3(s, at);
      Store3(dest, at, Gray(bgr));
      at := at + 24;
      i := i + 1;
    }
    LanesDone(s, d, n);
  }

  /** The scalar filter, its two pointers advancing by 3. Source and destination may be the same buffer. */
  method FilterPixels(dest: array<byte>, src: array<byte>, n: int)
    requires 3 * n <= src.Length && 3 * n <= dest.Length
    modifies dest
    ensures dest[..] == After(ScalarSum, old(src[..]), old(dest[..]), 3 * Max(n, 0))
    ensures forall p :: 0 <= p < n ==> PixelIs(dest[..], old(src[..]), p, 136)
    ensures forall k :: 0 <= k < dest.Length && k >= 3 * n ==> dest[k] == old(dest[k])
  {
    ghost var s, d := src[..], dest[..];
    var i, at := 0, 0;
    while i < n
      invariant 0 <= i <= Max(n, 0) && at == 3 * i
      invariant dest[..] == After(ScalarSum, s, d, at)
      invariant forall k :: at <= k < |s| ==> src[k] == s[k]
    {
      var blue, green, red := FilterPixel(src[at], src[at + 1], src[at + 2]);
      PixelDone(s, d, dest[..], at, blue, green, red);
      StorePixel(dest, at, LimitByte(blue), LimitByte(green), LimitByte(red));
      at := at + 3;
      i := i + 1;
    }
    PixelsDone(s, d, n);
  }

  lemma PixelsDone(s: seq<byte>, d: seq<byte>, n: int)
    requires 3 * n <= |s| && 3 * n <= |d|
    ensures var after := After(ScalarSum, s, d, 3 * Max(n, 0));
      && (forall p :: 0 <= p < n ==> PixelIs(after, s, p, 136))
      && forall k :: 0 <= k < |d| && k >= 3 * n ==> after[k] == d[k]
  {
    var after := After(ScalarSum, s, d, 3 * Max(n, 0));
    forall p | 0 <= p < n ensures PixelIs(after, s, p, 136) {
      ScalarPixel(s, d, 3 * Max(n, 0), p);
    }
  }

  /** The three sums of a pixel, each shifted and cut to a byte. */
  method FilterPixel(b: byte, g: byte, r: byte) returns (blue: byte, green: byte, red: byte)
    ensures blue == Narrow(ScalarSum(0, b, g, r))
    ensures green == Narrow(ScalarSum(1, b, g, r))
    ensures red == Narrow(ScalarSum(2, b, g, r))
  {
    var bi: int, gi: int, ri: int := b, g, r;
    red := (ri * 100 + gi * 197 + bi * 48) / 256 % 256;
    green := (ri * 89 + gi * 175 + bi * 43) / 256 % 256;
    blue := (ri * 70 + gi * 136 + bi * 33) / 256 % 256;
  }

  method StorePixel(dest: array<byte>, at: nat, blue: byte, green: byte, red: byte)
    requires at + 3 <= dest.Length
    modifies dest
    ensures dest[..] == old(dest[..])[at := blue][at + 1 := green][at + 2 := red]
  {
    dest[at] := blue;
    dest[at + 1] := green;
    dest[at + 2] := red;
  }

  lemma PixelDone(s: seq<byte>, d: seq<byte>, before: seq<byte>, at: nat, blue: byte, green: byte, red: byte)
    requires at % 3 == 0 && at + 3 <= |s| && at + 3 <= |d| == |before|
    requires before == After(ScalarSum, s, d, at)
    requires blue == Narrow(ScalarSum(0, s[at], s[at + 1], s[at + 2]))
    requires green == Narrow(ScalarSum(1, s[at], s[at + 1], s[at + 2]))
    requires red == Narrow(ScalarSum(2, s[at], s[at + 1], s[at + 2]))
    ensures before[at := blue][at + 1 := green][at + 2 := red] == After(ScalarSum, s, d, at + 3)
  {
    PixelBytes(at / 3);
    assert at == 3 * (at / 3);
    assert blue == Filtered(ScalarSum, s, at);
    assert green == Filtered(ScalarSum, s, at + 1);
    assert red == Filtered(ScalarSum, s, at + 2);
    Extend(ScalarSum, s, d, before, before[at := blue][at + 1 := green][at + 2 := red], at, 3);
  }

  // ----- agreement

  /** The blue accumulator of the lane filter never wraps. */
  lemma BlueNeverWraps(b: byte, g: byte, r: byte)
    ensures ScalarSum(0, b, g, r) + g == LaneSum(0, b, g, r) <= 61200
  {
  }

  /** The pixels at which the lane filter's blue byte is one higher. */
  predicate BlueCarries(b: byte, g: byte, r: byte) {
    ScalarSum(0, b, g, r) % 256 + g >= 256
  }

  /** Channel by channel: green and red agree everywhere, blue differs by at most one, and exactly at a carry. */
  lemma ChannelsCompared(b: byte, g: byte, r: byte)
    ensures Narrow(LaneSum(1, b, g, r)) == Narrow(ScalarSum(1, b, g, r))
    ensures Narrow(LaneSum(2, b, g, r)) == Narrow(ScalarSum(2, b, g, r))
    ensures Narrow(LaneSum(0, b, g, r)) ==
      Narrow(ScalarSum(0, b, g, r)) + (if BlueCarries(b, g, r) then 1 else 0)
  {
    BlueNeverWraps(b, g, r);
    CarryOnce(ScalarSum(0, b, g, r), g);
  }

  lemma CarryOnce(s: nat, g: nat)
    requires g < 256 && s + g <= 61200
    ensures Narrow(s + g) == Narrow(s) + (if s % 256 + g >= 256 then 1 else 0)
  {
    var q, m := s / 256, s % 256;
    assert s == 256 * q + m && q < 256;
    if m + g < 256 {
      Quotient(q, m + g);
    } else {
      Quotient(q + 1, m + g - 256);
    }
  }

  lemma Quotient(q: nat, m: nat)
    requires m < 256
    ensures (256 * q + m) / 256 == q
  {
  }

  /** Whole buffers, any number of pixels that fills its blocks: what the two filters leave behind. */
  lemma FiltersCompared(src: seq<byte>, dest: seq<byte>, n: nat, i: nat)
    requires n % 8 == 0 && 3 * n <= |src| && i < |dest|
    ensures var lanes, pixels := After(LaneSum, src, dest, 3 * n), After(ScalarSum, src, dest, 3 * n);
      var p := i / 3;
      lanes[i] == pixels[i] +
        (if i < 3 * n && i % 3 == 0 && BlueCarries(src[3 * p], src[3 * p + 1], src[3 * p + 2]) then 1 else 0)
  {
    if i < 3 * n {
      var at := 3 * (i / 3);
      ChannelsCompared(src[at], src[at + 1], src[at + 2]);
    }
  }

  /** The filters agree exactly on the pictures without a blue carry. */
  lemma FiltersAgreeIff(src: seq<byte>, dest: seq<byte>, n: nat)
    requires n % 8 == 0 && 3 * n <= |src| && 3 * n <= |dest|
    ensures After(LaneSum, src, dest, 3 * n) == After(ScalarSum, src, dest, 3 * n)
      <==> forall p :: 0 <= p < n ==> !BlueCarries(src[3 * p], src[3 * p + 1], src[3 * p + 2])
  {
    var lanes, pixels := After(LaneSum, src, dest, 3 * n), After(ScalarSum, src, dest, 3 * n);
    if lanes == pixels {
      forall p | 0 <= p < n ensures !BlueCarries(src[3 * p], src[3 * p + 1], src[3 * p + 2]) {
        FiltersCompared(src, dest, n, 3 * p);
      }
    }
    if forall p :: 0 <= p < n ==> !BlueCarries(src[3 * p], src[3 * p + 1], src[3 * p + 2]) {
      forall i | 0 <= i < |dest| ensures lanes[i] == pixels[i] {
        FiltersCompared(src, dest, n, i);
      }
    }
  }

  /** They do differ: one pixel with blue 0, green 255 and red 1 in a block is enough. */
  lemma FiltersDiffer() returns (src: seq<byte>, dest: seq<byte>)
    ensures |src| == 3 * 8 == |dest|
    ensures After(LaneSum, src, dest, 3 * 8) != After(ScalarSum, src, dest, 3 * 8)
  {
    src := seq(24, i => if i == 1 then 255 else if i == 2 then 1 else 0);
    dest := src;
    assert BlueCarries(src[3 * 0], src[3 * 0 + 1], src[3 * 0 + 2]);
    FiltersAgreeIff(src, dest, 8);
  }

  /** A block depends on its own 24 source bytes only. */
  lemma BlocksAreIndependent(src: seq<byte>, src': seq<byte>, dest: seq<byte>, blocks: nat, block: nat, i: nat)
    requires 24 * blocks <= |src| && 24 * blocks <= |src'| && block < blocks
    requires src[24 * block..24 * block + 24] == src'[24 * block..24 * block + 24]
    requires 24 * block <= i < 24 * block + 24 && i < |dest|
    ensures After(LaneSum, src, dest, 24 * blocks)[i] == After(LaneSum, src', dest, 24 * blocks)[i]
  {
    SamePixel(src, src', 24 * block, i);
  }

  lemma SamePixel(a: seq<byte>, b: seq<byte>, from: nat, i: nat)
    requires from % 3 == 0 && from + 24 <= |a| && from + 24 <= |b| && a[from..from + 24] == b[from..from + 24]
    requires from <= i < from + 24
    ensures 3 * (i / 3) + 2 < from + 24 && Filtered(LaneSum, a, i) == Filtered(LaneSum, b, i)
  {
    var at := 3 * (i / 3);
    SameThere(a, b, from, at);
    SameThere(a, b, from, at + 1);
    SameThere(a, b, from, at + 2);
  }

  lemma SameThere(a: seq<byte>, b: seq<byte>, from: nat, k: nat)
    requires from + 24 <= |a| && from + 24 <= |b| && a[from..from + 24] == b[from..from + 24]
    requires from <= k < from + 24
    ensures a[k] == b[k]
  {
    assert a[from..from + 24][k - from] == b[from..from + 24][k - from];
  }

  /**
   The limiting macro comes after the value was cut to a byte, so bright sums wrap instead of
   saturating: the stored byte is the limited value exactly when the sum is below 2^16.
   */
  lemma LimitedIff(c: int, b: byte, g: byte, r: byte)
    requires 0 <= c < 3
    ensures var s := ScalarSum(c, b, g, r);
      LimitByte(Narrow(s)) == Min(s / 256, 255) <==> s < 0x1_0000
  {
    var s := ScalarSum(c, b, g, r);
    assert s <= 87975;
  }

  /** The byte stored for a pixel is not the saturated one. */
  predicate Unsaturated(c: int, b: byte, g: byte, r: byte) {
    var s := ScalarSum(c, b, g, r);
    LimitByte(Narrow(s)) != Min(s / 256, 255)
  }

  /** Some pixel's byte is unsaturated in the green and the red channel, none in the blue one. */
  lemma UnsaturatedIff(c: int)
    requires 0 <= c < 3
    ensures (exists b, g, r :: Unsaturated(c, b, g, r)) <==> c != 0
  {
    LimitedIff(c, 255, 255, 255);
    assert c != 0 ==> Unsaturated(c, 255, 255, 255);
    forall b, g, r ensures c == 0 ==> !Unsaturated(c, b, g, r) {
      LimitedIff(c, b, g, r);
    }
  }
}
