/** The parts of `badapple.py` that only decode bytes into values: the
    logical screen descriptor of `GIFImage.read_header`, the image descriptor
    of `Frame.__init__`, the raster walk that places decoded pixels, and the
    reference reading of a whole file that the imperative decoder is proved
    against. */
module GifFormat {
  import opened Common
  import opened SubBlocks
  import opened LzwDecode

  /** struct.unpack('<H'): a little-endian 16-bit number. */
  function U16(lo: Byte, hi: Byte): (r: nat)
    ensures r < 65536
  {
    lo + 256 * hi
  }

  /** 1 << ((flags & 0x07) + 1): the colour table size either descriptor
      declares. */
  function PaletteSize(flags: Byte): nat {
    Pow2(flags % 8 + 1)
  }

  /** The sizes a 3-bit size field can declare. */
  predicate IsPaletteSize(n: nat) {
    n in {2, 4, 8, 16, 32, 64, 128, 256}
  }

  /** The 3-bit size field that declares a colour table of n entries. */
  function SizeField(n: nat): (r: nat)
    ensures r < 8
  {
    if n == 2 then 0 else if n == 4 then 1 else if n == 8 then 2 else if n == 16 then 3
    else if n == 32 then 4 else if n == 64 then 5 else if n == 128 then 6 else 7
  }

  /** Every size field declares a size, and the size gives the field back. */
  lemma {:induction false} SizeFieldOf(f: nat)
    requires f < 8
    ensures IsPaletteSize(Pow2(f + 1)) && SizeField(Pow2(f + 1)) == f
  {
    if f == 0 { assert Pow2(1) == 2; }
    else if f == 1 { assert Pow2(2) == 4; }
    else if f == 2 { assert Pow2(3) == 8; }
    else if f == 3 { assert Pow2(4) == 16; }
    else if f == 4 { assert Pow2(5) == 32; }
    else if f == 5 { assert Pow2(6) == 64; }
    else if f == 6 { assert Pow2(7) == 128; }
    else { assert Pow2(8) == 256; }
  }

  /** A declared size comes from its own size field. */
  lemma {:induction false} SizeOfField(n: nat)
    requires IsPaletteSize(n)
    ensures Pow2(SizeField(n) + 1) == n
  {
    SizeFieldOf(SizeField(n));
  }

  /** The two bytes of a 16-bit number give it back. */
  lemma {:induction false} U16Split(n: nat)
    requires n < 65536
    ensures n % 256 < 256 && n / 256 < 256 && U16(n % 256, n / 256) == n
  {
  }

  /** The two bytes U16 reads are its low and high byte. */
  lemma {:induction false} U16Bytes(lo: Byte, hi: Byte)
    ensures U16(lo, hi) % 256 == lo && U16(lo, hi) / 256 == hi
  {
    DivUnique(U16(lo, hi), 256, hi, lo);
  }

  /** A flags byte split as 1 + 3 + 1 + 3 bits, high to low. */
  lemma {:induction false} SplitScreenFlags(f: Byte)
    ensures f == (if f >= 0x80 then 0x80 else 0) + (f / 16 % 8) * 16
                 + (if f / 8 % 2 == 1 then 8 else 0) + f % 8
  {
    var a, g := f % 8, f / 8;
    var t, h := g % 2, g / 2;
    DivUnique(f, 16, h, 8 * t + a);
  }

  /** A flags byte split as 1 + 1 + 1 + 2 + 3 bits, high to low. */
  lemma {:induction false} SplitDescriptorFlags(f: Byte)
    ensures f == (if f >= 0x80 then 0x80 else 0) + (if f / 64 % 2 == 1 then 0x40 else 0)
                 + (if f / 32 % 2 == 1 then 0x20 else 0) + (f / 8 % 4) * 8 + f % 8
  {
    var a, g := f % 8, f / 8;
    var e, h := g % 4, g / 4;
    var z, k := h % 2, h / 2;
    DivUnique(f, 32, h, 8 * e + a);
    DivUnique(f, 64, k, 32 * z + 8 * e + a);
  }

  /** Fields packed 1 + 3 + 1 + 3 bits, high to low, come back out. */
  lemma {:induction false} PackScreenFlags(p: nat, c: nat, t: nat, z: nat)
    requires p < 2 && c < 8 && t < 2 && z < 8
    ensures var f := 0x80 * p + c * 16 + 8 * t + z;
            f % 8 == z && f / 8 % 2 == t && f / 16 % 8 == c && (f >= 0x80) == (p == 1)
  {
    var f := 0x80 * p + c * 16 + 8 * t + z;
    DivUnique(f, 8, 16 * p + 2 * c + t, z);
    DivUnique(16 * p + 2 * c + t, 2, 8 * p + c, t);
    DivUnique(f, 16, 8 * p + c, 8 * t + z);
    DivUnique(8 * p + c, 8, p, c);
  }

  /** Fields packed 1 + 1 + 1 + 2 + 3 bits, high to low, come back out. */
  lemma {:induction false} PackDescriptorFlags(p: nat, i: nat, t: nat, z: nat)
    requires p < 2 && i < 2 && t < 2 && z < 8
    ensures var f := 0x80 * p + 0x40 * i + 0x20 * t + z;
            f % 8 == z && f / 32 % 2 == t && f / 64 % 2 == i && (f >= 0x80) == (p == 1)
  {
    var f := 0x80 * p + 0x40 * i + 0x20 * t + z;
    DivUnique(f, 8, 16 * p + 8 * i + 4 * t, z);
    DivUnique(f, 32, 4 * p + 2 * i + t, z);
    DivUnique(4 * p + 2 * i + t, 2, 2 * p + i, t);
    DivUnique(f, 64, 2 * p + i, 0x20 * t + z);
    DivUnique(2 * p + i, 2, p, i);
  }

  // ---------------------------------------------------------------------
  // The logical screen descriptor: `read_header`.

  /** The attributes `read_header` sets from the seven bytes after the magic. */
  datatype Screen = Screen(w: nat, h: nat, paletteFlag: bool, sortFlag: bool,
                           colorBits: nat, paletteSize: nat, background: Byte, aspect: Byte)

  /** `read_header` after the magic: '<HHBBB' and the bit fields of flags. */
  function ScreenOf(b: Bytes): (s: Screen)
    requires |b| == 7
  {
    var flags := b[4];
    Screen(U16(b[0], b[1]), U16(b[2], b[3]),
           flags >= 0x80,               // flags & 0x80 != 0
           (flags / 8) % 2 == 1,       // flags & 0x08 != 0
           (flags / 16) % 8 + 1,       // ((flags & 0x70) >> 4) + 1
           PaletteSize(flags), b[5], b[6])
  }

  /** What seven descriptor bytes can yield. */
  predicate ScreenFits(s: Screen) {
    s.w < 65536 && s.h < 65536 && 1 <= s.colorBits <= 8 && IsPaletteSize(s.paletteSize)
  }

  /** The flags byte a screen is written with. */
  function ScreenFlags(s: Screen): (r: nat)
    requires ScreenFits(s)
    ensures r < 256
  {
    (if s.paletteFlag then 0x80 else 0) + (s.colorBits - 1) * 16
      + (if s.sortFlag then 0x08 else 0) + SizeField(s.paletteSize)
  }

  /** The seven bytes a screen is written with: the inverse of ScreenOf. */
  function EncodeScreen(s: Screen): (r: Bytes)
    requires ScreenFits(s)
    ensures |r| == 7
  {
    [s.w % 256, s.w / 256, s.h % 256, s.h / 256, ScreenFlags(s), s.background, s.aspect]
  }

  /** Reading back a written screen gives that screen. */
  lemma {:induction false} ScreenRoundTrip(s: Screen)
    requires ScreenFits(s)
    ensures ScreenOf(EncodeScreen(s)) == s
  {
    var p, t := if s.paletteFlag then 1 else 0, if s.sortFlag then 1 else 0;
    var f, z := ScreenFlags(s), SizeField(s.paletteSize);
    assert f == 0x80 * p + (s.colorBits - 1) * 16 + 8 * t + z;
    PackScreenFlags(p, s.colorBits - 1, t, z);
    SizeOfField(s.paletteSize);
    var e := EncodeScreen(s);
    U16Split(s.w);
    U16Split(s.h);
    assert U16(e[0], e[1]) == s.w && U16(e[2], e[3]) == s.h;
    assert PaletteSize(e[4]) == s.paletteSize;
  }

  /** Writing back a read screen gives the same seven bytes: no bit of the
      descriptor is lost. */
  lemma {:induction false} ScreenBytesRoundTrip(b: Bytes)
    requires |b| == 7
    ensures ScreenFits(ScreenOf(b)) && EncodeScreen(ScreenOf(b)) == b
  {
    var s := ScreenOf(b);
    SplitScreenFlags(b[4]);
    SizeFieldOf(b[4] % 8);
    U16Bytes(b[0], b[1]);
    U16Bytes(b[2], b[3]);
    assert EncodeScreen(s)[4] == b[4];
  }

  // ---------------------------------------------------------------------
  // The image descriptor: the head of `Frame.__init__`.

  /** The attributes `Frame.__init__` sets from the nine descriptor bytes. */
  datatype Descriptor = Descriptor(x: nat, y: nat, w: nat, h: nat, paletteFlag: bool,
                                   interlaceFlag: bool, sortFlag: bool, paletteSize: nat)

  /** '<HHHHB' and the bit fields of flags. */
  function DescriptorOf(b: Bytes): (d: Descriptor)
    requires |b| == 9
  {
    var flags := b[8];
    Descriptor(U16(b[0], b[1]), U16(b[2], b[3]), U16(b[4], b[5]), U16(b[6], b[7]),
               flags >= 0x80,              // flags & 0x80 != 0
               (flags / 64) % 2 == 1,     // flags & 0x40 != 0
               (flags / 32) % 2 == 1,     // flags & 0x20 != 0
               PaletteSize(flags))
  }

  predicate DescriptorFits(d: Descriptor) {
    d.x < 65536 && d.y < 65536 && d.w < 65536 && d.h < 65536 && IsPaletteSize(d.paletteSize)
  }

  /** The flags byte a descriptor is written with, the two reserved bits clear. */
  function DescriptorFlags(d: Descriptor): (r: nat)
    requires DescriptorFits(d)
    ensures r < 256
  {
    (if d.paletteFlag then 0x80 else 0) + (if d.interlaceFlag then 0x40 else 0)
      + (if d.sortFlag then 0x20 else 0) + SizeField(d.paletteSize)
  }

  function EncodeDescriptor(d: Descriptor): (r: Bytes)
    requires DescriptorFits(d)
    ensures |r| == 9
  {
    [d.x % 256, d.x / 256, d.y % 256, d.y / 256, d.w % 256, d.w / 256, d.h % 256, d.h / 256,
     DescriptorFlags(d)]
  }

  /** Reading back a written descriptor gives that descriptor. */
  lemma {:induction false} DescriptorRoundTrip(d: Descriptor)
    requires DescriptorFits(d)
    ensures DescriptorOf(EncodeDescriptor(d)) == d
  {
    var p, i := if d.paletteFlag then 1 else 0, if d.interlaceFlag then 1 else 0;
    var t, z := if d.sortFlag then 1 else 0, SizeField(d.paletteSize);
    assert DescriptorFlags(d) == 0x80 * p + 0x40 * i + 0x20 * t + z;
    PackDescriptorFlags(p, i, t, z);
    SizeOfField(d.paletteSize);
    var e := EncodeDescriptor(d);
    U16Split(d.x);
    U16Split(d.y);
    U16Split(d.w);
    U16Split(d.h);
    assert U16(e[0], e[1]) == d.x && U16(e[2], e[3]) == d.y;
    assert U16(e[4], e[5]) == d.w && U16(e[6], e[7]) == d.h;
    assert PaletteSize(e[8]) == d.paletteSize;
  }

  /** Writing back a read descriptor gives the same nine bytes, except that
      the two reserved bits (flags & 0x18), which the source ignores, come
      back clear. */
  lemma {:induction false} DescriptorBytesRoundTrip(b: Bytes)
    requires |b| == 9
    ensures DescriptorFits(DescriptorOf(b))
    ensures EncodeDescriptor(DescriptorOf(b)) == b[..8] + [b[8] - (b[8] / 8 % 4) * 8]
  {
    SplitDescriptorFlags(b[8]);
    SizeFieldOf(b[8] % 8);
    U16Bytes(b[0], b[1]);
    U16Bytes(b[2], b[3]);
    U16Bytes(b[4], b[5]);
    U16Bytes(b[6], b[7]);
  }

  // ---------------------------------------------------------------------
  // The raster walk of `Frame.__init__`.

  /** `buffer.pixel(x, y, value)`, recorded. */
  datatype Write = Write(x: nat, y: nat, value: nat)

  /** `x += 1`, and past the frame width `x = 0; y += 1`. The new row starts
      at column 0, not at the frame's left edge. */
  function Advance(x: nat, y: nat, w: nat): (nat, nat) {
    if x + 1 >= w then (0, y + 1) else (x + 1, y)
  }

  /** The cursor after n decoded bytes, from (x0, y0). */
  function Walk(x0: nat, y0: nat, w: nat, n: nat): (nat, nat) {
    if n == 0 then (x0, y0)
    else
      var p := Walk(x0, y0, w, n - 1);
      Advance(p.0, p.1, w)
  }

  /** Where the cursor stands after n bytes, in closed form: the first row
      holds the bytes up to the frame width (at least one), every later row
      starts at column 0 and holds w bytes (at least one). */
  function RasterPos(x0: nat, y0: nat, w: nat, n: nat): (nat, nat) {
    var first := if x0 < w then w - x0 else 1;
    var row := if w >= 1 then w else 1;
    if n < first then (x0 + n, y0)
    else ((n - first) % row, y0 + 1 + (n - first) / row)
  }

  /** One byte further along a row of `row` bytes. */
  lemma {:induction false} RowStep(m: nat, row: nat)
    requires row >= 1
    ensures m % row + 1 < row ==> (m + 1) % row == m % row + 1 && (m + 1) / row == m / row
    ensures m % row + 1 >= row ==> (m + 1) % row == 0 && (m + 1) / row == m / row + 1
  {
    if m % row + 1 < row {
      DivUnique(m + 1, row, m / row, m % row + 1);
    } else {
      DivUnique(m + 1, row, m / row + 1, 0);
    }
  }

  /** The cursor the source steps byte by byte is the closed form. */
  lemma {:induction false} WalkIsRaster(x0: nat, y0: nat, w: nat, n: nat)
    ensures Walk(x0, y0, w, n) == RasterPos(x0, y0, w, n)
  {
    if n > 0 {
      WalkIsRaster(x0, y0, w, n - 1);
      var first := if x0 < w then w - x0 else 1;
      var row := if w >= 1 then w else 1;
      if n - 1 >= first {
        RowStep(n - 1 - first, row);
      } else if n == first {
        DivUnique(0, row, 0, 0);
      }
    }
  }

  /** What one decoded byte writes at (x, y): 0 sets the pixel, 1 clears
      it, any other byte writes nothing. */
  function Dot(b: Byte, x: nat, y: nat): (r: seq<Write>)
    ensures |r| <= 1
  {
    if b == 0 then [Write(x, y, 1)] else if b == 1 then [Write(x, y, 0)] else []
  }

  /** The writes of a run of decoded bytes, from (x0, y0). */
  function Painted(pixels: Bytes, x0: nat, y0: nat, w: nat): seq<Write> {
    if pixels == [] then []
    else
      var n := |pixels| - 1;
      var p := Walk(x0, y0, w, n);
      Painted(pixels[..n], x0, y0, w) + Dot(pixels[n], p.0, p.1)
  }

  /** How many of the bytes are 0 or 1. */
  function Marks(pixels: Bytes): nat {
    if pixels == [] then 0
    else Marks(pixels[..|pixels| - 1]) + (if pixels[|pixels| - 1] <= 1 then 1 else 0)
  }

  /** Every byte 0 or 1 writes exactly one pixel and no other byte writes
      one; each write sets 1 or 0, and the last byte, when 0 or 1, writes at
      its closed-form raster position. */
  lemma {:induction false} PaintedLast(pixels: Bytes, x0: nat, y0: nat, w: nat)
    ensures |Painted(pixels, x0, y0, w)| == Marks(pixels)
    ensures forall i :: 0 <= i < |Painted(pixels, x0, y0, w)| ==> Painted(pixels, x0, y0, w)[i].value <= 1
    ensures pixels != [] && pixels[|pixels| - 1] <= 1 ==>
              var p := RasterPos(x0, y0, w, |pixels| - 1);
              Painted(pixels, x0, y0, w)[|Painted(pixels, x0, y0, w)| - 1]
                == Write(p.0, p.1, 1 - pixels[|pixels| - 1])
    decreases |pixels|
  {
    if pixels != [] {
      var n := |pixels| - 1;
      PaintedLast(pixels[..n], x0, y0, w);
      WalkIsRaster(x0, y0, w, n);
    }
  }

  /** The writes of the first j bytes come first, in order. */
  lemma {:induction false} PaintedPrefix(pixels: Bytes, j: nat, x0: nat, y0: nat, w: nat)
    requires j <= |pixels|
    ensures Painted(pixels[..j], x0, y0, w) <= Painted(pixels, x0, y0, w)
    decreases |pixels|
  {
    if j < |pixels| {
      var n := |pixels| - 1;
      assert pixels[..n][..j] == pixels[..j];
      PaintedPrefix(pixels[..n], j, x0, y0, w);
    } else {
      assert pixels[..j] == pixels;
    }
  }

  /** Byte j, when 0 or 1, makes the write numbered by the 0 and 1 bytes
      before it: at the closed-form raster position of byte j, setting the
      pixel for 0 and clearing it for 1. */
  lemma {:induction false} PaintedAt(pixels: Bytes, j: nat, x0: nat, y0: nat, w: nat)
    requires j < |pixels| && pixels[j] <= 1
    ensures Marks(pixels[..j]) < |Painted(pixels, x0, y0, w)|
    ensures var p := RasterPos(x0, y0, w, j);
            Painted(pixels, x0, y0, w)[Marks(pixels[..j])] == Write(p.0, p.1, 1 - pixels[j])
  {
    var q := pixels[..j + 1];
    assert q[..j] == pixels[..j] && q[j] == pixels[j];
    PaintedLast(q, x0, y0, w);
    PaintedPrefix(pixels, j + 1, x0, y0, w);
  }

  /** Every byte 0 or 1 writes exactly one pixel and no other byte writes
      one: the k-th write comes from the k-th byte that is 0 or 1, at that
      byte's closed-form raster position, setting the pixel for 0 and
      clearing it for 1. */
  lemma {:induction false} PaintedWrites(pixels: Bytes, x0: nat, y0: nat, w: nat)
    ensures |Painted(pixels, x0, y0, w)| == Marks(pixels)
    ensures forall i :: 0 <= i < |Painted(pixels, x0, y0, w)| ==> Painted(pixels, x0, y0, w)[i].value <= 1
    ensures forall j :: 0 <= j < |pixels| && pixels[j] <= 1 ==>
              && Marks(pixels[..j]) < |Painted(pixels, x0, y0, w)|
              && Painted(pixels, x0, y0, w)[Marks(pixels[..j])]
                   == Write(RasterPos(x0, y0, w, j).0, RasterPos(x0, y0, w, j).1, 1 - pixels[j])
  {
    PaintedLast(pixels, x0, y0, w);
    forall j | 0 <= j < |pixels| && pixels[j] <= 1
      ensures && Marks(pixels[..j]) < |Painted(pixels, x0, y0, w)|
              && Painted(pixels, x0, y0, w)[Marks(pixels[..j])]
                   == Write(RasterPos(x0, y0, w, j).0, RasterPos(x0, y0, w, j).1, 1 - pixels[j])
    {
      PaintedAt(pixels, j, x0, y0, w);
    }
  }

  /** All values of a pass, one after another: `for decoded in ...: for byte
      in decoded`. */
  function Flat(values: seq<Bytes>): Bytes {
    if values == [] then [] else Flat(values[..|values| - 1]) + values[|values| - 1]
  }

  // ---------------------------------------------------------------------
  // The reference reading of a file, standing for the source's sequence of
  // f.read calls from position pos.

  /** `read_header`: the magic, then the screen descriptor. A short read of
      the magic is no magic; a short descriptor is a struct.error. */
  function HeaderSpec(data: Bytes): Result<Screen> {
    if |data| < 6 || data[..6] !in {Magic87, Magic89} then Failure(NotGif)
    else if |data| < 13 then Failure(Truncated)
    else Success(ScreenOf(data[6..13]))
  }

  const Magic87: Bytes := [0x47, 0x49, 0x46, 0x38, 0x37, 0x61]   // "GIF87a"
  const Magic89: Bytes := [0x47, 0x49, 0x46, 0x38, 0x39, 0x61]   // "GIF89a"

  /** The table after the header: `f.read(self.palette_size * 3)` skips it
      whether or not the palette flag is set, and reads short at the end of
      the file. */
  function AfterPalette(data: Bytes, s: Screen): (p: nat)
    ensures p <= |data|
  {
    Min(13 + 3 * s.paletteSize, |data|)
  }

  /** The position just after the byte a pass stopped at: the zero size byte
      when the stream ran out, the byte holding the end code's last bit or the
      one after it otherwise. */
  function StopPos(st: Stream, stop: Stop): nat
    requires |st.bytes| == |st.ends|
    requires stop.EndCode? ==> 1 <= stop.pulled <= |st.bytes|
  {
    match stop
    case Exhausted => st.endPos
    case EndCode(pulled) => st.ends[pulled - 1]
  }

  /** What `Frame(f, ...)` reads from the byte after 0x2C: the descriptor,
      the minimum code size and one LZW pass, how that pass stopped, and where
      the file then stands. */
  datatype FrameRead = FrameRead(desc: Descriptor, codeSize: Byte, values: seq<Bytes>, stop: Stop, end: nat)

  function FrameSpec(data: Bytes, pos: nat): (r: Result<FrameRead>)
    requires pos <= |data|
    ensures r.Success? ==> pos + 10 <= r.value.end <= |data|
  {
    if |data| - pos < 9 then Failure(Truncated)
    else
      var d := DescriptorOf(data[pos..pos + 9]);
      if d.paletteFlag then Failure(LocalPaletteUnsupported)
      else if pos + 9 == |data| then Failure(Truncated)
      else
        var codeSize, st := data[pos + 9], Flatten(data, pos + 10);
        ViewEnds(data, pos + 10, 0, false);
        match ReadCodes(codeSize, st.bytes, st.tail)
        case Failure(e) => Failure(e)
        case Success((values, stop)) =>
          assert stop.EndCode? ==> st.ends[stop.pulled - 1] in st.ends;
          Success(FrameRead(d, codeSize, values, stop, StopPos(st, stop)))
  }

  /** What `Extension(f)` reads from the byte after 0x21: the type byte and
      the flattened sub-blocks, and where the file then stands. */
  datatype ExtensionRead = ExtensionRead(extensionType: Byte, body: Bytes, end: nat)

  function ExtensionSpec(data: Bytes, pos: nat): (r: Result<ExtensionRead>)
    requires pos <= |data|
    ensures r.Success? ==> pos + 2 <= r.value.end <= |data|
  {
    if pos == |data| then Failure(Truncated)
    else
      var st := Flatten(data, pos + 1);
      if st.tail == Cut then Failure(Truncated)
      else Success(ExtensionRead(data[pos], st.bytes, st.endPos))
  }

  /** The block loop from pos: the delay summed so far and the pixel writes
      so far go on until the trailer. */
  function Blocks(data: Bytes, pos: nat, delta: nat, writes: seq<Write>): Result<(nat, seq<Write>)>
    requires pos <= |data|
    decreases |data| - pos
  {
    if pos == |data| then Failure(Truncated)
    else if data[pos] == 0x3B then Success((delta, writes))
    else if data[pos] == 0x00 then Blocks(data, pos + 1, delta, writes)
    else if data[pos] == 0x2C then
      match FrameSpec(data, pos + 1)
      case Failure(e) => Failure(e)
      case Success(fr) =>
        Blocks(data, fr.end, delta, writes + Painted(Flat(fr.values), fr.desc.x, fr.desc.y, fr.desc.w))
    else if data[pos] == 0x21 then
      match ExtensionSpec(data, pos + 1)
      case Failure(e) => Failure(e)
      case Success(ext) =>
        if ext.extensionType != 0xF9 then Blocks(data, ext.end, delta, writes)
        else if |ext.body| < 2 then Failure(ShortGraphicControl)
        else Blocks(data, ext.end, delta + ext.body[1], writes)
    else Failure(BadBlock(data[pos]))
  }

  /** What `GIFImage(f)` computes from a file: its screen, the summed
      graphic-control byte `delta`, and every pixel write in order. */
  datatype Image = Image(screen: Screen, delta: nat, writes: seq<Write>)

  function GifSpec(data: Bytes): Result<Image> {
    match HeaderSpec(data)
    case Failure(e) => Failure(e)
    case Success(s) =>
      match Blocks(data, AfterPalette(data, s), 0, [])
      case Failure(e) => Failure(e)
      case Success((delta, writes)) => Success(Image(s, delta, writes))
  }
}
