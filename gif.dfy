/** `GIFImage`, `Frame` and `Extension` of `badapple.py`: the decoder that
    reads one file through `f`, proved to compute the reference reading
    `GifSpec` of that file. */
module Gif {
  import opened Common
  import opened Source
  import opened SubBlocks
  import opened LzwDecode
  import opened GifFormat

  /** The frame buffer that `Frame` draws into, as the record of its
      `pixel(x, y, value)` calls. */
  class Canvas {
    var writes: seq<Write>

    constructor ()
      ensures writes == []
    {
      writes := [];
    }

    /** buffer.pixel(x, y, value) */
    method Pixel(x: nat, y: nat, value: nat)
      modifies this
      ensures writes == old(writes) + [Write(x, y, value)]
    {
      writes := writes + [Write(x, y, value)];
    }
  }

  /** `GIFImage.read_header`: the magic, then the logical screen descriptor.
      Fails where the source raises ValueError or struct.error. */
  method ReadHeader(f: Reader) returns (r: Result<Screen>)
    requires f.Valid() && f.pos == 0
    modifies f
    ensures f.Valid()
    ensures r == HeaderSpec(f.data)
    ensures r.Success? ==> f.pos == 13
    ensures r == Failure(NotGif) ==> f.pos == Min(6, |f.data|)
  {
    var header := f.Read(6);
    if header != Magic87 && header != Magic89 {
      return Failure(NotGif);
    }
    var b := f.Read(7);
    if |b| < 7 {
      return Failure(Truncated);
    }
    assert b == f.data[6..13];
    r := Success(ScreenOf(b));
  }

  /** `Extension(f)`, from the byte after 0x21: the type byte, then
      `bytes(read_blockstream(f))`. */
  method ReadExtension(f: Reader) returns (r: Result<ExtensionRead>)
    requires f.Valid()
    modifies f
    ensures f.Valid()
    ensures r == ExtensionSpec(f.data, old(f.pos))
    ensures r.Success? ==> f.pos == r.value.end
  {
    var b := f.Read(1);
    if |b| == 0 {
      return Failure(Truncated);
    }
    var data := new BlockStream(f);
    var body := data.ReadAll();
    if body.Failure? {
      return Failure(body.error);
    }
    r := Success(ExtensionRead(b[0], body.value, f.pos));
  }

  /** The body of `for byte in decoded`: 0 sets the pixel under the cursor,
      1 clears it, any other byte leaves it. */
  method Plot(canvas: Canvas, b: Byte, x: nat, y: nat)
    modifies canvas
    ensures canvas.writes == old(canvas.writes) + Dot(b, x, y)
  {
    if b == 0 {
      canvas.Pixel(x, y, 1);
    }
    if b == 1 {
      canvas.Pixel(x, y, 0);
    }
  }

  /** One more byte: it is painted where the walk stands, and the walk
      moves one step. */
  lemma {:induction false} PaintedSnoc(p: Bytes, b: Byte, x0: nat, y0: nat, w: nat)
    ensures Painted(p + [b], x0, y0, w)
              == Painted(p, x0, y0, w) + Dot(b, Walk(x0, y0, w, |p|).0, Walk(x0, y0, w, |p|).1)
    ensures Walk(x0, y0, w, |p| + 1) == Advance(Walk(x0, y0, w, |p|).0, Walk(x0, y0, w, |p|).1, w)
  {
    assert (p + [b])[..|p|] == p;
  }

  lemma {:induction false} FlatSnoc(values: seq<Bytes>, j: nat)
    requires j < |values|
    ensures Flat(values[..j + 1]) == Flat(values[..j]) + values[j]
  {
    assert values[..j + 1][..j] == values[..j];
  }

  /** One byte painted at the cursor, and `x += 1`, wrapping to column 0
      of the next row at the frame width. */
  method PaintByte(canvas: Canvas, b: Byte, x: nat, y: nat, w: nat,
                   ghost x0: nat, ghost y0: nat, ghost done: Bytes, ghost before: seq<Write>)
      returns (x': nat, y': nat)
    requires (x, y) == Walk(x0, y0, w, |done|)
    requires canvas.writes == before + Painted(done, x0, y0, w)
    modifies canvas
    ensures (x', y') == Walk(x0, y0, w, |done| + 1)
    ensures canvas.writes == before + Painted(done + [b], x0, y0, w)
  {
    PaintedSnoc(done, b, x0, y0, w);
    Plot(canvas, b, x, y);
    x', y' := x + 1, y;
    if x' >= w {
      x', y' := 0, y + 1;
    }
  }

  lemma {:induction false} SnocSlice(done: Bytes, decoded: Bytes, i: nat)
    requires i < |decoded|
    ensures done + decoded[..i + 1] == (done + decoded[..i]) + [decoded[i]]
  {
    assert decoded[..i + 1] == decoded[..i] + [decoded[i]];
  }

  /** `for byte in decoded`: paint the bytes of one decoded value, the
      cursor going on from where the bytes `done` before it left it. */
  method PaintValue(canvas: Canvas, decoded: Bytes, x: nat, y: nat, w: nat,
                    ghost x0: nat, ghost y0: nat, ghost done: Bytes, ghost before: seq<Write>)
      returns (x': nat, y': nat)
    requires (x, y) == Walk(x0, y0, w, |done|)
    requires canvas.writes == before + Painted(done, x0, y0, w)
    modifies canvas
    ensures (x', y') == Walk(x0, y0, w, |done + decoded|)
    ensures canvas.writes == before + Painted(done + decoded, x0, y0, w)
  {
    x', y' := x, y;
    var i := 0;
    ghost var p := done;
    while i < |decoded|
      invariant 0 <= i <= |decoded|
      invariant p == done + decoded[..i]
      invariant (x', y') == Walk(x0, y0, w, |p|)
      invariant canvas.writes == before + Painted(p, x0, y0, w)
    {
      x', y' := PaintByte(canvas, decoded[i], x', y', w, x0, y0, p, before);
      SnocSlice(done, decoded, i);
      p := p + [decoded[i]];
      i := i + 1;
    }
    assert decoded[..i] == decoded;
  }

  /** The pixel loops of `Frame.__init__` over the decoded values, the
      cursor starting at the frame's (x, y). */
  method Paint(canvas: Canvas, values: seq<Bytes>, x0: nat, y0: nat, w: nat)
    modifies canvas
    ensures canvas.writes == old(canvas.writes) + Painted(Flat(values), x0, y0, w)
  {
    ghost var before := canvas.writes;
    var x, y := x0, y0;
    var j := 0;
    while j < |values|
      invariant 0 <= j <= |values|
      invariant (x, y) == Walk(x0, y0, w, |Flat(values[..j])|)
      invariant canvas.writes == before + Painted(Flat(values[..j]), x0, y0, w)
    {
      x, y := PaintValue(canvas, values[j], x, y, w, x0, y0, Flat(values[..j]), before);
      FlatSnoc(values, j);
      j := j + 1;
    }
    assert values[..j] == values;
  }

  /** A frame whose descriptor and code size are there and whose pass
      ends with `pass`. */
  lemma {:induction false} FramePass(data: Bytes, pos: nat, pass: Result<(seq<Bytes>, Stop)>)
    requires pos + 10 <= |data| && !DescriptorOf(data[pos..pos + 9]).paletteFlag
    requires var st := Flatten(data, pos + 10);
             pass == ReadCodes(data[pos + 9], st.bytes, st.tail)
    ensures var st := Flatten(data, pos + 10);
            && |st.bytes| == |st.ends|
            && (pass.Failure? ==> FrameSpec(data, pos) == Failure(pass.error))
            && (pass.Success? ==>
                  && (pass.value.1.EndCode? ==> 1 <= pass.value.1.pulled <= |st.bytes|)
                  && FrameSpec(data, pos)
                     == Success(FrameRead(DescriptorOf(data[pos..pos + 9]), data[pos + 9],
                                          pass.value.0, pass.value.1, StopPos(st, pass.value.1))))
  {
  }

  /** `Frame(f, buffer, colors)`, from the byte after 0x2C: the image
      descriptor, the minimum code size, one LZW pass over the sub-blocks
      that follow, and the pixels it paints. */
  method ReadFrame(f: Reader, canvas: Canvas) returns (r: Result<FrameRead>)
    requires f.Valid()
    modifies f, canvas
    ensures f.Valid()
    ensures r == FrameSpec(f.data, old(f.pos))
    ensures r.Success? ==>
              && f.pos == r.value.end
              && canvas.writes == old(canvas.writes)
                   + Painted(Flat(r.value.values), r.value.desc.x, r.value.desc.y, r.value.desc.w)
  {
    ghost var pos := f.pos;
    var b := f.Read(9);
    if |b| < 9 {
      return Failure(Truncated);
    }
    var d := DescriptorOf(b);
    if d.paletteFlag {
      return Failure(LocalPaletteUnsupported);
    }
    var codeSize := f.ReadByte();
    if codeSize.None? {
      return Failure(Truncated);
    }
    var pass := DecodeAndPaint(f, canvas, codeSize.value, d.x, d.y, d.w);
    FramePass(f.data, pos, pass);
    if pass.Failure? {
      return Failure(pass.error);
    }
    r := Success(FrameRead(d, codeSize.value, pass.value.0, pass.value.1, f.pos));
  }

  /** `for decoded in lzw_decode(read_blockstream(f), self.min_code_sz)`:
      one LZW pass over the sub-blocks from the file position on, its values
      painted from (x0, y0) in a frame of width w. */
  method DecodeAndPaint(f: Reader, canvas: Canvas, codeSize: Byte, x0: nat, y0: nat, w: nat)
    returns (r: Result<(seq<Bytes>, Stop)>)
    requires f.Valid()
    modifies f, canvas
    ensures f.Valid()
    ensures var st := Flatten(f.data, old(f.pos));
            && r == ReadCodes(codeSize, st.bytes, st.tail)
            && (r.Success? ==>
                  && |st.bytes| == |st.ends|
                  && (r.value.1.EndCode? ==> 1 <= r.value.1.pulled <= |st.bytes|)
                  && f.pos == StopPos(st, r.value.1)
                  && canvas.writes == old(canvas.writes) + Painted(Flat(r.value.0), x0, y0, w))
  {
    var data := new BlockStream(f);
    r := Decode(data, codeSize);
    if r.Success? {
      Paint(canvas, r.value.0, x0, y0, w);
    }
  }

  /** `GIFImage(f)`: the header, the skipped global colour table, and the
      block loop. */
  method Load(f: Reader) returns (r: Result<Image>)
    requires f.Valid() && f.pos == 0
    modifies f
    ensures r == GifSpec(f.data)
  {
    var header := ReadHeader(f);
    if header.Failure? {
      return Failure(header.error);
    }
    var screen := header.value;
    var palette := f.Read(screen.paletteSize * 3);
    assert f.pos == AfterPalette(f.data, screen);
    var blocks := BlockLoop(f);
    match blocks {
      case Failure(e) => r := Failure(e);
      case Success((delta, writes)) => r := Success(Image(screen, delta, writes));
    }
  }

  /** The `while True` loop of `GIFImage.__init__` until the trailer 0x3B,
      summing the second byte of every graphic control extension into
      `delta` and painting every frame into a fresh buffer. */
  method BlockLoop(f: Reader) returns (r: Result<(nat, seq<Write>)>)
    requires f.Valid()
    modifies f
    ensures r == Blocks(f.data, old(f.pos), 0, [])
  {
    var canvas := new Canvas();
    var delta := 0;
    ghost var goal := Blocks(f.data, f.pos, delta, canvas.writes);
    while true
      invariant f.Valid()
      invariant goal == Blocks(f.data, f.pos, delta, canvas.writes)
      decreases |f.data| - f.pos
    {
      var turn := NextBlock(f, canvas, delta);
      match turn {
        case Finished(res) =>
          match res {
            case Failure(e) => return Failure(e);
            case Success(_) => return Success((delta, canvas.writes));
          }
        case Going(delta') =>
          delta := delta';
      }
    }
  }

  /** What one turn of the block loop does: end the loop with the trailer or
      an error, or go on with the new delay sum. */
  datatype Turn = Finished(result: Result<()>) | Going(delta: nat)

  /** One turn of the `while True` loop of `GIFImage.__init__`. */
  method NextBlock(f: Reader, canvas: Canvas, delta: nat) returns (t: Turn)
    requires f.Valid()
    modifies f, canvas
    ensures f.Valid()
    ensures t.Finished? && t.result.Failure? ==>
              Blocks(f.data, old(f.pos), delta, old(canvas.writes)) == Failure(t.result.error)
    ensures t.Finished? && t.result.Success? ==>
              Blocks(f.data, old(f.pos), delta, old(canvas.writes)) == Success((delta, canvas.writes))
    ensures t.Going? ==>
              && old(f.pos) < f.pos
              && Blocks(f.data, old(f.pos), delta, old(canvas.writes))
                   == Blocks(f.data, f.pos, t.delta, canvas.writes)
  {
    var blockType := f.ReadByte();
    if blockType.None? {
      return Finished(Failure(Truncated));
    }
    var b := blockType.value;
    if b == 0x3B {
      return Finished(Success(()));
    } else if b == 0x00 {
      return Going(delta);
    } else if b == 0x2C {
      var frame := ReadFrame(f, canvas);
      if frame.Failure? {
        return Finished(Failure(frame.error));
      }
      return Going(delta);
    } else if b == 0x21 {
      var e := ReadExtension(f);
      if e.Failure? {
        return Finished(Failure(e.error));
      }
      if e.value.extensionType != 0xF9 {
        return Going(delta);
      }
      if |e.value.body| < 2 {
        return Finished(Failure(ShortGraphicControl));
      }
      return Going(delta + e.value.body[1]);
    } else {
      return Finished(Failure(BadBlock(b)));
    }
  }
}
