/** What the reference reading `GifSpec` promises about files built by the
    writer's side of the format: headers, extensions, padding, frames that
    end on an end code, and the pixel writes the block loop collects. */
module GifFacts {
  import opened Common
  import opened SubBlocks
  import opened LzwDecode
  import opened GifFormat

  /** A file that starts with either magic and a written screen descriptor
      reads back that screen. */
  lemma {:induction false} HeaderOfScreen(magic: Bytes, s: Screen, rest: Bytes)
    requires magic == Magic87 || magic == Magic89
    requires ScreenFits(s)
    ensures HeaderSpec(magic + EncodeScreen(s) + rest) == Success(s)
  {
    var data := magic + EncodeScreen(s) + rest;
    assert data[..6] == magic;
    assert data[6..13] == EncodeScreen(s);
    ScreenRoundTrip(s);
  }

  /** The smallest file: header, a global colour table of the declared size
      (skipped whether or not the palette flag is set), and the trailer. */
  lemma {:induction false} EmptyImage(magic: Bytes, s: Screen, table: Bytes)
    requires magic == Magic87 || magic == Magic89
    requires ScreenFits(s) && |table| == 3 * s.paletteSize
    ensures GifSpec(magic + EncodeScreen(s) + table + [0x3B]) == Success(Image(s, 0, []))
  {
    var data := magic + EncodeScreen(s) + table + [0x3B];
    assert data == magic + EncodeScreen(s) + (table + [0x3B]);
    HeaderOfScreen(magic, s, table + [0x3B]);
    assert AfterPalette(data, s) == 13 + |table| && data[13 + |table|] == 0x3B;
  }

  /** An extension whose body was written as sub-blocks reads back the type
      byte and the concatenated payloads, and ends just after the encoding. */
  lemma {:induction false} ExtensionOfBlocks(data: Bytes, pos: nat, extensionType: Byte, blocks: seq<Bytes>)
    requires ValidBlocks(blocks)
    requires pos + 1 + |Encode(blocks)| <= |data|
    requires data[pos] == extensionType
    requires data[pos + 1..pos + 1 + |Encode(blocks)|] == Encode(blocks)
    ensures ExtensionSpec(data, pos)
              == Success(ExtensionRead(extensionType, Concat(blocks), pos + 1 + |Encode(blocks)|))
    ensures pos + 1 + |Encode(blocks)| == pos + 2 + TotalSize(blocks) + |blocks|
  {
    FlattenEncode(data, pos + 1, blocks);
  }

  /** An extension the file cuts short, anywhere after its type byte and
      before its terminator, is a truncated file. */
  lemma {:induction false} ExtensionCutShort(data: Bytes, pos: nat, extensionType: Byte, blocks: seq<Bytes>)
    requires ValidBlocks(blocks)
    requires pos + 1 <= |data| < pos + 1 + |Encode(blocks)|
    requires data[pos] == extensionType
    requires data[pos + 1..] == Encode(blocks)[..|data| - pos - 1]
    ensures ExtensionSpec(data, pos) == Failure(Truncated)
  {
    FlattenTruncated(data, pos + 1, blocks);
  }

  /** A file holding a, x, rest whole from `pos` on. */
  lemma {:induction false} ThreeParts(data: Bytes, pos: nat, a: Bytes, x: Byte, rest: Bytes)
    requires pos + |a| + 1 + |rest| <= |data|
    requires data[pos..pos + |a| + 1 + |rest|] == a + [x] + rest
    ensures data[pos..pos + |a|] == a && data[pos + |a|] == x
    ensures data[pos + |a| + 1..pos + |a| + 1 + |rest|] == rest
  {
    var e, n := a + [x] + rest, |a| + 1 + |rest|;
    assert forall i :: 0 <= i < n ==> data[pos + i] == data[pos..pos + n][i] == e[i];
    assert forall i :: 0 <= i < |a| ==> data[pos..pos + |a|][i] == data[pos + i] == a[i];
    assert data[pos + |a|] == e[|a|];
    assert forall i :: 0 <= i < |rest| ==>
             data[pos + |a| + 1..pos + n][i] == data[pos + |a| + 1 + i] == rest[i];
  }

  /** A frame written as a descriptor without a local colour table, a
      minimum code size and its image data as sub-blocks reads back that
      descriptor and code size, and the LZW pass over the concatenated
      payloads; a pass that runs the stream out ends just after the
      encoding. */
  lemma {:induction false} FrameOfBlocks(data: Bytes, pos: nat, d: Descriptor, codeSize: Byte, blocks: seq<Bytes>)
    requires DescriptorFits(d) && !d.paletteFlag && ValidBlocks(blocks)
    requires pos + 10 + |Encode(blocks)| <= |data|
    requires data[pos..pos + 10 + |Encode(blocks)|] == EncodeDescriptor(d) + [codeSize] + Encode(blocks)
    ensures var pass := ReadCodes(codeSize, Concat(blocks), Terminated);
            var fr := FrameSpec(data, pos);
            && (pass.Failure? ==> fr == Failure(pass.error))
            && (pass.Success? ==>
                  && fr.Success? && fr.value.desc == d && fr.value.codeSize == codeSize
                  && fr.value.values == pass.value.0 && fr.value.stop == pass.value.1
                  && (pass.value.1.Exhausted? ==> fr.value.end == pos + 10 + |Encode(blocks)|))
  {
    ThreeParts(data, pos, EncodeDescriptor(d), codeSize, Encode(blocks));
    DescriptorRoundTrip(d);
    FlattenEncode(data, pos + 10, blocks);
  }

  /** The block loop over a written extension: a graphic control extension
      (0xF9) adds the second byte of its body to the delay sum, or fails when
      the body is shorter; every other extension is skipped. */
  lemma {:induction false} ExtensionBlock(data: Bytes, pos: nat, extensionType: Byte, blocks: seq<Bytes>,
                                          delta: nat, writes: seq<Write>)
    requires ValidBlocks(blocks)
    requires pos + 2 + |Encode(blocks)| <= |data|
    requires data[pos] == 0x21 && data[pos + 1] == extensionType
    requires data[pos + 2..pos + 2 + |Encode(blocks)|] == Encode(blocks)
    ensures var next, body := pos + 2 + |Encode(blocks)|, Concat(blocks);
            Blocks(data, pos, delta, writes)
              == if extensionType != 0xF9 then Blocks(data, next, delta, writes)
                 else if |body| < 2 then Failure(ShortGraphicControl)
                 else Blocks(data, next, delta + body[1], writes)
  {
    ExtensionOfBlocks(data, pos + 1, extensionType, blocks);
    var ext := ExtensionSpec(data, pos + 1);
    assert ext.Success? && ext.value.extensionType == extensionType;
    assert ext.value.body == Concat(blocks) && ext.value.end == pos + 2 + |Encode(blocks)|;
  }

  /** Zero bytes between blocks are skipped one by one. */
  lemma {:induction false} PaddingSkipped(data: Bytes, pos: nat, n: nat, delta: nat, writes: seq<Write>)
    requires pos + n <= |data|
    requires forall i :: pos <= i < pos + n ==> data[i] == 0
    ensures Blocks(data, pos, delta, writes) == Blocks(data, pos + n, delta, writes)
    decreases n
  {
    if n > 0 {
      PaddingSkipped(data, pos + 1, n - 1, delta, writes);
    }
  }

  /** A pass that stops on the end code leaves the rest of the sub-block
      stream, terminator included, for the block loop. When the end code sits
      in the last data byte, only the zero terminator is left, and the block
      loop skips it as padding. */
  lemma {:induction false} FrameLeavesTerminator(data: Bytes, pos: nat, fr: FrameRead, delta: nat, writes: seq<Write>)
    requires pos <= |data| && FrameSpec(data, pos) == Success(fr) && fr.stop.EndCode?
    ensures var st := Flatten(data, pos + 10);
            st.tail == Terminated ==>
              && fr.end < st.endPos && data[st.endPos - 1] == 0
              && (fr.stop.pulled == |st.bytes| ==>
                    fr.end == st.endPos - 1
                    && Blocks(data, fr.end, delta, writes) == Blocks(data, st.endPos, delta, writes))
  {
    var st := Flatten(data, pos + 10);
    ViewTerminated(data, pos + 10, 0, false);
    assert fr.end == st.ends[fr.stop.pulled - 1];
  }

  /** A block loop result that only adds to a delay sum and a run of
      writes: the sum never falls, the writes stay a prefix, and every write
      added sets a pixel to 1 or 0. */
  ghost predicate Extends(delta: nat, writes: seq<Write>, r: Result<(nat, seq<Write>)>) {
    r.Success? ==>
      && delta <= r.value.0 && writes <= r.value.1
      && forall i :: |writes| <= i < |r.value.1| ==> r.value.1[i].value <= 1
  }

  lemma {:induction false} ExtendsAfter(delta: nat, writes: seq<Write>, painted: seq<Write>, r: Result<(nat, seq<Write>)>)
    requires forall i :: 0 <= i < |painted| ==> painted[i].value <= 1
    requires Extends(delta, writes + painted, r)
    ensures Extends(delta, writes, r)
  {
    if r.Success? {
      assert forall i :: |writes| <= i < |writes + painted| ==>
               r.value.1[i] == (writes + painted)[i] == painted[i - |writes|];
    }
  }

  /** The block loop only adds: the delay sum never falls, the writes so
      far stay a prefix, and every write it adds sets a pixel to 1 or 0. */
  lemma {:induction false} BlocksGrow(data: Bytes, pos: nat, delta: nat, writes: seq<Write>)
    requires pos <= |data|
    ensures Extends(delta, writes, Blocks(data, pos, delta, writes))
    decreases |data| - pos
  {
    if pos == |data| || data[pos] == 0x3B {
    } else if data[pos] == 0x00 {
      BlocksGrow(data, pos + 1, delta, writes);
    } else if data[pos] == 0x2C {
      var fr := FrameSpec(data, pos + 1);
      if fr.Success? {
        var f := fr.value;
        var painted := Painted(Flat(f.values), f.desc.x, f.desc.y, f.desc.w);
        PaintedWrites(Flat(f.values), f.desc.x, f.desc.y, f.desc.w);
        BlocksGrow(data, f.end, delta, writes + painted);
        ExtendsAfter(delta, writes, painted, Blocks(data, f.end, delta, writes + painted));
      }
    } else if data[pos] == 0x21 {
      var ext := ExtensionSpec(data, pos + 1);
      if ext.Success? && ext.value.extensionType != 0xF9 {
        BlocksGrow(data, ext.value.end, delta, writes);
      } else if ext.Success? && |ext.value.body| >= 2 {
        BlocksGrow(data, ext.value.end, delta + ext.value.body[1], writes);
      }
    }
  }

  /** Every pixel write of a decoded file sets a pixel to 1 or 0. */
  lemma {:induction false} ImageWritesAreBinary(data: Bytes)
    ensures GifSpec(data).Success? ==>
              forall i :: 0 <= i < |GifSpec(data).value.writes| ==> GifSpec(data).value.writes[i].value <= 1
  {
    if HeaderSpec(data).Success? {
      BlocksGrow(data, AfterPalette(data, HeaderSpec(data).value), 0, []);
      assert Extends(0, [], Blocks(data, AfterPalette(data, HeaderSpec(data).value), 0, []));
    }
  }
}
