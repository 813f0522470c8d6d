# A verified model of the `badapple.py` GIF decoder

`badapple.py` plays an animated GIF on a small monochrome handheld. Its
decoder has four parts, each feeding the next:

- `read_blockstream` flattens the Data Sub-blocks of a GIF (section 15 of the
  GIF89a specification): a size byte, that many payload bytes, and so on up
  to a size byte of 0.
- `LZWDict` is the adaptive LZW code table of Appendix F. It handles clear
  and end codes, literals, table lookups and the "code not yet in the table"
  case (`last + last[0:1]`), and it grows the code width up to 12 bits.
- `lzw_decode` takes codes of `code_len` bits, least significant bit first,
  across byte boundaries. It stops quietly when the stream ends or on the end
  code.
- `GIFImage` and `Frame`:
  - read the header and its logical screen descriptor (sections 17-18);
  - skip the global colour table;
  - run the block loop over the trailer `0x3B`, padding `0x00`, image
    descriptors `0x2C` and extensions `0x21`;
  - paint each frame's decoded indices in raster order.

The model is imperative where the source is.

- A `Reader` class stands for the open file `f`. It has a byte sequence and
  a position that `Read` and `ReadByte` advance.
- A `BlockStream` class is a suspended `read_blockstream` generator. Its
  `Next` pulls one byte at a time, so nothing runs ahead of the source.
- `LzwDict` is a class with the fields `codes`, `last` and `codeLen`.
- `lzw_decode` is a method with the source's nested loops, split into
  `Round`, `ReadCode`, `TakeBit` and `ReadBit`.
- The frame buffer is a `Canvas` class that records every
  `pixel(x, y, value)` call.

Each method is proved against a pure reading of the same bytes.

- `Step` is one `decode(code)` on a `Table` value.
- `Run` and `ReadCodes` give the bit-level outcome of one LZW pass.
- `View` and `Flatten` describe what a sub-block generator delivers.
- `FrameSpec`, `ExtensionSpec`, `Blocks` and `GifSpec` are the reading of a
  whole file.

The main results:

- `Gif.Load` computes `GifSpec` of the file.
- The reference reading is related to the writer's side of the format:
  - `Encode` for sub-blocks;
  - `EncodeScreen` and `EncodeDescriptor` for the descriptors;
  - closed-form raster positions for the frame walk.
- The code table keeps a stated invariant.

Python exceptions become the `Error` constructors of a `Result`:

- the bad magic's `ValueError` becomes `NotGif`;
- a read past the end of the file becomes `Truncated`;
- an unknown block byte becomes `BadBlock`;
- `bytes([code])` of a code over 255 becomes `LiteralOutOfRange`;
- the undefined `palette_class` becomes `LocalPaletteUnsupported`;
- an empty LZW stream becomes `EmptyImageData`;
- `e.data[1]` of a short graphic control block becomes
  `ShortGraphicControl`.

Three details of the code are modelled exactly:

- The generator asks for the next byte as soon as `bit` reaches 8. A code
  whose last bit is the last bit of the stream is therefore never decoded:
  `StopIteration` comes first.
- After the end code, the file stands just after the last byte the decoder
  pulled. The rest of the sub-blocks, terminator included, is left to the
  block loop, which skips it only if it happens to be zero bytes.
- A new row of a frame starts at column 0, not at the frame's own `x`.

## Model

| member | source | states |
|---|---|---|
| Common.Take1 | badapple.py:47 | `s[0:1]` is the first element, or nothing for an empty sequence: a prefix of length min(1, \|s\|) |
| Source.Reader.ReadByte | badapple.py:10 | `f.read(1)[0]` gives the byte at the position and advances by one, or fails (IndexError) at the end of the file without moving |
| Source.Reader.Read | badapple.py:93 | `f.read(n)` gives the bytes from the position up to n or the end of the file, and advances by exactly what it gave |
| SubBlocks.View | badapple.py:8-14 | a suspended generator delivers one file end position per byte, and none beyond the file; once terminated, it ends past its start |
| SubBlocks.ViewEnds | badapple.py:8-14 | every byte the generator delivers is read from after its starting position and inside the file |
| SubBlocks.ViewTerminated | badapple.py:10-12 | a stream that reaches its zero size byte: that byte sits just before the end position, every payload byte before it, the last payload byte right before it |
| SubBlocks.TerminatedShape | badapple.py:10-12 | a stream that reaches its zero size byte: that byte sits just before the end position, a pending block leaves at least one payload byte, and the last payload byte sits right before the terminator |
| SubBlocks.TerminatedWithin | badapple.py:10-12 | a stream that reaches its zero size byte delivers every payload byte from a position before that byte |
| SubBlocks.PayloadView | badapple.py:13-14 | the payload bytes of a sub-block held whole by the file are delivered in order, then reading goes on at the next size byte |
| SubBlocks.SubBlockView | badapple.py:9-14 | a whole sub-block delivers its payload and reading continues just after it |
| SubBlocks.PayloadCut | badapple.py:13-14 | a sub-block cut short by the end of the file delivers the bytes there and then fails |
| SubBlocks.FlattenEncode | badapple.py:8-14 | an encoded stream yields exactly the concatenated payloads, ends terminated, and consumes exactly sum of sizes + number of sub-blocks + 1 bytes |
| SubBlocks.CutInBlock | badapple.py:10-14 | a file ending inside the first sub-block makes the generator fail after a prefix of the payloads |
| SubBlocks.FlattenTruncated | badapple.py:8-14 | a file ending anywhere inside an encoded stream makes the generator fail, having delivered only a prefix of the payloads |
| SubBlocks.BlockStream.constructor | badapple.py:8 | a fresh generator will deliver `Flatten` of the file from its current position, none of it taken yet |
| SubBlocks.BlockStream.Next | badapple.py:8-14 | `next()` yields the next payload byte with the file just after it, or raises StopIteration after the zero size byte with the file just past it, or fails when the file ends first |
| SubBlocks.BlockStream.ReadAll | badapple.py:87 | `bytes(read_blockstream(f))` is all payload bytes with the file just past the terminator, or Truncated when the file ends first |
| LzwTable.Step | badapple.py:35-54 | one `decode` never lowers the code width except by a reset |
| LzwTable.ControlCodes | badapple.py:30-41 | the clear code yields the empty value and the reset table (no entries, empty `last`, width `code_size + 1`); the end code resets the same way and signals end of data |
| LzwTable.Literal | badapple.py:42-43 | a code below the clear code yields the one byte `[code]`, or the ValueError of `bytes([code])` over 255 with the table untouched |
| LzwTable.TableCodes | badapple.py:44-47 | a code up to `len(codes) + end_code` yields `codes[code - end_code - 1]`; any larger code yields `last + last[0:1]` |
| LzwTable.ValueStep | badapple.py:48-53 | a value appends `last + value[0:1]` exactly when `last` was non-empty; the width grows by exactly one exactly when the grown table reaches 2^width below 12, else stays; `last` becomes the value |
| LzwTable.ResetInv | badapple.py:30-33 | the reset table satisfies the table invariant |
| LzwTable.LookupShape | badapple.py:42-47 | a value is empty only right after a reset, and is one byte, an entry, or `last + last[0:1]` |
| LzwTable.ExtendWidth | badapple.py:50-52 | after a value the width stays between `code_size + 1` and 12, and below 12 the next entry's code still fits in it |
| LzwTable.ExtendEntries | badapple.py:48-49 | every entry stays a known string extended by one byte |
| LzwTable.ExtendLast | badapple.py:48-53 | `last` stays one byte or an entry, and entries exist only once a value was seen |
| LzwTable.StepInv | badapple.py:35-54 | every `decode`, whatever the code, keeps the table invariant |
| LzwTable.StepKeeps | badapple.py:35-54 | a `decode` on a table that keeps the invariant leaves a table that keeps it |
| LzwTable.FeedFrom | badapple.py:35-54 | any run of codes keeps the table invariant |
| LzwTable.FeedInv | badapple.py:32 | however many codes arrive, the width never exceeds 12 (when it starts there or below) and never drops below `code_size + 1` |
| LzwTable.LzwDict.constructor | badapple.py:22-28 | construction gives the reset table and the clear code `1 << code_size`, end code one more |
| LzwTable.LzwDict.Clear | badapple.py:30-33 | `clear()` leaves the reset table |
| LzwTable.LzwDict.Decode | badapple.py:35-54 | `decode(code)` returns and leaves exactly what `Step` gives from the old table |
| LzwDecode.BitOf | badapple.py:65 | `(x >> i) & 1` is 0 or 1 |
| LzwDecode.Bit | badapple.py:65 | a stream bit is 0 or 1 |
| LzwDecode.ReadCodes | badapple.py:57-79 | a pass ending on the end code has pulled between 1 and all of the stream's bytes; a quiet stop on an exhausted stream needs a terminated stream (otherwise IndexError) |
| LzwDecode.Run | badapple.py:62-77 | the same two facts for a pass resumed at any table and bit |
| LzwDecode.RunFeed | badapple.py:70-77 | the end code ends the pass with the bytes pulled so far, a ValueError ends it with that error, and a value continues the pass with it appended, at the next bit and the new table |
| LzwDecode.RunEnd | badapple.py:67-73 | a code that does not fit in what is left of the stream ends the pass: quietly when the stream reached its terminator, with Truncated when the file ended first |
| LzwDecode.CodeNext | badapple.py:65 | `code \|= bit << i` extends the code by its next stream bit |
| LzwDecode.CodeBound | badapple.py:63-66 | a w-bit code is below 2^w |
| LzwDecode.CodeBit | badapple.py:63-66 | bit i of a code is stream bit k + i, for i below the width |
| LzwDecode.CodeLowBits | badapple.py:63-66 | every bit below the width of a code is its stream bit |
| LzwDecode.CodeBits | badapple.py:63-66 | the code is the sum of `bit_i << i`: bit i is stream bit k + i below the width, and it has no bit at the width or above |
| LzwDecode.ReadBit | badapple.py:65-69 | reads stream bit k, and pulls the next byte when the bit cursor reaches 8: StopIteration only on a terminated stream, leaving the file past its terminator |
| LzwDecode.TakeBit | badapple.py:64-69 | one pass of the bit loop extends the code by bit k + i and keeps the cursor at bit k + i + 1 |
| LzwDecode.ReadCode | badapple.py:63-69 | the bit loop gives the code of the width's stream bits when they all fit before the stream's last bit, or ends the pass by StopIteration or IndexError |
| LzwDecode.FeedCode | badapple.py:70 | feeding a complete code to the dictionary either ends the pass with the outcome `Run` gives, or continues it from the next bit with the same outcome; a table that kept the invariant still keeps it |
| LzwDecode.EndOutcome | badapple.py:71-73 | a code cut by the end of the stream ends the pass with `Run`'s outcome: quietly on StopIteration, Truncated on IndexError, the file then past the terminator |
| LzwDecode.Round | badapple.py:62-70 | one turn of `while True` either ends the pass with the outcome `Run` gives from where it started, or continues it with that outcome unchanged; a table that kept the invariant still keeps it |
| LzwDecode.Decode | badapple.py:57-79 | the whole generator gives exactly `ReadCodes`; on success the file stands just past the terminator (stream exhausted) or just past the last byte pulled (end code), and bytes beyond are not consumed |
| GifFormat.U16 | badapple.py:93 | a little-endian 16-bit field is below 65536 |
| GifFormat.SizeFieldOf | badapple.py:97 | every 3-bit size field declares one of 2..256 and the size gives the field back |
| GifFormat.SizeOfField | badapple.py:167 | a declared colour table size comes from its own size field |
| GifFormat.U16Bytes | badapple.py:163 | the two bytes of a 16-bit field are its low and high byte |
| GifFormat.SplitScreenFlags | badapple.py:164-167 | the screen flags byte is the sum of its palette, colour-bits, sort and size fields |
| GifFormat.SplitDescriptorFlags | badapple.py:94-97 | the descriptor flags byte is the sum of its palette, interlace, sort, reserved and size fields |
| GifFormat.PackScreenFlags | badapple.py:164-167 | the masks and shifts of `read_header` take packed screen fields back out |
| GifFormat.PackDescriptorFlags | badapple.py:94-97 | the masks of `Frame.__init__` take packed descriptor fields back out |
| GifFormat.ScreenFlags | badapple.py:164-167 | the flags byte a screen is written with is a byte |
| GifFormat.EncodeScreen | badapple.py:162-163 | a screen is written with seven bytes |
| GifFormat.ScreenRoundTrip | badapple.py:162-167 | reading back a written logical screen descriptor gives that screen |
| GifFormat.ScreenBytesRoundTrip | badapple.py:162-167 | any seven bytes decode to a screen that is written back as the same seven bytes: no bit is lost |
| GifFormat.DescriptorFlags | badapple.py:94-97 | the flags byte a descriptor is written with is a byte |
| GifFormat.EncodeDescriptor | badapple.py:92-93 | a descriptor is written with nine bytes |
| GifFormat.DescriptorRoundTrip | badapple.py:92-97 | reading back a written image descriptor gives that descriptor |
| GifFormat.DescriptorBytesRoundTrip | badapple.py:92-97 | any nine bytes decode to a descriptor that is written back as the same bytes, except the two reserved flag bits, which come back clear |
| GifFormat.WalkIsRaster | badapple.py:112-115 | the cursor stepped byte by byte is the closed form: the first row runs from the frame's x to the width, every later row from column 0 for w bytes |
| GifFormat.Dot | badapple.py:106-109 | one byte writes at most one pixel |
| GifFormat.PaintedLast | badapple.py:104-115 | exactly the bytes 0 and 1 write a pixel, each write sets 1 or 0, and a last byte of 0 or 1 writes last, at the closed-form raster position of that byte |
| GifFormat.PaintedPrefix | badapple.py:104-115 | the writes of the first j bytes of a frame are a prefix of the writes of all its bytes |
| GifFormat.PaintedAt | badapple.py:106-115 | byte j, if 0 or 1, makes the write numbered by the 0 and 1 bytes before it, at byte j's closed-form raster position, setting 1 for byte 0 and 0 for byte 1 |
| GifFormat.PaintedWrites | badapple.py:104-115 | exactly the bytes 0 and 1 write a pixel; each write sets 1 or 0; every byte 0 or 1 makes the write numbered by the 0 and 1 bytes before it, at its own closed-form raster position, byte 0 setting and byte 1 clearing |
| GifFormat.AfterPalette | badapple.py:126 | skipping the global colour table never goes past the end of the file |
| GifFormat.FrameSpec | badapple.py:90-115 | a frame read ends at least 10 bytes on and inside the file |
| GifFormat.ExtensionSpec | badapple.py:82-87 | an extension read ends at least 2 bytes on and inside the file |
| Gif.Canvas.constructor | badapple.py:131 | a fresh frame buffer has no writes |
| Gif.Canvas.Pixel | badapple.py:107 | `buffer.pixel(x, y, value)` appends that write |
| Gif.ReadHeader | badapple.py:158-167 | `read_header` computes `HeaderSpec`: 13 bytes read on success, and a bad magic fails before anything past the magic is read |
| Gif.ReadExtension | badapple.py:82-87 | `Extension(f)` computes `ExtensionSpec` and leaves the file where it says |
| Gif.Plot | badapple.py:106-109 | byte 0 writes 1 and byte 1 writes 0 under the cursor; other bytes write nothing |
| Gif.PaintedSnoc | badapple.py:105-115 | one more byte is painted where the walk stands, and the walk moves one step |
| Gif.PaintByte | badapple.py:105-115 | one byte is painted and the cursor moves one step of the walk |
| Gif.PaintValue | badapple.py:105-115 | the bytes of one value are painted from where the cursor stands, and the cursor ends where the walk says |
| Gif.Paint | badapple.py:104-115 | the pixel loops append exactly the writes of all values, in order, from the frame's (x, y) |
| Gif.FramePass | badapple.py:101-104 | once descriptor and code size are read, the frame's outcome is that of the LZW pass over the sub-blocks that follow |
| Gif.ReadFrame | badapple.py:90-115 | `Frame(f, ...)` computes `FrameSpec`, leaves the file where it says, and appends exactly the frame's painted writes |
| Gif.DecodeAndPaint | badapple.py:104-115 | one LZW pass over a fresh generator gives `ReadCodes` of its stream, leaves the file where the pass stopped, and paints the values |
| Gif.Load | badapple.py:122-151 | `GIFImage(f)` computes `GifSpec` of the file |
| Gif.BlockLoop | badapple.py:133-151 | the block loop computes `Blocks` from its start, with no delay and an empty buffer |
| Gif.NextBlock | badapple.py:134-151 | one turn of the block loop ends it as `Blocks` says, or moves the file forward leaving the same outcome from the new position, delay and buffer |
| GifFacts.HeaderOfScreen | badapple.py:158-167 | a file starting with either magic and a written screen reads back that screen |
| GifFacts.EmptyImage | badapple.py:122-137 | header, colour table of the declared size (flag set or not) and trailer decode to that screen with no delay and no writes |
| GifFacts.ExtensionOfBlocks | badapple.py:82-87 | an extension written as sub-blocks reads back its type and the concatenated payloads, and ends just after the encoding |
| GifFacts.ExtensionCutShort | badapple.py:82-87 | an extension cut short anywhere after its type byte is Truncated |
| GifFacts.FrameOfBlocks | badapple.py:90-115 | a frame written as a descriptor without local table, a code size byte and sub-blocks reads back that descriptor and code size, and gives the LZW pass over the concatenated payloads: its failure, or its values and stop, ending just after the encoding when the pass runs out of data |
| GifFacts.ExtensionBlock | badapple.py:146-149 | in the block loop a 0xF9 extension adds its second body byte to `delta` (or fails under two bytes); any other extension is skipped |
| GifFacts.PaddingSkipped | badapple.py:138-139 | zero bytes between blocks are skipped |
| GifFacts.FrameLeavesTerminator | badapple.py:74-77 | after the end code the stream's zero terminator is left unread for the block loop; when the end code sits in the last data byte only the terminator is left, and the loop skips it |
| GifFacts.BlocksGrow | badapple.py:134-151 | the block loop only adds: `delta` never falls, the writes so far stay a prefix, and every write added sets 1 or 0 |
| GifFacts.ImageWritesAreBinary | badapple.py:106-109 | every pixel write of a decoded file sets a pixel to 1 or 0 |

## Left out

- Display glue: `thumbyGraphics` (setFPS, fill, blit, update, width and
  height offsets), `framebuf.FrameBuffer` and the module-level script that
  opens the file. These are foreign libraries and I/O. The file is given as
  a byte sequence, and the buffer is the recorded list of `pixel` calls.
- `print('Palette size: ...')` is output only.
- Framebuf clipping of `pixel` calls outside the buffer is library
  behaviour: every call is recorded as made.
- Frame.read_palette / GIFImage.read_palette: the palette class is never
  defined. A frame with the local-palette flag set fails as
  `LocalPaletteUnsupported`, which stands for the source's AttributeError.
  The global table is skipped without being read, as the source does.
- The interlace flag is parsed and not applied, as in the source.
- The reserved bits of the image descriptor and `h` are parsed or ignored
  as in the source and not used.
- `final_code` is never read and is not modelled.
- `time` and `math` are imported and unused.
- The `frames` and `extensions` lists are never filled by the source and
  are not modelled.
- The source paints each value as it is yielded. The model decodes a frame's
  pass first and then paints it. Painting reads no input, so the writes and
  the file position agree. On a failure the source raises out of
  `GIFImage` and discards the buffer, and the model drops the frame's
  writes with the error.
- An empty LZW stream is `EmptyImageData`. The first `next(data)` sits
  outside the `try`, so StopIteration there becomes a RuntimeError
  (PEP 479) in the source.
- The graphic control "delay" is only `e.data[1]`, summed into `delta`, as
  in the source; the 16-bit delay and display timing are not modelled.
- The skip of the global colour table uses `f.read`, which reads short at
  the end of the file; the model reads short the same way and the next
  block byte then fails as Truncated.
