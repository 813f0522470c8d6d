/** `lzw_decode`: codes of `code_len` bits, packed least significant bit
    first across the bytes of a sub-block stream, fed one by one to an
    `LZWDict`. */
module LzwDecode {
  import opened Common
  import opened SubBlocks
  import opened LzwTable

  /** (x >> i) & 1 */
  function BitOf(x: nat, i: nat): (b: nat)
    ensures b <= 1
  {
    if i == 0 then x % 2 else BitOf(x / 2, i - 1)
  }

  /** Bit k of a byte stream: bit k % 8 of byte k / 8. */
  function Bit(s: Bytes, k: nat): (b: nat)
    requires k < 8 * |s|
    ensures b <= 1
  {
    BitOf(s[k / 8], k % 8)
  }

  /** The code made of the w stream bits from bit k on, the first of them
      being the code's lowest bit. */
  function CodeAt(s: Bytes, k: nat, w: nat): nat
    requires k + w <= 8 * |s|
  {
    if w == 0 then 0
    else CodeAt(s, k, w - 1) + (if Bit(s, k + w - 1) == 1 then Pow2(w - 1) else 0)
  }

  /** Why a decoding pass stopped without error: the end code came when
      `pulled` bytes had been taken from the stream, or the stream ended
      (StopIteration). */
  datatype Stop = EndCode(pulled: nat) | Exhausted

  /** The decoding of a stream `s` followed by `tail`: all values produced,
      in order, and why it stopped. */
  function ReadCodes(codeSize: nat, s: Bytes, tail: Tail): (r: Result<(seq<Bytes>, Stop)>)
    ensures r.Success? && r.value.1.EndCode? ==> 1 <= r.value.1.pulled <= |s|
    ensures r.Success? && r.value.1.Exhausted? ==> tail == Terminated
  {
    if |s| == 0 then Failure(if tail == Terminated then EmptyImageData else Truncated)
    else Run(codeSize, s, tail, Reset(codeSize), 0, [])
  }

  /** The rest of a pass once the first k bits are decoded into `acc` and the
      table is `t`. A code whose last bit ends the stream is not decoded: the
      source asks for the next byte as soon as a byte is used up. */
  function Run(codeSize: nat, s: Bytes, tail: Tail, t: Table, k: nat, acc: seq<Bytes>)
    : (r: Result<(seq<Bytes>, Stop)>)
    requires t.codeLen >= 1 && k < 8 * |s|
    ensures r.Success? && r.value.1.EndCode? ==> 1 <= r.value.1.pulled <= |s|
    ensures r.Success? && r.value.1.Exhausted? ==> tail == Terminated
    decreases 8 * |s| - k
  {
    var w := t.codeLen;
    if k + w >= 8 * |s| then
      if tail == Terminated then Success((acc, Exhausted)) else Failure(Truncated)
    else
      var (d, t') := Step(codeSize, t, CodeAt(s, k, w));
      match d
      case EndOfData => Success((acc, EndCode(1 + (k + w) / 8)))
      case BadLiteral(c) => Failure(LiteralOutOfRange(c))
      case Value(v) => Run(codeSize, s, tail, t', k + w, acc + [v])
  }

  /** The same step told by what FeedCode makes of the table's answer `d`: a
      pass that ends here ends with `done`, any other goes on with `acc'`
      from bit `k'`. */
  lemma {:induction false} RunFeed(codeSize: nat, s: Bytes, tail: Tail, t: Table, k: nat, acc: seq<Bytes>,
                d: Decoded, t': Table, pulled': nat, bit': nat,
                done: Option<Result<(seq<Bytes>, Stop)>>, acc': seq<Bytes>, k': nat)
    requires t.codeLen >= 1 && k + t.codeLen < 8 * |s|
    requires Step(codeSize, t, CodeAt(s, k, t.codeLen)) == (d, t')
    requires pulled' >= 1 && bit' < 8 && 8 * (pulled' - 1) + bit' == k + t.codeLen
    requires d.EndOfData? ==> done == Some(Success((acc, EndCode(pulled'))))
    requires d.BadLiteral? ==> done == Some(Failure(LiteralOutOfRange(d.code)))
    requires d.Value? ==> done.None? && acc' == acc + [d.value]
    requires k' == k + t.codeLen
    ensures done.Some? ==>
              && done.value == Run(codeSize, s, tail, t, k, acc)
              && !(done.value.Success? && done.value.value.1.Exhausted?)
              && (done.value.Success? ==> done.value.value.1 == EndCode(pulled'))
    ensures done.None? ==>
              && t'.codeLen >= 1
              && Run(codeSize, s, tail, t, k, acc) == Run(codeSize, s, tail, t', k', acc')
  {
    DivUnique(k + t.codeLen, 8, pulled' - 1, bit');
  }

  /** A pass whose next code does not fit in the stream: it ends there. */
  lemma {:induction false} RunEnd(codeSize: nat, s: Bytes, tail: Tail, t: Table, k: nat, acc: seq<Bytes>)
    requires t.codeLen >= 1 && k < 8 * |s| <= k + t.codeLen
    ensures Run(codeSize, s, tail, t, k, acc)
            == if tail == Terminated then Success((acc, Exhausted)) else Failure(Truncated)
  {
  }

  // ---------------------------------------------------------------------
  // Bit packing.

  /** One more bit of a code: `code |= bit << i`. */
  lemma {:induction false} CodeNext(s: Bytes, k: nat, i: nat, b: nat)
    requires k + i < 8 * |s| && b == Bit(s, k + i)
    ensures CodeAt(s, k, i + 1) == CodeAt(s, k, i) + (if b == 1 then Pow2(i) else 0)
  {
  }

  /** Adding 2^w to a number below 2^w sets bit w and keeps the bits below. */
  lemma {:induction false} TopBit(c: nat, w: nat, i: nat)
    requires c < Pow2(w) && i <= w
    ensures BitOf(c + Pow2(w), i) == if i == w then 1 else BitOf(c, i)
    decreases i
  {
    if w > 0 {
      DivUnique(c + Pow2(w), 2, c / 2 + Pow2(w - 1), c % 2);
      if i > 0 {
        TopBit(c / 2, w - 1, i - 1);
      }
    }
  }

  /** A number below 2^w has no bit at w or above. */
  lemma {:induction false} HighBits(c: nat, w: nat, i: nat)
    requires c < Pow2(w) && i >= w
    ensures BitOf(c, i) == 0
    decreases i
  {
    if i > 0 {
      HighBits(c / 2, if w > 0 then w - 1 else 0, i - 1);
    }
  }

  /** A code of w bits is below 2^w. */
  lemma {:induction false} CodeBound(s: Bytes, k: nat, w: nat)
    requires k + w <= 8 * |s|
    ensures CodeAt(s, k, w) < Pow2(w)
    decreases w
  {
    if w > 0 {
      CodeBound(s, k, w - 1);
    }
  }

  /** Setting bit w of a number below 2^w to b. */
  lemma {:induction false} AddBit(c: nat, b: nat, w: nat, i: nat)
    requires c < Pow2(w) && b <= 1 && i <= w
    ensures BitOf(c + (if b == 1 then Pow2(w) else 0), i) == if i == w then b else BitOf(c, i)
  {
    if b == 1 {
      TopBit(c, w, i);
    } else if i == w {
      HighBits(c, w, i);
    }
  }

  /** Bit i of the code is stream bit k + i, for i below the width. */
  lemma {:induction false} CodeBit(s: Bytes, k: nat, w: nat, i: nat)
    requires k + w <= 8 * |s| && i < w
    ensures BitOf(CodeAt(s, k, w), i) == Bit(s, k + i)
    decreases w
  {
    var c', b := CodeAt(s, k, w - 1), Bit(s, k + w - 1);
    CodeBound(s, k, w - 1);
    AddBit(c', b, w - 1, i);
    assert CodeAt(s, k, w) == c' + (if b == 1 then Pow2(w - 1) else 0);
    if i < w - 1 {
      CodeBit(s, k, w - 1, i);
      assert BitOf(CodeAt(s, k, w), i) == BitOf(c', i);
    } else {
      assert k + i == k + w - 1;
      assert BitOf(CodeAt(s, k, w), i) == b == Bit(s, k + i);
    }
  }

  /** Bit i of the code is stream bit k + i for every i below the width. */
  lemma {:induction false} CodeLowBits(s: Bytes, k: nat, w: nat)
    requires k + w <= 8 * |s|
    ensures forall i :: 0 <= i < w ==> BitOf(CodeAt(s, k, w), i) == Bit(s, k + i)
  {
    forall i | 0 <= i < w
      ensures BitOf(CodeAt(s, k, w), i) == Bit(s, k + i)
    {
      CodeBit(s, k, w, i);
    }
  }

  /** The code is exactly the sum of bit_i << i over its w stream bits: bit
      i of it is stream bit k + i below the width, and it has no bit at the
      width or above. */
  lemma {:induction false} CodeBits(s: Bytes, k: nat, w: nat)
    requires k + w <= 8 * |s|
    ensures CodeAt(s, k, w) < Pow2(w)
    ensures forall i :: 0 <= i < w ==> BitOf(CodeAt(s, k, w), i) == Bit(s, k + i)
    ensures forall i: nat :: i >= w ==> BitOf(CodeAt(s, k, w), i) == 0
  {
    CodeBound(s, k, w);
    CodeLowBits(s, k, w);
    forall i: nat | i >= w
      ensures BitOf(CodeAt(s, k, w), i) == 0
    {
      HighBits(CodeAt(s, k, w), w, i);
    }
  }

  // ---------------------------------------------------------------------
  // The generator `lzw_decode(data, code_size)`, run to its end.

  /** How assembling one code ended: complete, or the stream ran out under it
      (StopIteration) or the file did (IndexError). */
  datatype CodeRead = Complete | StreamEnded | FileEnded

  /** The cursor of `lzw_decode`: the byte last pulled, the next bit of it
      to use and how many bytes have been pulled, standing at stream bit k. */
  ghost predicate At(data: BlockStream, byte: Byte, bit: nat, pulled: nat, k: nat)
    reads data, data.src
  {
    && data.Valid() && data.taken == pulled
    && 1 <= pulled <= |data.origin.bytes| && byte == data.origin.bytes[pulled - 1] && bit < 8
    && data.src.pos == data.origin.ends[pulled - 1]
    && k == 8 * (pulled - 1) + bit
  }

  /** One pass of the bit loop's body: `(byte >> bit) & 1`, then `bit += 1`
      and, once the byte is used up, `byte = next(data)`. */
  method ReadBit(data: BlockStream, byte: Byte, bit: nat, pulled: nat, ghost k: nat)
    returns (status: CodeRead, b: nat, byte': Byte, bit': nat, pulled': nat)
    requires At(data, byte, bit, pulled, k)
    modifies data, data.src
    ensures data.Valid()
    ensures var s := data.origin.bytes;
            && k < 8 * |s| && b == Bit(s, k)
            && (status == Complete <==> k + 1 < 8 * |s|)
            && (status == Complete ==> At(data, byte', bit', pulled', k + 1))
            && (status == StreamEnded <==> status != Complete && data.origin.tail == Terminated)
            && (status == StreamEnded ==> data.src.pos == data.origin.endPos)
  {
    DivUnique(k, 8, pulled - 1, bit);
    b := BitOf(byte, bit);
    status, byte', bit', pulled' := Complete, byte, bit + 1, pulled;
    if bit' >= 8 {
      bit' := 0;
      var next := data.Next();
      match next
      case Got(x) => byte', pulled' := x, pulled + 1;
      case Stopped => status := StreamEnded;
      case Failed => status := FileEnded;
    }
  }

  /** One pass of the inner loop: `code |= ((byte >> bit) & 1) << i`, the
      code holding bits k to k + i - 1 and bit i of it still clear. */
  method TakeBit(data: BlockStream, code: nat, i: nat, byte: Byte, bit: nat, pulled: nat, ghost k: nat)
    returns (status: CodeRead, code': nat, byte': Byte, bit': nat, pulled': nat)
    requires At(data, byte, bit, pulled, k + i)
    requires code == CodeAt(data.origin.bytes, k, i)
    modifies data, data.src
    ensures data.Valid()
    ensures var s := data.origin.bytes;
            && k + i < 8 * |s| && code' == CodeAt(s, k, i + 1)
            && (status == Complete <==> k + i + 1 < 8 * |s|)
            && (status == Complete ==> At(data, byte', bit', pulled', k + i + 1))
            && (status == StreamEnded <==> status != Complete && data.origin.tail == Terminated)
            && (status == StreamEnded ==> data.src.pos == data.origin.endPos)
  {
    var b;
    status, b, byte', bit', pulled' := ReadBit(data, byte, bit, pulled, k + i);
    CodeNext(data.origin.bytes, k, i, b);
    code' := code + (if b == 1 then Pow2(i) else 0);
  }

  /** The inner `for i in range(code_len)` loop: take `width` bits, the lowest
      first, from `byte` at bit `bit` on, pulling the next byte whenever one is
      used up. */
  method ReadCode(data: BlockStream, width: nat, byte: Byte, bit: nat, pulled: nat, ghost k: nat)
    returns (status: CodeRead, code: nat, byte': Byte, bit': nat, pulled': nat)
    requires At(data, byte, bit, pulled, k)
    modifies data, data.src
    ensures data.Valid()
    ensures var s := data.origin.bytes;
            && (status == Complete <==> k + width < 8 * |s|)
            && (status == Complete ==> code == CodeAt(s, k, width) && At(data, byte', bit', pulled', k + width))
            && (status == StreamEnded <==> status != Complete && data.origin.tail == Terminated)
            && (status == StreamEnded ==> data.src.pos == data.origin.endPos)
  {
    code, byte', bit', pulled' := 0, byte, bit, pulled;
    var i := 0;
    while i < width
      invariant 0 <= i <= width
      invariant At(data, byte', bit', pulled', k + i)
      invariant code == CodeAt(data.origin.bytes, k, i)
    {
      status, code, byte', bit', pulled' := TakeBit(data, code, i, byte', bit', pulled', k);
      if status != Complete {
        return;
      }
      i := i + 1;
    }
    status := Complete;
  }

  /** A pass at table t, bit k, values acc has the same outcome as one at
      t', k', acc'. */
  ghost predicate Continues(codeSize: nat, s: Bytes, tail: Tail, t: Table, k: nat, acc: seq<Bytes>,
                            t': Table, k': nat, acc': seq<Bytes>)
  {
    && t.codeLen >= 1 && t'.codeLen >= 1 && k < 8 * |s| && k' < 8 * |s|
    && Run(codeSize, s, tail, t, k, acc) == Run(codeSize, s, tail, t', k', acc')
  }

  /** What one pass of the `while True` loop from table t, bit k and
      values `values` leaves: `done` is the outcome of the whole decoding
      when this pass ends it, with the file standing where that outcome says;
      otherwise the decoding goes on from the cursor (byte', bit', pulled')
      at bit k', table t' and values `values'`. */
  ghost predicate Outcome(data: BlockStream, codeSize: nat, t: Table, k: nat, values: seq<Bytes>,
                          done: Option<Result<(seq<Bytes>, Stop)>>,
                          byte': Byte, bit': nat, pulled': nat, t': Table, k': nat, values': seq<Bytes>)
    reads data, data.src
  {
    var s, tail := data.origin.bytes, data.origin.tail;
    && data.Valid() && t.codeLen >= 1 && k < 8 * |s|
    && (done.Some? ==> done.value == Run(codeSize, s, tail, t, k, values))
    && (done.Some? && done.value.Success? && done.value.value.1.Exhausted? ==>
          data.src.pos == data.origin.endPos)
    && (done.Some? && done.value.Success? && done.value.value.1.EndCode? ==>
          && 1 <= done.value.value.1.pulled <= |data.origin.ends|
          && data.src.pos == data.origin.ends[done.value.value.1.pulled - 1])
    && (done.None? ==>
          && At(data, byte', bit', pulled', k') && k < k'
          && Continues(codeSize, s, tail, t, k, values, t', k', values'))
  }

  /** `value = dictionary.decode(code)` on a complete code, which ends at bit
      `bit'` of byte `pulled' - 1`: the end code or a ValueError ends the
      pass, a value goes on to the next code with it appended. */
  method FeedCode(data: BlockStream, dictionary: LzwDict, code: nat, ghost t: Table, ghost k: nat,
                  values: seq<Bytes>, byte': Byte, bit': nat, pulled': nat)
    returns (done: Option<Result<(seq<Bytes>, Stop)>>, values': seq<Bytes>, ghost k': nat)
    requires dictionary.Valid() && t == dictionary.State() && t.codeLen >= 1
    requires At(data, byte', bit', pulled', k + t.codeLen)
    requires code == CodeAt(data.origin.bytes, k, t.codeLen)
    modifies dictionary
    ensures dictionary.Valid()
    ensures Outcome(data, dictionary.codeSize, t, k, values, done, byte', bit', pulled', dictionary.State(), k', values')
    ensures Inv(dictionary.codeSize, t) ==> Inv(dictionary.codeSize, dictionary.State())
  {
    ghost var s, tail := data.origin.bytes, data.origin.tail;
    k' := k + t.codeLen;
    StepKeeps(dictionary.codeSize, t, code);
    var d := dictionary.Decode(code);
    values' := values;
    match d {
      case EndOfData =>
        done := Some(Success((values, EndCode(pulled'))));
      case BadLiteral(c) =>
        done := Some(Failure(LiteralOutOfRange(c)));
      case Value(v) =>
        values' := values + [v];
        done := None;
    }
    RunFeed(dictionary.codeSize, s, tail, t, k, values, d, dictionary.State(), pulled', bit', done, values', k');
  }

  /** A pass whose code runs past the stream: StopIteration ends the
      decoding quietly when the stream reached its zero size byte, an
      IndexError ends it with an error otherwise. */
  lemma {:induction false} EndOutcome(data: BlockStream, codeSize: nat, t: Table, k: nat, values: seq<Bytes>,
                                      status: CodeRead, byte': Byte, bit': nat, pulled': nat, t': Table)
    requires data.Valid() && t.codeLen >= 1
    requires k < 8 * |data.origin.bytes| <= k + t.codeLen
    requires status != Complete
    requires status == StreamEnded <==> data.origin.tail == Terminated
    requires status == StreamEnded ==> data.src.pos == data.origin.endPos
    ensures Outcome(data, codeSize, t, k, values,
                    Some(if status == StreamEnded then Success((values, Exhausted)) else Failure(Truncated)),
                    byte', bit', pulled', t', k, values)
  {
    RunEnd(codeSize, data.origin.bytes, data.origin.tail, t, k, values);
  }

  /** One pass of the `while True` loop from stream bit k, the table being
      `t`: read a code and feed it to the dictionary. */
  method Round(data: BlockStream, dictionary: LzwDict, byte: Byte, bit: nat, pulled: nat,
               values: seq<Bytes>, ghost t: Table, ghost k: nat)
    returns (done: Option<Result<(seq<Bytes>, Stop)>>, byte': Byte, bit': nat, pulled': nat,
             values': seq<Bytes>, ghost k': nat)
    requires At(data, byte, bit, pulled, k)
    requires dictionary.Valid() && t == dictionary.State() && t.codeLen >= 1
    modifies data, data.src, dictionary
    ensures dictionary.Valid()
    ensures Outcome(data, dictionary.codeSize, t, k, values, done, byte', bit', pulled', dictionary.State(), k', values')
    ensures Inv(dictionary.codeSize, t) ==> Inv(dictionary.codeSize, dictionary.State())
  {
    var status, code;
    status, code, byte', bit', pulled' := ReadCode(data, dictionary.codeLen, byte, bit, pulled, k);
    values', k' := values, k;
    if status != Complete {
      EndOutcome(data, dictionary.codeSize, t, k, values, status, byte', bit', pulled', dictionary.State());
      done := Some(if status == StreamEnded then Success((values, Exhausted)) else Failure(Truncated));
      return;
    }
    done, values', k' := FeedCode(data, dictionary, code, t, k, values, byte', bit', pulled');
  }

  /** Decodes what `data` delivers. On success the file stands just after the
      last byte the pass pulled: after the zero size byte when the stream ran
      out, or after the byte holding the end code's last bit (or the byte after
      it, when the end code ends on a byte boundary). */
  method Decode(data: BlockStream, codeSize: nat) returns (r: Result<(seq<Bytes>, Stop)>)
    requires data.Valid() && data.taken == 0
    modifies data, data.src
    ensures data.Valid()
    ensures r == ReadCodes(codeSize, data.origin.bytes, data.origin.tail)
    ensures r.Success? && r.value.1.Exhausted? ==> data.src.pos == data.origin.endPos
    ensures r.Success? && r.value.1.EndCode? ==>
              data.src.pos == data.origin.ends[r.value.1.pulled - 1]
  {
    ghost var s, tail := data.origin.bytes, data.origin.tail;
    var dictionary := new LzwDict(codeSize);
    var bit := 0;
    var first := data.Next();
    if first.Stopped? {
      return Failure(EmptyImageData);
    } else if first.Failed? {
      return Failure(Truncated);
    }
    var byte := first.b;
    var pulled := 1;   // bytes taken from the stream so far
    var values: seq<Bytes> := [];
    ghost var k := 0;
    ghost var goal := Run(codeSize, s, tail, dictionary.State(), k, values);
    ResetInv(codeSize);
    while true
      invariant At(data, byte, bit, pulled, k) && data.origin.bytes == s && data.origin.tail == tail
      invariant dictionary.Valid() && dictionary.codeSize == codeSize && dictionary.codeLen >= 1
      invariant Inv(codeSize, dictionary.State())
      invariant goal == Run(codeSize, s, tail, dictionary.State(), k, values)
      decreases 8 * |s| - k
    {
      var done;
      done, byte, bit, pulled, values, k := Round(data, dictionary, byte, bit, pulled, values, dictionary.State(), k);
      if done.Some? {
        return done.value;
      }
    }
  }
}
