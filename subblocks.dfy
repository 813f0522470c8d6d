/** The Data Sub-blocks format (section 15 of the GIF89a specification) as
    read by `read_blockstream`: a size byte, that many payload bytes, again
    and again until a size byte of 0. */
module SubBlocks {
  import opened Common
  import opened Source

  /** How a sub-block stream ends: at its zero size byte, or because the file
      ran out first (Python raises IndexError inside the generator). */
  datatype Tail = Terminated | Cut

  /** What a `read_blockstream` generator still delivers: its payload bytes in
      order, the file position just after each of them, how it ends and, once
      terminated, the file position just after the zero size byte. */
  datatype Stream = Stream(bytes: Bytes, ends: seq<nat>, tail: Tail, endPos: nat)

  /** The stream of a generator whose file stands at `pos`, with `remaining`
      bytes of the current sub-block still to deliver, or finished (`done`). */
  function View(data: Bytes, pos: nat, remaining: nat, done: bool): (r: Stream)
    requires pos <= |data|
    ensures |r.bytes| == |r.ends|
    ensures pos <= r.endPos <= |data|
    ensures !done && r.tail == Terminated ==> pos < r.endPos
    decreases |data| - pos
  {
    if done then Stream([], [], Terminated, pos)
    else if pos == |data| then Stream([], [], Cut, pos)
    else if remaining > 0 then
      var rest := View(data, pos + 1, remaining - 1, false);
      Stream([data[pos]] + rest.bytes, [pos + 1] + rest.ends, rest.tail, rest.endPos)
    else if data[pos] == 0 then Stream([], [], Terminated, pos + 1)
    else View(data, pos + 1, data[pos], false)
  }

  /** Every position in `ends` lies in (lo, hi]. */
  ghost predicate Within(ends: seq<nat>, lo: nat, hi: nat) {
    forall i :: 0 <= i < |ends| ==> lo < ends[i] <= hi
  }

  /** Every byte delivered lies after the starting position and inside the file. */
  lemma {:induction false} ViewEnds(data: Bytes, pos: nat, remaining: nat, done: bool)
    requires pos <= |data|
    ensures Within(View(data, pos, remaining, done).ends, pos, |data|)
    decreases |data| - pos
  {
    if !done && pos < |data| {
      if remaining > 0 {
        ViewEnds(data, pos + 1, remaining - 1, false);
        var r, rest := View(data, pos, remaining, done), View(data, pos + 1, remaining - 1, false);
        assert r.ends == [pos + 1] + rest.ends;
        assert forall i :: 0 <= i < |rest.ends| ==> r.ends[i + 1] == rest.ends[i];
      } else if data[pos] != 0 {
        ViewEnds(data, pos + 1, data[pos], false);
      }
    }
  }

  /** A stream that reaches its zero size byte: the byte just before endPos
      is that zero, every payload byte lies before it, and the last payload
      byte sits just before it. */
  lemma {:induction false} ViewTerminated(data: Bytes, pos: nat, remaining: nat, done: bool)
    requires pos <= |data|
    ensures var r := View(data, pos, remaining, done);
            r.tail == Terminated && !done ==>
              && pos < r.endPos && data[r.endPos - 1] == 0
              && Within(r.ends, pos, r.endPos - 1)
              && (remaining > 0 ==> |r.ends| > 0)
              && (|r.ends| == 0 ==> r.endPos == pos + 1)
              && (|r.ends| > 0 ==> r.ends[|r.ends| - 1] == r.endPos - 1)
  {
    TerminatedShape(data, pos, remaining, done);
    TerminatedWithin(data, pos, remaining, done);
  }

  lemma {:induction false} TerminatedShape(data: Bytes, pos: nat, remaining: nat, done: bool)
    requires pos <= |data|
    ensures var r := View(data, pos, remaining, done);
            r.tail == Terminated && !done ==>
              && data[r.endPos - 1] == 0
              && (remaining > 0 ==> |r.ends| > 0)
              && (|r.ends| == 0 ==> r.endPos == pos + 1)
              && (|r.ends| > 0 ==> r.ends[|r.ends| - 1] == r.endPos - 1)
    decreases |data| - pos
  {
    if !done && pos < |data| {
      if remaining > 0 {
        TerminatedShape(data, pos + 1, remaining - 1, false);
        var r, rest := View(data, pos, remaining, done), View(data, pos + 1, remaining - 1, false);
        assert r.ends == [pos + 1] + rest.ends;
        if |rest.ends| > 0 {
          assert r.ends[|r.ends| - 1] == rest.ends[|rest.ends| - 1];
        }
      } else if data[pos] != 0 {
        TerminatedShape(data, pos + 1, data[pos], false);
      }
    }
  }

  lemma {:induction false} TerminatedWithin(data: Bytes, pos: nat, remaining: nat, done: bool)
    requires pos <= |data|
    ensures var r := View(data, pos, remaining, done);
            r.tail == Terminated && !done ==> Within(r.ends, pos, r.endPos - 1)
    decreases |data| - pos
  {
    if !done && pos < |data| {
      if remaining > 0 {
        TerminatedWithin(data, pos + 1, remaining - 1, false);
        var r, rest := View(data, pos, remaining, done), View(data, pos + 1, remaining - 1, false);
        assert r.ends == [pos + 1] + rest.ends;
        assert forall i :: 0 <= i < |rest.ends| ==> r.ends[i + 1] == rest.ends[i];
      } else if data[pos] != 0 {
        TerminatedWithin(data, pos + 1, data[pos], false);
      }
    }
  }

  /** The stream a fresh `read_blockstream(f)` delivers when the file is at `pos`. */
  function Flatten(data: Bytes, pos: nat): Stream
    requires pos <= |data|
  {
    View(data, pos, 0, false)
  }

  /** The stream after the first `k` bytes have been pulled. */
  function Drop(st: Stream, k: nat): Stream
    requires k <= |st.bytes| && k <= |st.ends|
  {
    Stream(st.bytes[k..], st.ends[k..], st.tail, st.endPos)
  }

  /** When what is left after `k` bytes starts with byte x ending at e, the
      next byte is x and dropping it leaves the rest. */
  lemma {:induction false} DropOne(st: Stream, k: nat, x: Byte, e: nat, rest: Stream)
    requires k <= |st.bytes| && k <= |st.ends|
    requires Drop(st, k) == Stream([x] + rest.bytes, [e] + rest.ends, rest.tail, rest.endPos)
    ensures k < |st.bytes| && k < |st.ends| && st.bytes[k] == x && st.ends[k] == e
    ensures Drop(st, k + 1) == rest
  {
    assert st.bytes[k..][0] == x && st.ends[k..][0] == e;
    assert st.bytes[k + 1..] == st.bytes[k..][1..];
    assert st.ends[k + 1..] == st.ends[k..][1..];
  }

  // ---------------------------------------------------------------------
  // The writer's side of the format, used to state what the reader does.

  /** Every sub-block holds 1 to 255 bytes. */
  ghost predicate ValidBlocks(blocks: seq<Bytes>) {
    blocks == [] || (1 <= |blocks[0]| <= 255 && ValidBlocks(blocks[1..]))
  }

  /** Each payload behind its size byte, then the zero terminator. */
  function Encode(blocks: seq<Bytes>): Bytes
    requires ValidBlocks(blocks)
  {
    if blocks == [] then [0]
    else [|blocks[0]| as Byte] + blocks[0] + Encode(blocks[1..])
  }

  function Concat(blocks: seq<Bytes>): Bytes {
    if blocks == [] then [] else blocks[0] + Concat(blocks[1..])
  }

  function TotalSize(blocks: seq<Bytes>): nat {
    if blocks == [] then 0 else |blocks[0]| + TotalSize(blocks[1..])
  }

  /** Inside a sub-block whose remaining bytes are all in the file, the
      generator delivers them and then goes on with the next size byte. */
  lemma {:induction false} PayloadView(data: Bytes, pos: nat, payload: Bytes)
    requires |payload| > 0 && pos + |payload| <= |data|
    requires data[pos..pos + |payload|] == payload
    ensures var v := View(data, pos, |payload|, false);
            var w := View(data, pos + |payload|, 0, false);
            v.bytes == payload + w.bytes && v.tail == w.tail && v.endPos == w.endPos
    decreases |payload|
  {
    if |payload| > 1 {
      assert data[pos + 1..pos + |payload|] == payload[1..];
      PayloadView(data, pos + 1, payload[1..]);
    }
  }

  /** A whole sub-block in the file: its payload, then whatever follows. */
  lemma {:induction false} SubBlockView(data: Bytes, pos: nat, payload: Bytes)
    requires 1 <= |payload| <= 255 && pos + 1 + |payload| <= |data|
    requires data[pos] == |payload| && data[pos + 1..pos + 1 + |payload|] == payload
    ensures var v := Flatten(data, pos);
            var w := Flatten(data, pos + 1 + |payload|);
            v.bytes == payload + w.bytes && v.tail == w.tail && v.endPos == w.endPos
  {
    PayloadView(data, pos + 1, payload);
  }

  /** Inside a sub-block that the file cuts short, the generator delivers what
      is there and then fails. */
  lemma {:induction false} PayloadCut(data: Bytes, pos: nat, remaining: nat)
    requires pos <= |data| < pos + remaining
    ensures var v := View(data, pos, remaining, false);
            v.bytes == data[pos..] && v.tail == Cut
    decreases |data| - pos
  {
    if pos < |data| {
      PayloadCut(data, pos + 1, remaining - 1);
    }
  }

  /** A file holding x, b, rest whole from `pos` on. */
  lemma {:induction false} WholeParts(data: Bytes, pos: nat, x: Byte, b: Bytes, rest: Bytes)
    requires pos + 1 + |b| + |rest| <= |data|
    requires data[pos..pos + 1 + |b| + |rest|] == [x] + b + rest
    ensures data[pos] == x && data[pos + 1..pos + 1 + |b|] == b
    ensures data[pos + 1 + |b|..pos + 1 + |b| + |rest|] == rest
  {
    var e, n := [x] + b + rest, 1 + |b| + |rest|;
    assert forall i :: pos <= i < pos + n ==> data[i] == data[pos..pos + n][i - pos] == e[i - pos];
    assert forall i :: 0 <= i < |b| ==> e[1 + i] == b[i];
    assert forall i :: 0 <= i < |rest| ==> e[1 + |b| + i] == rest[i];
  }

  /** Reading an encoded stream yields exactly the concatenated payloads and
      consumes exactly the encoding: the sizes, one size byte per sub-block
      and the terminator. */
  lemma {:induction false} FlattenEncode(data: Bytes, pos: nat, blocks: seq<Bytes>)
    requires ValidBlocks(blocks)
    requires pos + |Encode(blocks)| <= |data|
    requires data[pos..pos + |Encode(blocks)|] == Encode(blocks)
    ensures Flatten(data, pos).bytes == Concat(blocks)
    ensures Flatten(data, pos).tail == Terminated
    ensures Flatten(data, pos).endPos == pos + |Encode(blocks)|
    ensures |Encode(blocks)| == TotalSize(blocks) + |blocks| + 1
    decreases |blocks|
  {
    if blocks == [] {
      assert data[pos] == Encode(blocks)[0];
    } else {
      var b, rest := blocks[0], Encode(blocks[1..]);
      assert Encode(blocks) == [|b| as Byte] + b + rest;
      WholeParts(data, pos, |b| as Byte, b, rest);
      SubBlockView(data, pos, b);
      FlattenEncode(data, pos + 1 + |b|, blocks[1..]);
    }
  }

  /** A file that ends inside the first sub-block, or just after its size
      byte: the reader delivers what is there of the payload and fails. */
  lemma {:induction false} CutInBlock(data: Bytes, pos: nat, blocks: seq<Bytes>)
    requires ValidBlocks(blocks) && blocks != []
    requires pos < |data| < pos + 1 + |blocks[0]|
    requires data[pos..] == Encode(blocks)[..|data| - pos]
    ensures Flatten(data, pos).tail == Cut
    ensures Flatten(data, pos).bytes <= Concat(blocks)
  {
    var e, b := Encode(blocks), blocks[0];
    assert e == [|b| as Byte] + b + Encode(blocks[1..]);
    var n := |data| - pos - 1;
    forall i | 0 <= i < n
      ensures data[pos + 1 + i] == b[i]
    {
      assert data[pos + 1 + i] == data[pos..][1 + i] == e[1 + i];
    }
    assert data[pos + 1..] == b[..n];
    PayloadCut(data, pos + 1, |b|);
  }

  /** A file holding a prefix of x, b, rest that reaches past b. */
  lemma {:induction false} PrefixParts(data: Bytes, pos: nat, x: Byte, b: Bytes, rest: Bytes)
    requires pos + 1 + |b| <= |data| <= pos + 1 + |b| + |rest|
    requires data[pos..] == ([x] + b + rest)[..|data| - pos]
    ensures data[pos] == x && data[pos + 1..pos + 1 + |b|] == b
    ensures data[pos + 1 + |b|..] == rest[..|data| - pos - 1 - |b|]
  {
    var e := [x] + b + rest;
    assert forall i :: pos <= i < |data| ==> data[i] == data[pos..][i - pos] == e[i - pos];
    assert forall i :: 0 <= i < |b| ==> e[1 + i] == b[i];
    assert forall i :: 0 <= i < |data| - pos - 1 - |b| ==> e[1 + |b| + i] == rest[i];
  }

  /** Where the first sub-block of an encoding sits in a file that holds it
      whole, and what of the encoding follows it. */
  lemma {:induction false} FirstBlock(data: Bytes, pos: nat, blocks: seq<Bytes>)
    requires ValidBlocks(blocks) && blocks != []
    requires pos + 1 + |blocks[0]| <= |data| < pos + |Encode(blocks)|
    requires data[pos..] == Encode(blocks)[..|data| - pos]
    ensures var b, next := blocks[0], pos + 1 + |blocks[0]|;
            && data[pos] == |b| && data[pos + 1..next] == b
            && data[next..] == Encode(blocks[1..])[..|data| - next]
  {
    var b, rest := blocks[0], Encode(blocks[1..]);
    assert Encode(blocks) == [|b| as Byte] + b + rest;
    PrefixParts(data, pos, |b| as Byte, b, rest);
  }

  /** A file that ends anywhere inside an encoded stream makes the reader fail,
      after delivering only a prefix of the payloads. */
  lemma {:induction false} FlattenTruncated(data: Bytes, pos: nat, blocks: seq<Bytes>)
    requires ValidBlocks(blocks)
    requires pos <= |data| < pos + |Encode(blocks)|
    requires data[pos..] == Encode(blocks)[..|data| - pos]
    ensures Flatten(data, pos).tail == Cut
    ensures Flatten(data, pos).bytes <= Concat(blocks)
    decreases |blocks|
  {
    if pos < |data| {
      assert data[pos] == Encode(blocks)[0];
      assert blocks != [];
      var b := blocks[0];
      if |data| < pos + 1 + |b| {
        CutInBlock(data, pos, blocks);
      } else {
        assert ValidBlocks(blocks[1..]);
        FirstBlock(data, pos, blocks);
        SubBlockView(data, pos, b);
        var next := pos + 1 + |b|;
        FlattenTruncated(data, next, blocks[1..]);
        var x, y := Flatten(data, next).bytes, Concat(blocks[1..]);
        assert Concat(blocks) == b + y;
        assert (b + x) == (b + y)[..|b + x|];
      }
    }
  }

  // ---------------------------------------------------------------------
  // The generator object.

  /** What one next() on the generator gives: a byte, StopIteration, or the
      IndexError of a size or payload read past the end of the file. */
  datatype Pull = Got(b: Byte) | Stopped | Failed

  /** A suspended `read_blockstream(f)` generator. `origin` is everything it
      delivers over its life and `taken` how much of that it has delivered. */
  class BlockStream {
    const src: Reader
    ghost const origin: Stream
    var remaining: nat   // bytes of the current sub-block not yet delivered
    var done: bool       // the zero size byte has been read
    ghost var taken: nat

    ghost predicate Valid()
      reads this, src
    {
      && src.Valid()
      && |origin.bytes| == |origin.ends|
      && taken <= |origin.bytes|
      && View(src.data, src.pos, remaining, done) == Drop(origin, taken)
    }

    constructor (src: Reader)
      requires src.Valid()
      ensures this.src == src && Valid()
      ensures origin == Flatten(src.data, src.pos) && taken == 0
    {
      this.src := src;
      remaining := 0;
      done := false;
      origin := Flatten(src.data, src.pos);
      taken := 0;
    }

    /** next(): resume the generator until it yields, returns or fails. */
    method Next() returns (r: Pull)
      requires Valid()
      modifies this, src
      ensures Valid()
      ensures old(taken) < |origin.bytes| ==>
                && r == Got(origin.bytes[old(taken)])
                && taken == old(taken) + 1
                && src.pos == origin.ends[old(taken)]
      ensures old(taken) == |origin.bytes| && origin.tail == Terminated ==>
                r == Stopped && taken == old(taken) && src.pos == origin.endPos
      ensures old(taken) == |origin.bytes| && origin.tail == Cut ==> r == Failed
    {
      ghost var before := View(src.data, src.pos, remaining, done);
      if done {
        return Stopped;
      }
      if remaining == 0 {
        var size := src.ReadByte();
        if size.None? {
          return Failed;
        }
        if size.value == 0 {
          done := true;
          return Stopped;
        }
        remaining := size.value;
        assert before == View(src.data, src.pos, remaining, false);
      }
      var b := src.ReadByte();
      if b.None? {
        return Failed;
      }
      remaining := remaining - 1;
      DropOne(origin, taken, b.value, src.pos, View(src.data, src.pos, remaining, done));
      taken := taken + 1;
      r := Got(b.value);
    }

    /** bytes(read_blockstream(f)): drain the generator. */
    method ReadAll() returns (r: Result<Bytes>)
      requires Valid() && taken == 0
      modifies this, src
      ensures Valid()
      ensures origin.tail == Terminated ==> r == Success(origin.bytes) && src.pos == origin.endPos
      ensures origin.tail == Cut ==> r == Failure(Truncated)
    {
      var acc: Bytes := [];
      while true
        invariant Valid() && acc == origin.bytes[..taken]
        decreases |origin.bytes| - taken
      {
        var p := Next();
        match p
        case Got(b) =>
          acc := acc + [b];
        case Stopped =>
          assert origin.bytes[..taken] == origin.bytes;
          return Success(acc);
        case Failed =>
          return Failure(Truncated);
      }
    }
  }
}
