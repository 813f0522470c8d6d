/** The adaptive LZW code table of Appendix F of the GIF89a specification,
    as `LZWDict` keeps it: the entries created so far, the value of the
    previous code and the current code width. */
module LzwTable {
  import opened Common

  /** The width at which `code_len` stops growing. */
  const MAX_CODE_LEN := 12

  /** The mutable part of an `LZWDict`: `codes`, `last` and `code_len`. */
  datatype Table = Table(codes: seq<Bytes>, last: Bytes, codeLen: nat)

  /** What one `decode(code)` gives: the code's value, the end-of-data signal
      (EndOfData), or the ValueError of `bytes([code])` for a literal over 255. */
  datatype Decoded = Value(value: Bytes) | EndOfData | BadLiteral(code: nat)

  function ClearCode(codeSize: nat): nat {
    Pow2(codeSize)
  }

  function EndCode(codeSize: nat): nat {
    ClearCode(codeSize) + 1
  }

  /** The table right after construction or a clear. */
  function Reset(codeSize: nat): Table {
    Table([], [], codeSize + 1)
  }

  /** The value a code that is neither the clear nor the end code stands for. */
  function Lookup(codeSize: nat, t: Table, code: nat): Decoded
    requires code != ClearCode(codeSize) && code != EndCode(codeSize)
  {
    if code < ClearCode(codeSize) then
      if code < 256 then Value([code as Byte]) else BadLiteral(code)
    else if code <= |t.codes| + EndCode(codeSize) then
      Value(t.codes[code - EndCode(codeSize) - 1])
    else
      Value(t.last + Take1(t.last))
  }

  /** Whether the width grows once the table holds `entries` entries. */
  predicate Grows(codeSize: nat, entries: nat, codeLen: nat) {
    entries + EndCode(codeSize) + 1 >= Pow2(codeLen) && codeLen < MAX_CODE_LEN
  }

  /** One `decode(code)`: the result and the table afterwards. */
  function Step(codeSize: nat, t: Table, code: nat): (r: (Decoded, Table))
    ensures t.codeLen <= r.1.codeLen || r.1 == Reset(codeSize)
  {
    if code == ClearCode(codeSize) then (Value([]), Reset(codeSize))
    else if code == EndCode(codeSize) then (EndOfData, Reset(codeSize))
    else match Lookup(codeSize, t, code)
      case Value(v) => (Value(v), Extend(codeSize, t, v))
      case other => (other, t)
  }

  /** The table after a code whose value is `v`: the new entry, the width
      check, and `v` remembered as `last`. */
  function Extend(codeSize: nat, t: Table, v: Bytes): Table {
    var codes := if t.last != [] then t.codes + [t.last + Take1(v)] else t.codes;
    var codeLen := if Grows(codeSize, |codes|, t.codeLen) then t.codeLen + 1 else t.codeLen;
    Table(codes, v, codeLen)
  }

  // ---------------------------------------------------------------------
  // What one step does.

  /** The clear code resets the table and yields the empty value; the end code
      resets it the same way and signals end of data. */
  lemma {:induction false} ControlCodes(codeSize: nat, t: Table)
    ensures Step(codeSize, t, ClearCode(codeSize)) == (Value([]), Table([], [], codeSize + 1))
    ensures Step(codeSize, t, EndCode(codeSize)) == (EndOfData, Table([], [], codeSize + 1))
  {
  }

  /** A code below the clear code stands for itself as one byte (a ValueError
      when that is no byte), whatever the table holds. */
  lemma {:induction false} Literal(codeSize: nat, t: Table, code: nat)
    requires code < ClearCode(codeSize)
    ensures code < 256 ==> Step(codeSize, t, code).0 == Value([code as Byte])
    ensures code >= 256 ==> Step(codeSize, t, code) == (BadLiteral(code), t)
  {
  }

  /** A code naming an existing entry yields that entry; any larger code
      yields the previous value followed by its own first byte. */
  lemma {:induction false} TableCodes(codeSize: nat, t: Table, code: nat)
    requires code > EndCode(codeSize)
    ensures code <= |t.codes| + EndCode(codeSize) ==>
              Step(codeSize, t, code).0 == Value(t.codes[code - EndCode(codeSize) - 1])
    ensures code > |t.codes| + EndCode(codeSize) ==>
              Step(codeSize, t, code).0 == Value(t.last + Take1(t.last))
  {
  }

  /** A code that yields a value appends `last + value[0:1]` exactly when the
      previous value was not empty, leaves the older entries alone, moves the
      width up by at most one, exactly when the grown table reaches 2^width
      below the cap, and remembers the value as `last`. */
  lemma {:induction false} ValueStep(codeSize: nat, t: Table, code: nat)
    requires Step(codeSize, t, code).0.Value?
    requires code != ClearCode(codeSize)
    ensures var (d, t') := Step(codeSize, t, code);
            && t'.last == d.value
            && (t.last != [] ==> t'.codes == t.codes + [t.last + Take1(d.value)])
            && (t.last == [] ==> t'.codes == t.codes)
            && (t'.codeLen == t.codeLen + 1 <==> Grows(codeSize, |t'.codes|, t.codeLen))
            && (!Grows(codeSize, |t'.codes|, t.codeLen) ==> t'.codeLen == t.codeLen)
  {
  }

  // ---------------------------------------------------------------------
  // What every table a decoding pass reaches satisfies.

  /** Every entry is a known string (one byte, or an earlier entry) extended by
      one byte. */
  ghost predicate PrefixClosed(codes: seq<Bytes>) {
    forall i :: 0 <= i < |codes| ==>
      && |codes[i]| >= 2
      && (|codes[i]| == 2 || exists j :: 0 <= j < i && codes[j] == codes[i][..|codes[i]| - 1])
  }

  /** The table invariant:
      - the width lies between its start, `code_size + 1`, and the cap of 12
        (a start above the cap never grows);
      - below the cap, the next entry's code still fits in the width (except
        in the reset table of a code size under 2, which grows on the first
        value);
      - entries exist only once a value has been seen;
      - the table is prefix-closed and `last` is one byte or an entry. */
  ghost predicate Inv(codeSize: nat, t: Table) {
    WidthInv(codeSize, t) && ShapeInv(t)
  }

  ghost predicate WidthInv(codeSize: nat, t: Table) {
    && codeSize + 1 <= t.codeLen <= Max(MAX_CODE_LEN, codeSize + 1)
    && (t.codeLen < MAX_CODE_LEN ==>
          |t.codes| + EndCode(codeSize) + 1 < Pow2(t.codeLen) || t == Reset(codeSize))
  }

  ghost predicate ShapeInv(t: Table) {
    && (t.last == [] ==> t.codes == [])
    && PrefixClosed(t.codes)
    && (|t.last| <= 1 || t.last in t.codes)
  }

  lemma {:induction false} ResetInv(codeSize: nat)
    ensures Inv(codeSize, Reset(codeSize))
  {
  }

  lemma {:induction false} Pow2Grows(n: nat)
    ensures Pow2(n + 1) == 2 * Pow2(n)
  {
  }

  /** A value is empty only right after a reset, and is one byte, an entry, or
      `last` extended by its first byte. */
  lemma {:induction false} LookupShape(codeSize: nat, t: Table, code: nat)
    requires Inv(codeSize, t)
    requires code != ClearCode(codeSize) && code != EndCode(codeSize)
    requires Lookup(codeSize, t, code).Value?
    ensures var v := Lookup(codeSize, t, code).value;
            && (|v| >= 1 || t.last == [])
            && (|v| <= 1 || v in t.codes || v == t.last + Take1(t.last))
  {
    if code > EndCode(codeSize) && code <= |t.codes| + EndCode(codeSize) {
      assert |t.codes[code - EndCode(codeSize) - 1]| >= 2;
    }
  }

  lemma {:induction false} ExtendWidth(codeSize: nat, t: Table, v: Bytes)
    requires WidthInv(codeSize, t)
    ensures WidthInv(codeSize, Extend(codeSize, t, v))
  {
    var t' := Extend(codeSize, t, v);
    var L, n := t.codeLen, |t'.codes|;
    assert n <= |t.codes| + 1;
    if Grows(codeSize, n, L) {
      Pow2Grows(L);
      if t == Reset(codeSize) {
        Pow2Grows(codeSize);
        Pow2Grows(codeSize + 1);
        assert n == 0;
      }
      assert n + EndCode(codeSize) + 1 < Pow2(L + 1);
    }
  }

  lemma {:induction false} ExtendEntries(codeSize: nat, t: Table, v: Bytes)
    requires Inv(codeSize, t)
    requires |v| >= 1 || t.last == []
    ensures PrefixClosed(Extend(codeSize, t, v).codes)
  {
    var t' := Extend(codeSize, t, v);
    if t.last != [] {
      var e := t.last + Take1(v);
      assert t'.codes == t.codes + [e];
      assert e[..|e| - 1] == t.last;
      forall i | 0 <= i < |t'.codes|
        ensures |t'.codes[i]| >= 2
        ensures |t'.codes[i]| == 2 ||
                exists j :: 0 <= j < i && t'.codes[j] == t'.codes[i][..|t'.codes[i]| - 1]
      {
        if i < |t.codes| {
          assert t'.codes[i] == t.codes[i];
          if |t.codes[i]| != 2 {
            var j :| 0 <= j < i && t.codes[j] == t.codes[i][..|t.codes[i]| - 1];
            assert t'.codes[j] == t.codes[j];
          }
        } else {
          assert t'.codes[i] == e;
          if |e| != 2 {
            assert t.last in t.codes;
            var j :| 0 <= j < |t.codes| && t.codes[j] == t.last;
            assert t'.codes[j] == t.codes[j];
          }
        }
      }
    }
  }

  lemma {:induction false} ExtendLast(codeSize: nat, t: Table, v: Bytes)
    requires Inv(codeSize, t)
    requires |v| >= 1 || t.last == []
    requires |v| <= 1 || v in t.codes || v == t.last + Take1(t.last)
    ensures var t' := Extend(codeSize, t, v);
            (t'.last == [] ==> t'.codes == []) && (|t'.last| <= 1 || t'.last in t'.codes)
  {
    var t' := Extend(codeSize, t, v);
    if |v| > 1 && v !in t.codes {
      assert t.last != [];
      assert Take1(v) == Take1(t.last);
      assert t'.codes[|t.codes|] == v;
    }
  }

  /** Every step keeps the invariant. */
  lemma {:induction false} StepInv(codeSize: nat, t: Table, code: nat)
    requires Inv(codeSize, t)
    ensures Inv(codeSize, Step(codeSize, t, code).1)
  {
    if code != ClearCode(codeSize) && code != EndCode(codeSize) && Lookup(codeSize, t, code).Value? {
      var v := Lookup(codeSize, t, code).value;
      LookupShape(codeSize, t, code);
      ExtendWidth(codeSize, t, v);
      ExtendEntries(codeSize, t, v);
      ExtendLast(codeSize, t, v);
    }
  }

  /** StepInv as an implication, for callers that do not know the invariant. */
  lemma {:induction false} StepKeeps(codeSize: nat, t: Table, code: nat)
    ensures Inv(codeSize, t) ==> Inv(codeSize, Step(codeSize, t, code).1)
  {
    if Inv(codeSize, t) {
      StepInv(codeSize, t, code);
    }
  }

  /** A decoding pass: the table after feeding it `codes` one by one
      (stopping at the end code, or at a ValueError). */
  function Feed(codeSize: nat, t: Table, codes: seq<nat>): Table
    decreases |codes|
  {
    if codes == [] then t
    else
      var (d, t') := Step(codeSize, t, codes[0]);
      if d.Value? then Feed(codeSize, t', codes[1..]) else t'
  }

  /** However many codes arrive, the width never exceeds 12 (when it starts at
      or below 12), never drops below its start, and the table stays
      consistent. */
  lemma {:induction false} FeedInv(codeSize: nat, codes: seq<nat>)
    ensures Inv(codeSize, Feed(codeSize, Reset(codeSize), codes))
    ensures var t := Feed(codeSize, Reset(codeSize), codes);
            codeSize + 1 <= t.codeLen <= Max(MAX_CODE_LEN, codeSize + 1)
  {
    ResetInv(codeSize);
    FeedFrom(codeSize, Reset(codeSize), codes);
  }

  lemma {:induction false} FeedFrom(codeSize: nat, t: Table, codes: seq<nat>)
    requires Inv(codeSize, t)
    ensures Inv(codeSize, Feed(codeSize, t, codes))
    decreases |codes|
  {
    if codes != [] {
      StepInv(codeSize, t, codes[0]);
      var (d, t') := Step(codeSize, t, codes[0]);
      if d.Value? {
        FeedFrom(codeSize, t', codes[1..]);
      }
    }
  }

  /** The imperative `LZWDict`. `final_code` is never read and is left out. */
  class LzwDict {
    const codeSize: nat
    const clearCode: nat
    const endCode: nat
    var codes: seq<Bytes>
    var last: Bytes
    var codeLen: nat

    ghost predicate Valid()
      reads this
    {
      clearCode == ClearCode(codeSize) && endCode == EndCode(codeSize)
    }

    /** The table this object holds. */
    function State(): Table
      reads this
    {
      Table(codes, last, codeLen)
    }

    constructor (codeSize: nat)
      ensures Valid() && this.codeSize == codeSize
      ensures State() == Reset(codeSize)
    {
      this.codeSize := codeSize;
      clearCode := Pow2(codeSize);
      endCode := Pow2(codeSize) + 1;
      last := [];
      codeLen := codeSize + 1;
      codes := [];
    }

    method Clear()
      requires Valid()
      modifies this
      ensures Valid() && State() == Reset(codeSize)
    {
      last := [];
      codeLen := codeSize + 1;
      codes := [];
    }

    method Decode(code: nat) returns (r: Decoded)
      requires Valid()
      modifies this
      ensures Valid() && (r, State()) == Step(codeSize, old(State()), code)
    {
      if code == clearCode {
        Clear();
        return Value([]);
      } else if code == endCode {
        Clear();
        return EndOfData;
      }
      var value: Bytes;
      if code < clearCode {
        if code >= 256 {
          return BadLiteral(code);
        }
        value := [code as Byte];
      } else if code <= |codes| + endCode {
        value := codes[code - endCode - 1];
      } else {
        value := last + Take1(last);
      }
      if last != [] {
        codes := codes + [last + Take1(value)];
      }
      if |codes| + endCode + 1 >= Pow2(codeLen) && codeLen < MAX_CODE_LEN {
        codeLen := codeLen + 1;
      }
      last := value;
      return Value(value);
    }
  }
}
