/** The open file `f` that every part of the decoder reads from: a byte
    sequence and a position that only moves forward. */
module Source {
  import opened Common

  class Reader {
    const data: Bytes
    var pos: nat

    ghost predicate Valid()
      reads this
    {
      pos <= |data|
    }

    constructor (data: Bytes)
      ensures Valid() && this.data == data && pos == 0
    {
      this.data := data;
      pos := 0;
    }

    /** f.read(1)[0]: the next byte, or None where Python raises IndexError. */
    method ReadByte() returns (r: Option<Byte>)
      requires Valid()
      modifies this
      ensures Valid()
      ensures old(pos) < |data| ==> r == Some(data[old(pos)]) && pos == old(pos) + 1
      ensures old(pos) == |data| ==> r == None && pos == old(pos)
    {
      if pos < |data| {
        r := Some(data[pos]);
        pos := pos + 1;
      } else {
        r := None;
      }
    }

    /** f.read(n): up to n bytes, fewer when the file ends first. */
    method Read(n: nat) returns (r: Bytes)
      requires Valid()
      modifies this
      ensures Valid()
      ensures r == data[old(pos)..Min(old(pos) + n, |data|)]
      ensures pos == old(pos) + |r|
    {
      var stop := Min(pos + n, |data|);
      r := data[pos..stop];
      pos := stop;
    }
  }
}
