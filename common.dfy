/** Values shared by every part of the decoder: bytes, the decoder's error
    conditions and the Result type that replaces the source's exceptions. */
module Common {

  /** One octet of the input file. */
  type Byte = b: int | 0 <= b < 256

  type Bytes = seq<Byte>

  datatype Option<T> = None | Some(value: T)

  /** Every way the decoder stops with an exception in the source. */
  datatype Error =
    | NotGif                       // ValueError: magic is neither GIF87a nor GIF89a
    | Truncated                    // IndexError / struct.error: the file ends inside a record
    | BadBlock(blockType: Byte)    // ValueError: unknown top-level block byte
    | LiteralOutOfRange(code: nat) // ValueError from bytes([code]) when code >= 256
    | LocalPaletteUnsupported      // AttributeError: Frame.read_palette uses an undefined palette_class
    | EmptyImageData               // the first next(data) of lzw_decode sits outside its try
    | ShortGraphicControl          // IndexError: e.data[1] on a graphic control block under 2 bytes

  datatype Result<T> = Success(value: T) | Failure(error: Error)

  /** 1 << n */
  function Pow2(n: nat): (r: nat)
    ensures r >= 1
  {
    if n == 0 then 1 else 2 * Pow2(n - 1)
  }

  function Min(a: int, b: int): int {
    if a <= b then a else b
  }

  function Max(a: int, b: int): int {
    if a >= b then a else b
  }

  /** Python's s[0:1]: the first element, or nothing when s is empty. */
  function Take1<T>(s: seq<T>): (r: seq<T>)
    ensures |r| == Min(1, |s|) && r <= s
  {
    if s == [] then [] else s[..1]
  }

  // ---------------------------------------------------------------------
  // Arithmetic facts the bit cursor needs.

  lemma {:induction false} MulAtLeast(z: nat, d: nat)
    requires z >= 1
    ensures z * d >= d
    decreases z
  {
    if z > 1 {
      MulAtLeast(z - 1, d);
      assert z * d == (z - 1) * d + d;
    }
  }

  /** Division is unique: q and r are x / d and x % d. */
  lemma {:induction false} DivUnique(x: int, d: int, q: int, r: int)
    requires d > 0 && 0 <= r < d && x == q * d + r
    ensures x / d == q && x % d == r
  {
    var q', r' := x / d, x % d;
    assert x == q' * d + r';
    assert (q - q') * d == r' - r;
    if q' < q {
      MulAtLeast(q - q', d);
    } else if q' > q {
      MulAtLeast(q' - q, d);
    }
  }
}
