/**
 * Fixed-width big-endian integers, as the token codec uses them through Go's
 * encoding/binary package. Bytes and 32-bit words are bounded integers; the
 * 16-bit flag word is a bit-vector so that the bit helpers can use `|` and `&`
 * exactly as the source does.
 */
module Binary {
  type byte = x: int | 0 <= x < 0x100
  type u32 = x: int | 0 <= x < 0x1_0000_0000

  /** binary.BigEndian.Uint32(b[i:i+4]) */
  function Uint32(b: seq<byte>, i: nat): (x: u32)
    requires i + 4 <= |b|
    ensures x % 0x100 == b[i + 3] && x / 0x100 % 0x100 == b[i + 2]
    ensures x / 0x100 / 0x100 % 0x100 == b[i + 1] && x / 0x100 / 0x100 / 0x100 == b[i]
  {
    var b0, b1, b2, b3 := b[i] as int, b[i + 1] as int, b[i + 2] as int, b[i + 3] as int;
    DivMod(b0 * 0x1_0000 + b1 * 0x100 + b2, b3);
    DivMod(b0 * 0x100 + b1, b2);
    DivMod(b0, b1);
    ((b0 * 0x100 + b1) * 0x100 + b2) * 0x100 + b3
  }

  /** binary.BigEndian.PutUint32 / AppendUint32: four bytes, most significant first. */
  function PutUint32(x: u32): (b: seq<byte>)
    ensures |b| == 4 && Uint32(b, 0) == x
  {
    var q1 := x / 0x100;
    var q2 := q1 / 0x100;
    [q2 / 0x100, q2 % 0x100, q1 % 0x100, x % 0x100]
  }

  /** Reading four bytes and writing them back gives the same four bytes. */
  lemma PutUint32Of(b: seq<byte>, i: nat)
    requires i + 4 <= |b|
    ensures PutUint32(Uint32(b, i)) == b[i..i + 4]
  {
    var b0, b1, b2, b3 := b[i] as int, b[i + 1] as int, b[i + 2] as int, b[i + 3] as int;
    DivMod(b0 * 0x1_0000 + b1 * 0x100 + b2, b3);
    DivMod(b0 * 0x100 + b1, b2);
    DivMod(b0, b1);
  }

  /** Dividing `q * 256 + r` by 256 when `r` is a byte already. */
  lemma DivMod(q: int, r: int)
    requires 0 <= r < 0x100
    ensures (q * 0x100 + r) / 0x100 == q && (q * 0x100 + r) % 0x100 == r
  {
  }

  /** binary.BigEndian.Uint16(b[i:i+2]) */
  function Uint16(b: seq<byte>, i: nat): (x: bv16)
    requires i + 2 <= |b|
    ensures x >> 8 == b[i] as bv16 && x & 0xFF == b[i + 1] as bv16
  {
    ((b[i] as bv16) << 8) | (b[i + 1] as bv16)
  }

  /** binary.BigEndian.AppendUint16: high byte first. */
  function PutUint16(x: bv16): (b: seq<byte>)
    ensures |b| == 2
  {
    [(x >> 8) as int, (x & 0xFF) as int]
  }

  /** The top bit of a big-endian 16-bit word is the top bit of its first byte. */
  lemma Uint16TopBit(b: seq<byte>, i: nat)
    requires i + 2 <= |b|
    ensures (Uint16(b, i) & 0x8000 == 0x8000) <==> b[i] >= 0x80
  {
  }

  /** Go's uint32(x) conversion of an int64: keep the low 32 bits (two's complement). */
  function Truncate32(x: int): (r: u32)
    ensures (r - x) % 0x1_0000_0000 == 0
  {
    x % 0x1_0000_0000
  }
}
