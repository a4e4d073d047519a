/** Machine integers and their little-endian bytes. */
module Words {
  type byte = x: int | 0 <= x < 256
  type uint32 = x: int | 0 <= x < 0x1_0000_0000
  type int32 = x: int | -0x8000_0000 <= x < 0x8000_0000

  /** The value a 32-bit unsigned, or signed, variable holds after being assigned v. */
  function U32(v: int): uint32 { v % 0x1_0000_0000 }
  function I32(v: int): int32 { (v + 0x8000_0000) % 0x1_0000_0000 - 0x8000_0000 }

  lemma InRange(v: int)
    ensures -0x8000_0000 <= v < 0x8000_0000 ==> I32(v) == v
    ensures 0 <= v < 0x1_0000_0000 ==> U32(v) == v
  {
  }

  lemma WordsAgree(v: int32)
    ensures I32(U32(v)) == v && I32(v) == v
  {
  }

  /** The four bytes of a word, low byte first. */
  function Le32(v: int): (b: seq<byte>)
    ensures |b| == 4
  {
    var u := U32(v);
    [u % 0x100, u / 0x100 % 0x100, u / 0x1_0000 % 0x100, u / 0x100_0000]
  }

  function FromLe32(b: seq<byte>): uint32
    requires |b| == 4
  {
    var b0: int, b1: int, b2: int, b3: int := b[0], b[1], b[2], b[3];
    b0 + 0x100 * (b1 + 0x100 * (b2 + 0x100 * b3))
  }

  lemma Digits(u: nat)
    ensures u / 0x1_0000 == u / 0x100 / 0x100 && u / 0x100_0000 == u / 0x100 / 0x100 / 0x100
  {
  }

  lemma Le32RoundTrip(v: int)
    ensures FromLe32(Le32(v)) == U32(v)
  {
    var u := U32(v);
    Digits(u);
    var q := u / 0x100;
    var r := q / 0x100;
    assert u == u % 0x100 + 0x100 * q && q == q % 0x100 + 0x100 * r && r == r % 0x100 + 0x100 * (r / 0x100);
  }

  lemma LowByte(b: int, q: int)
    requires 0 <= b < 0x100
    ensures (b + 0x100 * q) / 0x100 == q && (b + 0x100 * q) % 0x100 == b
  {
  }

  lemma FromLe32RoundTrip(b: seq<byte>)
    requires |b| == 4
    ensures Le32(FromLe32(b)) == b
  {
    var b0: int, b1: int, b2: int, b3: int := b[0], b[1], b[2], b[3];
    var r := b2 + 0x100 * b3;
    var q := b1 + 0x100 * r;
    Digits(b0 + 0x100 * q);
    LowByte(b0, q);
    LowByte(b1, r);
    LowByte(b2, b3);
    assert Le32(FromLe32(b)) == [b0, b1, b2, b3];
  }
}
