/** Octets, fixed-width unsigned integers and their little-endian layout. */
module Bytes {

  /** `u8` */
  type byte = x: int | 0 <= x < 0x100
  /** `u32` */
  type u32 = x: int | 0 <= x < 0x1_0000_0000
  /** `u64` */
  type u64 = x: int | 0 <= x < 0x1_0000_0000_0000_0000

  /** 256 to the power `n`: the number of values `n` octets can hold. */
  function Pow256(n: nat): (r: nat)
    ensures r >= 1
  {
    if n == 0 then 1 else 256 * Pow256(n - 1)
  }

  lemma Pow256Widths()
    ensures Pow256(2) == 0x1_0000
    ensures Pow256(4) == 0x1_0000_0000
    ensures Pow256(8) == 0x1_0000_0000_0000_0000
  {
    assert Pow256(1) == 256;
    assert Pow256(2) == 0x1_0000;
    assert Pow256(3) == 0x100_0000;
    assert Pow256(4) == 0x1_0000_0000;
    assert Pow256(5) == 0x100_0000_0000;
    assert Pow256(6) == 0x1_0000_0000_0000;
    assert Pow256(7) == 0x100_0000_0000_0000;
  }

  /** The unsigned integer whose little-endian representation is `s`
      (least significant octet first). */
  function LittleEndian(s: seq<byte>): (v: nat)
    ensures v < Pow256(|s|)
  {
    if |s| == 0 then 0
    else
      var high := LittleEndian(s[1..]);
      assert high + 1 <= Pow256(|s| - 1);
      assert 256 * (high + 1) <= 256 * Pow256(|s| - 1);
      s[0] + 256 * high
  }

  /** The `n` least significant octets of `v`, least significant first, as
      `byteorder::LittleEndian::write_u64` lays a `u64` out for `n == 8`. */
  function ToLittleEndian(v: nat, n: nat): (s: seq<byte>)
    ensures |s| == n
  {
    if n == 0 then [] else [v % 256] + ToLittleEndian(v / 256, n - 1)
  }

  /** Reading back what was written yields the value, when it fits. */
  lemma {:induction false} LittleEndianOfToLittleEndian(v: nat, n: nat)
    requires v < Pow256(n)
    ensures LittleEndian(ToLittleEndian(v, n)) == v
  {
    if n > 0 {
      var s := ToLittleEndian(v, n);
      assert s[1..] == ToLittleEndian(v / 256, n - 1);
      LittleEndianOfToLittleEndian(v / 256, n - 1);
    }
  }

  /** Writing back what was read yields the octets: the representation is unique. */
  lemma {:induction false} ToLittleEndianOfLittleEndian(s: seq<byte>)
    ensures ToLittleEndian(LittleEndian(s), |s|) == s
  {
    if |s| > 0 {
      var v := LittleEndian(s);
      assert v % 256 == s[0] && v / 256 == LittleEndian(s[1..]);
      ToLittleEndianOfLittleEndian(s[1..]);
    }
  }

  /** Division by 256 is determined by quotient and remainder. */
  lemma DivMod256(x: int, q: int, r: int)
    requires 0 <= r < 256 && x == 256 * q + r
    ensures x / 256 == q && x % 256 == r
  {
  }

  /** Division by 4 is determined by quotient and remainder. */
  lemma DivMod4(x: int, q: int, r: int)
    requires 0 <= r < 4 && x == 4 * q + r
    ensures x / 4 == q && x % 4 == r
  {
  }

  /** The low octet of a little-endian value is its first octet. */
  lemma LittleEndianLowOctet(s: seq<byte>)
    requires |s| > 0
    ensures LittleEndian(s) % 256 == s[0]
    ensures LittleEndian(s) % 4 == s[0] % 4
  {
    var high := LittleEndian(s[1..]);
    DivMod256(LittleEndian(s), high, s[0]);
    DivMod4(s[0], s[0] / 4, s[0] % 4);
    DivMod4(LittleEndian(s), 64 * high + s[0] / 4, s[0] % 4);
  }
}
