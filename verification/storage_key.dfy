/** `twox_128` and the storage key the tally subscribes to: the hex of
    `twox_128("Session")` followed by the hex of `twox_128("QueuedKeys")`,
    behind `0x`. XxHash64 itself is a parameter. */
module StorageKey {
  import opened Wrappers
  import opened Bytes
  import opened HexCodec

  /** XxHash64 of the data under the given seed. */
  type XxHash64 = (u64, seq<byte>) -> u64

  /** The octets of an ASCII string, as a byte-string literal holds them. */
  function Ascii(s: string): (r: seq<byte>)
    requires forall i :: 0 <= i < |s| ==> s[i] as int < 0x80
    ensures |r| == |s| && forall i :: 0 <= i < |s| ==> r[i] == s[i] as int
  {
    if |s| == 0 then [] else [s[0] as int] + Ascii(s[1..])
  }

  /** `twox_128`: the seed-0 digest, then the seed-1 digest, each written
      little-endian into its own eight octets. */
  function Twox128(xx: XxHash64, data: seq<byte>): (r: seq<byte>)
    ensures |r| == 16
    ensures LittleEndian(r[..8]) == xx(0, data)
    ensures LittleEndian(r[8..]) == xx(1, data)
  {
    var lo := ToLittleEndian(xx(0, data), 8);
    var hi := ToLittleEndian(xx(1, data), 8);
    Pow256Widths();
    LittleEndianOfToLittleEndian(xx(0, data), 8);
    LittleEndianOfToLittleEndian(xx(1, data), 8);
    assert (lo + hi)[..8] == lo && (lo + hi)[8..] == hi;
    lo + hi
  }

  /** The key of a storage item, as the subscription request writes it:
      `0x`, then the 64 lowercase digits of the two 16-octet hashes. */
  function StorageKey(xx: XxHash64, pallet: seq<byte>, item: seq<byte>): (r: string)
    ensures |r| == 2 + 64 && r[..2] == "0x"
    ensures forall i :: 2 <= i < |r| ==> IsLowerHex(r[i])
    ensures FromHex(r) == Some(Twox128(xx, pallet) + Twox128(xx, item))
  {
    PrefixedHexPair(Twox128(xx, pallet), Twox128(xx, item));
    "0x" + Hex(Twox128(xx, pallet)) + Hex(Twox128(xx, item))
  }

  /** `0x` and the hex of two octet strings read back as their concatenation. */
  lemma PrefixedHexPair(a: seq<byte>, b: seq<byte>)
    ensures var r := "0x" + Hex(a) + Hex(b);
            && |r| == 2 + 2 * (|a| + |b|) && r[..2] == "0x"
            && (forall i :: 2 <= i < |r| ==> IsLowerHex(r[i]))
            && FromHex(r) == Some(a + b)
  {
    HexAppend(a, b);
    var h := Hex(a + b);
    assert "0x" + Hex(a) + Hex(b) == "0x" + h;
    FromHexOfPrefixedHex(a + b);
    PrefixedDigits(h);
  }

  lemma PrefixedDigits(h: string)
    requires forall i :: 0 <= i < |h| ==> IsLowerHex(h[i])
    ensures ("0x" + h)[..2] == "0x"
    ensures forall i :: 2 <= i < |"0x" + h| ==> IsLowerHex(("0x" + h)[i])
  {
    forall i | 2 <= i < |"0x" + h| ensures IsLowerHex(("0x" + h)[i]) {
      assert ("0x" + h)[i] == h[i - 2];
    }
  }

  /** The key of `Session::QueuedKeys`, whose changes carry the validator set. */
  function QueuedKeysKey(xx: XxHash64): (r: string)
    ensures |r| == 66
  {
    StorageKey(xx, Ascii("Session"), Ascii("QueuedKeys"))
  }

  /** The key names its two hashes: distinct hash pairs give distinct keys. */
  lemma StorageKeyDeterminesHashes(xx: XxHash64, p1: seq<byte>, i1: seq<byte>, p2: seq<byte>, i2: seq<byte>)
    requires StorageKey(xx, p1, i1) == StorageKey(xx, p2, i2)
    ensures Twox128(xx, p1) == Twox128(xx, p2) && Twox128(xx, i1) == Twox128(xx, i2)
  {
    var a1, b1 := Twox128(xx, p1), Twox128(xx, i1);
    var a2, b2 := Twox128(xx, p2), Twox128(xx, i2);
    assert a1 + b1 == a2 + b2;
    assert a1 == (a1 + b1)[..16] && a2 == (a2 + b2)[..16];
    assert b1 == (a1 + b1)[16..] && b2 == (a2 + b2)[16..];
  }
}
