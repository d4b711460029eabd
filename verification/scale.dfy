/** The SCALE codec (Simple Concatenated Aggregate Little-Endian) as the
    `#[derive(Decode)]` impls of the finality messages use it: fixed-width
    little-endian integers, byte arrays taken verbatim, the compact
    encoding of a `u32` length, and length-prefixed vectors. A decoder takes
    an input buffer and yields the value and the unread rest, or `None`.
    Every decoder here has an encoder beside it; the encoder is the
    reference against which the decoder is specified. */
module Scale {
  import opened Wrappers
  import opened Bytes

  /** The value decoded and the input left after it. */
  type Decoded<T> = Option<(T, seq<byte>)>

  /** `[u8; n]`: the next `n` octets, verbatim. */
  function DecodeBytes(n: nat, s: seq<byte>): (r: Decoded<seq<byte>>)
    ensures r.Some? <==> |s| >= n
    ensures r.Some? ==> |r.value.0| == n && r.value.0 + r.value.1 == s
  {
    if |s| < n then None else Some((s[..n], s[n..]))
  }

  function EncodeU32(v: u32): (s: seq<byte>)
  {
    ToLittleEndian(v, 4)
  }

  function EncodeU64(v: u64): (s: seq<byte>)
  {
    ToLittleEndian(v, 8)
  }

  /** `u32`: four octets, little-endian. */
  function DecodeU32(s: seq<byte>): (r: Decoded<u32>)
    ensures r.Some? <==> |s| >= 4
    ensures r.Some? ==> EncodeU32(r.value.0) + r.value.1 == s
  {
    if |s| < 4 then None
    else
      Pow256Widths();
      ToLittleEndianOfLittleEndian(s[..4]);
      Some((LittleEndian(s[..4]), s[4..]))
  }

  /** `u64`: eight octets, little-endian. */
  function DecodeU64(s: seq<byte>): (r: Decoded<u64>)
    ensures r.Some? <==> |s| >= 8
    ensures r.Some? ==> EncodeU64(r.value.0) + r.value.1 == s
  {
    if |s| < 8 then None
    else
      Pow256Widths();
      ToLittleEndianOfLittleEndian(s[..8]);
      Some((LittleEndian(s[..8]), s[8..]))
  }

  lemma U32RoundTrip(v: u32, t: seq<byte>)
    ensures DecodeU32(EncodeU32(v) + t) == Some((v, t))
  {
    Pow256Widths();
    LittleEndianOfToLittleEndian(v, 4);
    assert (EncodeU32(v) + t)[..4] == EncodeU32(v);
    assert (EncodeU32(v) + t)[4..] == t;
  }

  lemma U64RoundTrip(v: u64, t: seq<byte>)
    ensures DecodeU64(EncodeU64(v) + t) == Some((v, t))
  {
    Pow256Widths();
    LittleEndianOfToLittleEndian(v, 8);
    assert (EncodeU64(v) + t)[..8] == EncodeU64(v);
    assert (EncodeU64(v) + t)[8..] == t;
  }

  /** The compact encoding of a `u32`: the two low bits of the first octet
      select a one-, two- or four-octet little-endian form holding the value
      shifted left by two, or (`0b11`) a marker octet followed by the value
      in four octets. The shortest form that fits is the only one used. */
  function EncodeCompact(n: u32): (s: seq<byte>)
  {
    if n < 0x40 then [n * 4]
    else if n < 0x4000 then ToLittleEndian(n * 4 + 1, 2)
    else if n < 0x4000_0000 then ToLittleEndian(n * 4 + 2, 4)
    else [3] + ToLittleEndian(n, 4)
  }

  /** `Compact<u32>`, as `Vec` decodes its length. A value written in a
      longer form than it needs is rejected, and so is a big-integer form
      longer than four octets. The result is always the canonical encoding
      of the value read. */
  function DecodeCompact(s: seq<byte>): (r: Decoded<u32>)
    ensures r.Some? ==> EncodeCompact(r.value.0) + r.value.1 == s
  {
    if |s| == 0 then None
    else if s[0] % 4 == 0 then DecodeCompactSingle(s)
    else if s[0] % 4 == 1 then DecodeCompactTwo(s)
    else if s[0] % 4 == 2 then DecodeCompactFour(s)
    else DecodeCompactBig(s)
  }

  /** Mode `0b00`: the value is the prefix octet shifted right by two. */
  function DecodeCompactSingle(s: seq<byte>): (r: Decoded<u32>)
    requires |s| > 0 && s[0] % 4 == 0
    ensures r.Some? && EncodeCompact(r.value.0) + r.value.1 == s
  {
    DivMod4(s[0], s[0] / 4, 0);
    Some((s[0] / 4, s[1..]))
  }

  /** Mode `0b01`: two octets, holding a value of at least `0x40`. */
  function DecodeCompactTwo(s: seq<byte>): (r: Decoded<u32>)
    requires |s| > 0 && s[0] % 4 == 1
    ensures r.Some? <==> |s| >= 2 && 0x40 <= LittleEndian(s[..2]) / 4
    ensures r.Some? ==> EncodeCompact(r.value.0) + r.value.1 == s
  {
    if |s| < 2 then None
    else
      var w := LittleEndian(s[..2]);
      var x := w / 4;
      if 0x40 <= x then
        Pow256Widths();
        LittleEndianLowOctet(s[..2]);
        DivMod4(w, x, 1);
        ToLittleEndianOfLittleEndian(s[..2]);
        assert s == s[..2] + s[2..];
        Some((x, s[2..]))
      else None
  }

  /** Mode `0b10`: four octets, holding a value of at least `0x4000`. */
  function DecodeCompactFour(s: seq<byte>): (r: Decoded<u32>)
    requires |s| > 0 && s[0] % 4 == 2
    ensures r.Some? <==> |s| >= 4 && 0x4000 <= LittleEndian(s[..4]) / 4
    ensures r.Some? ==> EncodeCompact(r.value.0) + r.value.1 == s
  {
    if |s| < 4 then None
    else
      var w := LittleEndian(s[..4]);
      var x := w / 4;
      if 0x4000 <= x then
        Pow256Widths();
        LittleEndianLowOctet(s[..4]);
        DivMod4(w, x, 2);
        ToLittleEndianOfLittleEndian(s[..4]);
        assert s == s[..4] + s[4..];
        Some((x, s[4..]))
      else None
  }

  /** Mode `0b11`: the upper six bits count the extra octets beyond four;
      only the four-octet form fits a `u32`, and only for values of at
      least `0x4000_0000`. */
  function DecodeCompactBig(s: seq<byte>): (r: Decoded<u32>)
    requires |s| > 0 && s[0] % 4 == 3
    ensures r.Some? <==> s[0] == 3 && |s| >= 5 && LittleEndian(s[1..5]) >= 0x4000_0000
    ensures r.Some? ==> EncodeCompact(r.value.0) + r.value.1 == s
  {
    if s[0] / 4 == 0 && |s| >= 5 then
      DivMod4(s[0], 0, 3);
      var x := LittleEndian(s[1..5]);
      if x >= 0x4000_0000 then
        Pow256Widths();
        ToLittleEndianOfLittleEndian(s[1..5]);
        assert s == [s[0]] + s[1..5] + s[5..];
        Some((x, s[5..]))
      else None
    else
      None
  }

  /** The compact form takes one, two, four or five octets. */
  lemma CompactLength(n: u32)
    ensures |EncodeCompact(n)| == (if n < 0x40 then 1 else if n < 0x4000 then 2
                                   else if n < 0x4000_0000 then 4 else 5)
  {
  }

  /** The decoder reads back every value the encoder writes, leaving the
      trailing input untouched. */
  lemma CompactRoundTrip(n: u32, t: seq<byte>)
    ensures DecodeCompact(EncodeCompact(n) + t) == Some((n, t))
  {
    var e := EncodeCompact(n);
    var s := e + t;
    Pow256Widths();
    if n < 0x40 {
      DivMod4(n * 4, n, 0);
      assert s[1..] == t;
    } else if n < 0x4000 {
      assert s[..2] == e;
      LittleEndianOfToLittleEndian(n * 4 + 1, 2);
      LittleEndianLowOctet(e);
      DivMod4(n * 4 + 1, n, 1);
      assert s[2..] == t;
    } else if n < 0x4000_0000 {
      assert s[..4] == e;
      LittleEndianOfToLittleEndian(n * 4 + 2, 4);
      LittleEndianLowOctet(e);
      DivMod4(n * 4 + 2, n, 2);
      assert s[4..] == t;
    } else {
      assert s[1..5] == ToLittleEndian(n, 4);
      LittleEndianOfToLittleEndian(n, 4);
      assert s[5..] == t;
    }
  }

  /** `n` values decoded one after another, as `Vec` decodes its elements
      once the length is known; the first failure fails the whole. */
  function DecodeN<T>(dec: seq<byte> -> Decoded<T>, n: nat, s: seq<byte>): (r: Decoded<seq<T>>)
    ensures r.Some? ==> |r.value.0| == n
  {
    if n == 0 then Some(([], s))
    else
      match dec(s)
      case None => None
      case Some((x, s1)) =>
        match DecodeN(dec, n - 1, s1)
        case None => None
        case Some((xs, s2)) => Some(([x] + xs, s2))
  }

  /** The concatenated encodings of `xs`, in order. */
  function EncodeAll<T>(enc: T -> seq<byte>, xs: seq<T>): (s: seq<byte>)
  {
    if |xs| == 0 then [] else enc(xs[0]) + EncodeAll(enc, xs[1..])
  }

  /** `Vec<T>`: a compact length `n`, then `n` elements. */
  function DecodeVec<T>(dec: seq<byte> -> Decoded<T>, s: seq<byte>): (r: Decoded<seq<T>>)
    ensures r.Some? ==> |r.value.0| < 0x1_0000_0000
  {
    match DecodeCompact(s)
    case None => None
    case Some((n, s1)) => DecodeN(dec, n, s1)
  }

  function EncodeVec<T>(enc: T -> seq<byte>, xs: seq<T>): (s: seq<byte>)
    requires |xs| < 0x1_0000_0000
  {
    EncodeCompact(|xs|) + EncodeAll(enc, xs)
  }

  /** Every successful decode reads exactly the encoding of its value. */
  ghost predicate Canonical<T>(dec: seq<byte> -> Decoded<T>, enc: T -> seq<byte>)
  {
    forall s {:trigger dec(s)} :: dec(s).Some? ==> enc(dec(s).value.0) + dec(s).value.1 == s
  }

  /** The encoding of every value satisfying `ok` is read back, whatever
      follows it. */
  ghost predicate RoundTrips<T(!new)>(dec: seq<byte> -> Decoded<T>, enc: T -> seq<byte>, ok: T -> bool)
  {
    forall x, t {:trigger dec(enc(x) + t)} :: ok(x) ==> dec(enc(x) + t) == Some((x, t))
  }

  /** Every input of at least `w` octets decodes, and a decode consumes
      exactly `w` octets. */
  ghost predicate FixedWidth<T>(dec: seq<byte> -> Decoded<T>, w: nat)
  {
    forall s {:trigger dec(s)} ::
      && (dec(s).Some? <==> |s| >= w)
      && (dec(s).Some? ==> dec(s).value.1 == s[w..])
  }

  lemma {:induction false} DecodeNCanonical<T>(dec: seq<byte> -> Decoded<T>, enc: T -> seq<byte>, n: nat, s: seq<byte>)
    requires Canonical(dec, enc)
    ensures DecodeN(dec, n, s).Some? ==>
              EncodeAll(enc, DecodeN(dec, n, s).value.0) + DecodeN(dec, n, s).value.1 == s
  {
    var r := DecodeN(dec, n, s);
    if n > 0 && r.Some? {
      var (x, s1) := dec(s).value;
      DecodeNCanonical(dec, enc, n - 1, s1);
      var (xs, s2) := DecodeN(dec, n - 1, s1).value;
      assert r.value.0[1..] == xs;
      calc {
        EncodeAll(enc, r.value.0) + s2;
        enc(x) + EncodeAll(enc, xs) + s2;
        enc(x) + (EncodeAll(enc, xs) + s2);
        s;
      }
    }
  }

  lemma {:induction false} DecodeNRoundTrip<T(!new)>(dec: seq<byte> -> Decoded<T>, enc: T -> seq<byte>, ok: T -> bool,
                                                     xs: seq<T>, t: seq<byte>)
    requires RoundTrips(dec, enc, ok)
    requires forall i :: 0 <= i < |xs| ==> ok(xs[i])
    ensures DecodeN(dec, |xs|, EncodeAll(enc, xs) + t) == Some((xs, t))
  {
    if |xs| > 0 {
      var rest := EncodeAll(enc, xs[1..]) + t;
      assert EncodeAll(enc, xs) + t == enc(xs[0]) + rest;
      assert dec(enc(xs[0]) + rest) == Some((xs[0], rest));
      DecodeNRoundTrip(dec, enc, ok, xs[1..], t);
      assert DecodeN(dec, |xs| - 1, rest) == Some((xs[1..], t));
      assert [xs[0]] + xs[1..] == xs;
      assert DecodeN(dec, |xs|, enc(xs[0]) + rest) == Some(([xs[0]] + xs[1..], t));
    } else {
      assert EncodeAll(enc, xs) + t == t;
    }
  }

  /** With elements of a fixed width `w`, `n` of them decode exactly when
      `n * w` octets are available, and exactly `n * w` are consumed. */
  lemma {:induction false} DecodeNFixedWidth<T>(dec: seq<byte> -> Decoded<T>, w: nat, n: nat, s: seq<byte>)
    requires FixedWidth(dec, w)
    ensures DecodeN(dec, n, s).Some? <==> |s| >= n * w
    ensures DecodeN(dec, n, s).Some? ==> DecodeN(dec, n, s).value.1 == s[n * w..]
  {
    if n > 0 {
      var m := (n - 1) * w;
      MulPred(n, w);
      if |s| < w {
        assert dec(s).None?;
      } else {
        var s1 := dec(s).value.1;
        assert s1 == s[w..];
        DecodeNFixedWidth(dec, w, n - 1, s1);
        if |s1| >= m {
          assert s1[m..] == s[w + m..];
        }
      }
    }
  }

  /** `n * w` is `w` more than `(n - 1) * w`, and neither is negative. */
  lemma MulPred(n: nat, w: nat)
    requires n > 0
    ensures 0 <= (n - 1) * w && n * w == w + (n - 1) * w
  {
  }

  /** In a fixed-width run, element `i` is what decoding at octet `i * w` yields. */
  lemma {:induction false} DecodeNElement<T>(dec: seq<byte> -> Decoded<T>, w: nat, n: nat, s: seq<byte>, i: nat)
    requires FixedWidth(dec, w)
    requires DecodeN(dec, n, s).Some? && i < n
    ensures 0 <= i * w && i * w + w <= |s|
    ensures dec(s[i * w..]) == Some((DecodeN(dec, n, s).value.0[i], s[i * w + w..]))
  {
    var s1 := dec(s).value.1;
    assert s1 == s[w..];
    if i == 0 {
      assert s[0 * w..] == s;
    } else {
      var xs1 := DecodeN(dec, n - 1, s1).value.0;
      assert DecodeN(dec, n, s).value.0 == [dec(s).value.0] + xs1;
      DecodeNElement(dec, w, n - 1, s1, i - 1);
      var o := (i - 1) * w;
      MulPred(i, w);
      assert s1[o..] == s[i * w..];
      assert s1[o + w..] == s[i * w + w..];
    }
  }

  lemma DecodeVecCanonical<T>(dec: seq<byte> -> Decoded<T>, enc: T -> seq<byte>, s: seq<byte>)
    requires Canonical(dec, enc)
    ensures DecodeVec(dec, s).Some? ==>
              EncodeVec(enc, DecodeVec(dec, s).value.0) + DecodeVec(dec, s).value.1 == s
  {
    if DecodeVec(dec, s).Some? {
      var (n, s1) := DecodeCompact(s).value;
      DecodeNCanonical(dec, enc, n, s1);
    }
  }

  lemma DecodeVecRoundTrip<T(!new)>(dec: seq<byte> -> Decoded<T>, enc: T -> seq<byte>, ok: T -> bool,
                                    xs: seq<T>, t: seq<byte>)
    requires RoundTrips(dec, enc, ok)
    requires forall i :: 0 <= i < |xs| ==> ok(xs[i])
    requires |xs| < 0x1_0000_0000
    ensures DecodeVec(dec, EncodeVec(enc, xs) + t) == Some((xs, t))
  {
    var body := EncodeAll(enc, xs) + t;
    assert EncodeVec(enc, xs) + t == EncodeCompact(|xs|) + body;
    CompactRoundTrip(|xs|, body);
    DecodeNRoundTrip(dec, enc, ok, xs, t);
  }
}
