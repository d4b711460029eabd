/** The hexadecimal helpers the tally uses on the wire: `hex` writes octets
    as lowercase digit pairs, `bytes` reads digit pairs back after
    dropping any leading `0x`. */
module HexCodec {
  import opened Wrappers
  import opened Bytes

  /** The digits `hex` writes, by value. */
  const DIGITS: string := "0123456789abcdef"

  /** A digit `hex` writes: `0` to `9` or `a` to `f`. */
  predicate IsLowerHex(c: char)
  {
    '0' <= c <= '9' || 'a' <= c <= 'f'
  }

  /** The value of one digit as `u8::from_str_radix(_, 16)` accepts it:
      decimal digits and letters `a` to `f` in either case. */
  function DigitValue(c: char): (v: Option<nat>)
    ensures v.Some? <==> IsLowerHex(c) || 'A' <= c <= 'F'
    ensures v.Some? ==> v.value < 16
    ensures IsLowerHex(c) ==> DIGITS[v.value] == c
    ensures 'A' <= c <= 'F' ==> DIGITS[v.value] as int == c as int + ('a' as int - 'A' as int)
  {
    if '0' <= c <= '9' then Some(c as int - '0' as int)
    else if 'a' <= c <= 'f' then Some(c as int - 'a' as int + 10)
    else if 'A' <= c <= 'F' then Some(c as int - 'A' as int + 10)
    else None
  }

  /** `format!("{:02x}", b)`: high digit, then low digit. */
  function HexOctet(b: byte): (r: string)
    ensures |r| == 2 && IsLowerHex(r[0]) && IsLowerHex(r[1])
    ensures DigitValue(r[0]) == Some(b / 16) && DigitValue(r[1]) == Some(b % 16)
  {
    DigitValueOfDigits(b / 16);
    DigitValueOfDigits(b % 16);
    [DIGITS[b / 16], DIGITS[b % 16]]
  }

  /** `hex`: every octet as two lowercase digits, in order, with no prefix. */
  function Hex(s: seq<byte>): (r: string)
    ensures |r| == 2 * |s|
    ensures forall i :: 0 <= i < |r| ==> IsLowerHex(r[i])
  {
    if |s| == 0 then ""
    else HexOctet(s[0]) + Hex(s[1..])
  }

  /** `trim_start_matches("0x")`: every leading `0x`, however many, is
      dropped; what is dropped is a run of `0x`s. */
  function TrimHexPrefix(s: string): (r: string)
    ensures |r| <= |s| && r == s[|s| - |r|..]
    ensures !(|r| >= 2 && r[..2] == "0x")
    ensures exists n: nat :: s == ZeroXs(n) + r
  {
    if |s| >= 2 && s[..2] == "0x" then
      var r := TrimHexPrefix(s[2..]);
      assert exists n: nat :: s == ZeroXs(n) + r by {
        var n: nat :| s[2..] == ZeroXs(n) + r;
        TrimStep(s, r, n);
      }
      r
    else
      assert s == ZeroXs(0) + s;
      s
  }

  /** Dropping one more `0x` keeps the rest behind a run of `0x`s. */
  lemma TrimStep(s: string, r: string, n: nat)
    requires |s| >= 2 && s[..2] == "0x"
    requires s[2..] == ZeroXs(n) + r
    ensures s == ZeroXs(n + 1) + r
  {
    var z := ZeroXs(n);
    assert ZeroXs(n + 1) == "0x" + z;
    calc {
      s;
      s[..2] + s[2..];
      "0x" + (z + r);
      ("0x" + z) + r;
    }
  }

  /** `n` copies of `0x`. */
  function ZeroXs(n: nat): (z: string)
    ensures |z| == 2 * n
  {
    if n == 0 then "" else "0x" + ZeroXs(n - 1)
  }

  /** `u8::from_str_radix` on a two-character slice: two digits, or a `+`
      sign and one digit. `None` is the error the source unwraps. */
  function ParsePair(c0: char, c1: char): (r: Option<byte>)
    ensures r.Some? ==> DigitValue(c1) == Some(r.value % 16)
    ensures r.Some? && c0 == '+' ==> r.value < 16
    ensures c0 == '+' ==> (r.Some? <==> DigitValue(c1).Some?)
    ensures r.Some? && c0 != '+' ==> DigitValue(c0) == Some(r.value / 16)
    ensures c0 != '+' ==> (r.Some? <==> DigitValue(c0).Some? && DigitValue(c1).Some?)
  {
    if c0 == '+' then
      match DigitValue(c1)
      case None => None
      case Some(d) => Some(d)
    else
      match (DigitValue(c0), DigitValue(c1))
      case (Some(d0), Some(d1)) =>
        DivMod16(16 * d0 + d1, d0, d1);
        Some(16 * d0 + d1)
      case _ => None
  }

  /** Consecutive character pairs, each parsed to an octet. An odd length
      slices past the end, which panics: `None`. */
  function ParsePairs(s: string): (r: Option<seq<byte>>)
    ensures r.Some? <==> AllPairsParse(s)
    ensures r.Some? ==> 2 * |r.value| == |s|
    ensures r.Some? ==> forall k :: 0 <= k < |r.value| ==> Some(r.value[k]) == ParsePair(s[2 * k], s[2 * k + 1])
  {
    if |s| == 0 then Some([])
    else if |s| == 1 then None
    else
      match ParsePair(s[0], s[1])
      case None =>
        assert ParsePair(s[2 * 0], s[2 * 0 + 1]).None?;
        None
      case Some(b) =>
        match ParsePairs(s[2..])
        case None =>
          ConsPairsFail(s);
          None
        case Some(bs) =>
          ConsPairs(s, b, bs);
          Some([b] + bs)
  }

  /** An even length, and every consecutive pair parses. */
  ghost predicate AllPairsParse(s: string)
  {
    |s| % 2 == 0 && forall k :: 0 <= k < |s| / 2 ==> ParsePair(s[2 * k], s[2 * k + 1]).Some?
  }

  /** A parsed first pair in front of a parsed remainder. */
  lemma ConsPairs(s: string, b: byte, bs: seq<byte>)
    requires |s| >= 2 && ParsePair(s[0], s[1]) == Some(b)
    requires 2 * |bs| == |s| - 2
    requires forall k :: 0 <= k < |bs| ==> Some(bs[k]) == ParsePair(s[2..][2 * k], s[2..][2 * k + 1])
    ensures AllPairsParse(s)
    ensures forall k :: 0 <= k < |bs| + 1 ==> Some(([b] + bs)[k]) == ParsePair(s[2 * k], s[2 * k + 1])
  {
    forall k | 1 <= k < |bs| + 1
      ensures Some(([b] + bs)[k]) == ParsePair(s[2 * k], s[2 * k + 1])
    {
      assert s[2..][2 * (k - 1)] == s[2 * k] && s[2..][2 * (k - 1) + 1] == s[2 * k + 1];
      assert Some(bs[k - 1]) == ParsePair(s[2..][2 * (k - 1)], s[2..][2 * (k - 1) + 1]);
    }
    assert Some(([b] + bs)[0]) == ParsePair(s[2 * 0], s[2 * 0 + 1]);
  }

  /** A remainder that fails makes the whole string fail. */
  lemma ConsPairsFail(s: string)
    requires |s| >= 2 && !AllPairsParse(s[2..])
    ensures !AllPairsParse(s)
  {
    var t := s[2..];
    if |t| % 2 == 0 {
      var k :| 0 <= k < |t| / 2 && ParsePair(t[2 * k], t[2 * k + 1]).None?;
      assert t[2 * k] == s[2 * (k + 1)] && t[2 * k + 1] == s[2 * (k + 1) + 1];
      assert ParsePair(s[2 * (k + 1)], s[2 * (k + 1) + 1]).None?;
    }
  }

  /** `bytes`: octets of a hex string with optional `0x` prefix; `None`
      where the source panics. */
  function FromHex(s: string): (r: Option<seq<byte>>)
    ensures r.Some? ==> exists n: nat :: && 2 * n + 2 * |r.value| == |s|
                                         && s[..2 * n] == ZeroXs(n)
                                         && ParsePairs(s[2 * n..]) == r
  {
    var t := TrimHexPrefix(s);
    assert exists n: nat :: 2 * n + |t| == |s| && s[..2 * n] == ZeroXs(n) && s[2 * n..] == t by {
      var n: nat :| s == ZeroXs(n) + t;
      SplitConcat(ZeroXs(n), t, s);
    }
    ParsePairs(t)
  }

  /** `bytes` accepts exactly the strings whose text after the leading
      `0x`s parses pairwise: whatever run of `0x`s is followed by a rest
      that does not start with `0x`, the result is the parse of that rest. */
  lemma FromHexExactly(s: string, n: nat, t: string)
    requires s == ZeroXs(n) + t && !(|t| >= 2 && t[..2] == "0x")
    ensures FromHex(s) == ParsePairs(t)
  {
    TrimZeroXs(n, t);
  }

  /** Trimming `n` copies of `0x` in front of a rest that does not start
      with `0x` gives the rest. */
  lemma TrimZeroXs(n: nat, t: string)
    requires !(|t| >= 2 && t[..2] == "0x")
    ensures TrimHexPrefix(ZeroXs(n) + t) == t
  {
    var s := ZeroXs(n) + t;
    var r := TrimHexPrefix(s);
    var m: nat :| s == ZeroXs(m) + r;
    ZeroXsUnique(m, r, n, t);
  }

  /** A string splits in only one way into a run of `0x`s and a rest that
      does not start with `0x`. */
  lemma {:induction false} ZeroXsUnique(m: nat, r: string, n: nat, t: string)
    requires ZeroXs(m) + r == ZeroXs(n) + t
    requires !(|r| >= 2 && r[..2] == "0x") && !(|t| >= 2 && t[..2] == "0x")
    ensures r == t
  {
    if m == 0 {
      assert ZeroXs(0) + r == r;
      if n > 0 {
        DropZeroX(n, t);
      }
    } else if n == 0 {
      assert ZeroXs(0) + t == t;
      DropZeroX(m, r);
    } else {
      DropZeroX(m, r);
      DropZeroX(n, t);
      ZeroXsUnique(m - 1, r, n - 1, t);
    }
  }

  /** A run of one or more `0x`s in front of a rest starts with `0x`, and
      after it comes one `0x` fewer. */
  lemma DropZeroX(n: nat, t: string)
    requires n > 0
    ensures |ZeroXs(n) + t| >= 2
    ensures (ZeroXs(n) + t)[..2] == "0x"
    ensures (ZeroXs(n) + t)[2..] == ZeroXs(n - 1) + t
  {
    var u := ZeroXs(n - 1) + t;
    calc {
      ZeroXs(n) + t;
      ("0x" + ZeroXs(n - 1)) + t;
      "0x" + u;
    }
    SplitConcat("0x", u, ZeroXs(n) + t);
  }

  /** The two halves of a concatenation are its slices. */
  lemma SplitConcat(a: string, b: string, s: string)
    requires s == a + b
    ensures s[..|a|] == a && s[|a|..] == b
  {
  }

  lemma DigitValueOfDigits(k: nat)
    requires k < 16
    ensures DigitValue(DIGITS[k]) == Some(k)
  {
  }

  /** A lowercase digit is the digit of its own value. */
  lemma DigitOfDigitValue(c: char)
    requires IsLowerHex(c)
    ensures DigitValue(c).Some? && DIGITS[DigitValue(c).value] == c
  {
  }

  lemma {:induction false} HexAppend(a: seq<byte>, b: seq<byte>)
    ensures Hex(a + b) == Hex(a) + Hex(b)
  {
    if |a| > 0 {
      assert (a + b)[1..] == a[1..] + b;
      HexAppend(a[1..], b);
    } else {
      assert a + b == b;
    }
  }

  /** The two digits `hex` writes for an octet parse back to it. */
  lemma OctetParses(b: byte)
    ensures ParsePair(HexOctet(b)[0], HexOctet(b)[1]) == Some(b)
  {
    var h := HexOctet(b);
    assert h[0] != '+';
    DivMod16(b, b / 16, b % 16);
  }

  /** Pairs written by `hex` are read back. */
  lemma {:induction false} ParsePairsOfHex(s: seq<byte>)
    ensures ParsePairs(Hex(s)) == Some(s)
  {
    if |s| > 0 {
      var h := Hex(s);
      assert h == HexOctet(s[0]) + Hex(s[1..]);
      OctetParses(s[0]);
      assert h[2..] == Hex(s[1..]);
      ParsePairsOfHex(s[1..]);
      assert [s[0]] + s[1..] == s;
    }
  }

  /** `bytes(hex(x)) == x`: `hex` never starts with `0x` (no `x` among its
      digits), so nothing is trimmed. */
  lemma FromHexOfHex(s: seq<byte>)
    ensures FromHex(Hex(s)) == Some(s)
  {
    var h := Hex(s);
    if |h| >= 2 {
      assert IsLowerHex(h[1]);
      assert h[..2] != "0x";
    }
    ParsePairsOfHex(s);
  }

  /** `bytes("0x" ++ hex(x)) == x`. */
  lemma FromHexOfPrefixedHex(s: seq<byte>)
    ensures FromHex("0x" + Hex(s)) == Some(s)
  {
    var h := Hex(s);
    assert ("0x" + h)[..2] == "0x" && ("0x" + h)[2..] == h;
    FromHexOfHex(s);
  }

  /** Two lowercase digits parse to the octet `hex` writes as them. */
  lemma PairOfDigits(c0: char, c1: char)
    requires IsLowerHex(c0) && IsLowerHex(c1)
    ensures ParsePair(c0, c1).Some? && HexOctet(ParsePair(c0, c1).value) == [c0, c1]
  {
    DigitOfDigitValue(c0);
    DigitOfDigitValue(c1);
    var k0, k1 := DigitValue(c0).value, DigitValue(c1).value;
    var b := 16 * k0 + k1;
    assert ParsePair(c0, c1) == Some(b) by {
      assert c0 != '+';
    }
    DivMod16(b, k0, k1);
    assert HexOctet(b) == [DIGITS[k0], DIGITS[k1]];
  }

  /** `hex(bytes(s)) == s` for every even-length string of lowercase
      digits: no `0x` can be trimmed from it, as `x` is not a digit. */
  lemma HexOfFromHex(s: string)
    requires |s| % 2 == 0
    requires forall k :: 0 <= k < |s| ==> IsLowerHex(s[k])
    ensures FromHex(s).Some? && Hex(FromHex(s).value) == s
  {
    if |s| >= 2 {
      assert IsLowerHex(s[1]);
      assert s[..2] != "0x";
    }
    HexOfParsePairs(s);
  }

  lemma DivMod16(x: int, q: int, r: int)
    requires 0 <= r < 16 && x == 16 * q + r
    ensures x / 16 == q && x % 16 == r
  {
  }

  /** Every even-length string of lowercase digits is what `hex` writes
      for the octets `bytes` reads from it. */
  lemma {:induction false} HexOfParsePairs(s: string)
    requires |s| % 2 == 0
    requires forall i :: 0 <= i < |s| ==> IsLowerHex(s[i])
    ensures ParsePairs(s).Some? && Hex(ParsePairs(s).value) == s
  {
    if |s| > 0 {
      assert IsLowerHex(s[0]) && IsLowerHex(s[1]);
      PairOfDigits(s[0], s[1]);
      var b := ParsePair(s[0], s[1]).value;
      HexOfParsePairs(s[2..]);
      var bs := ParsePairs(s[2..]).value;
      assert ParsePairs(s).value == [b] + bs;
      assert ([b] + bs)[1..] == bs;
      assert Hex([b] + bs) == HexOctet(b) + Hex(bs);
      assert s == [s[0], s[1]] + s[2..];
    }
  }

  /** An odd number of characters after the prefix fails, and so does a
      pair that is neither two digits nor `+` and a digit. */
  lemma {:induction false} ParsePairsFails(s: string, i: nat)
    requires i + 1 < |s| && i % 2 == 0
    requires ParsePair(s[i], s[i + 1]).None?
    ensures ParsePairs(s).None?
  {
    if i > 0 {
      ParsePairsFails(s[2..], i - 2);
    }
  }

  lemma {:induction false} ParsePairsOddLength(s: string)
    requires |s| % 2 == 1
    ensures ParsePairs(s).None?
  {
  }
}
