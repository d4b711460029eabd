/** The fixed-size primitive records of the finality messages: `Hash`,
    `AccountId` and `Signature`, each a byte array decoded verbatim. */
module Primitives {
  import opened Wrappers
  import opened Bytes
  import opened Scale

  type Bytes32 = s: seq<byte> | |s| == 32 witness seq(32, _ => 0)
  type Bytes64 = s: seq<byte> | |s| == 64 witness seq(64, _ => 0)

  /** A block hash, `[u8; 32]`. */
  datatype Hash = Hash(raw: Bytes32)

  /** A public key, `[u8; 32]`. Datatype equality is equality of the
      32 octets, as the derived `Eq` and `Hash` impls compare them. */
  datatype AccountId = AccountId(raw: Bytes32)

  /** A signature, `[u8; 64]`, carried but never inspected. */
  datatype Signature = Signature(raw: Bytes64)

  function EncodeHash(h: Hash): (s: seq<byte>)
  {
    h.raw
  }

  function EncodeAccountId(a: AccountId): (s: seq<byte>)
  {
    a.raw
  }

  function EncodeSignature(g: Signature): (s: seq<byte>)
  {
    g.raw
  }

  function DecodeHash(s: seq<byte>): (r: Decoded<Hash>)
    ensures r.Some? <==> |s| >= 32
    ensures r.Some? ==> EncodeHash(r.value.0) + r.value.1 == s
  {
    match DecodeBytes(32, s)
    case None => None
    case Some((a, rest)) => Some((Hash(a), rest))
  }

  function DecodeAccountId(s: seq<byte>): (r: Decoded<AccountId>)
    ensures r.Some? <==> |s| >= 32
    ensures r.Some? ==> EncodeAccountId(r.value.0) + r.value.1 == s
  {
    match DecodeBytes(32, s)
    case None => None
    case Some((a, rest)) => Some((AccountId(a), rest))
  }

  function DecodeSignature(s: seq<byte>): (r: Decoded<Signature>)
    ensures r.Some? <==> |s| >= 64
    ensures r.Some? ==> EncodeSignature(r.value.0) + r.value.1 == s
  {
    match DecodeBytes(64, s)
    case None => None
    case Some((a, rest)) => Some((Signature(a), rest))
  }

  /** `Hash` takes exactly the first 32 octets, verbatim, and nothing more. */
  lemma HashLayout(s: seq<byte>)
    requires |s| >= 32
    ensures DecodeHash(s) == Some((Hash(s[..32]), s[32..]))
  {
    var (h, rest) := DecodeHash(s).value;
    assert h.raw + rest == s;
  }

  /** `AccountId` takes exactly the first 32 octets, verbatim, and nothing more. */
  lemma AccountIdLayout(s: seq<byte>)
    requires |s| >= 32
    ensures DecodeAccountId(s) == Some((AccountId(s[..32]), s[32..]))
  {
    var (a, rest) := DecodeAccountId(s).value;
    assert a.raw + rest == s;
  }

  /** `Signature` takes exactly the first 64 octets, verbatim, and nothing more. */
  lemma SignatureLayout(s: seq<byte>)
    requires |s| >= 64
    ensures DecodeSignature(s) == Some((Signature(s[..64]), s[64..]))
  {
    var (g, rest) := DecodeSignature(s).value;
    assert g.raw + rest == s;
  }

  /** Two decoded account ids are equal exactly when their 32 input octets are. */
  lemma AccountIdByteIdentity(s: seq<byte>, t: seq<byte>)
    requires |s| >= 32 && |t| >= 32
    ensures DecodeAccountId(s).value.0 == DecodeAccountId(t).value.0 <==> s[..32] == t[..32]
  {
    AccountIdLayout(s);
    AccountIdLayout(t);
  }

  lemma HashRoundTrip(h: Hash, t: seq<byte>)
    ensures DecodeHash(EncodeHash(h) + t) == Some((h, t))
  {
    var s := EncodeHash(h) + t;
    assert s[..32] == h.raw && s[32..] == t;
    HashLayout(s);
  }

  lemma AccountIdRoundTrip(a: AccountId, t: seq<byte>)
    ensures DecodeAccountId(EncodeAccountId(a) + t) == Some((a, t))
  {
    var s := EncodeAccountId(a) + t;
    assert s[..32] == a.raw && s[32..] == t;
    AccountIdLayout(s);
  }

  lemma SignatureRoundTrip(g: Signature, t: seq<byte>)
    ensures DecodeSignature(EncodeSignature(g) + t) == Some((g, t))
  {
    var s := EncodeSignature(g) + t;
    assert s[..64] == g.raw && s[64..] == t;
    SignatureLayout(s);
  }
}
