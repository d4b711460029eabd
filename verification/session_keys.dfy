/** The session keys of a validator under the two deployment layouts, and
    the queued validator set `Vec<(AccountId, SessionKeys)>`. The generic
    `QueuedKeys<SK>` of the source becomes one closed datatype whose
    variants are the known layouts, each with a `grandpa` field. */
module SessionKeys {
  import opened Wrappers
  import opened Bytes
  import opened Scale
  import opened Primitives

  /** Which session-key record the chain uses. */
  datatype Layout = Polkadot | Darwinia

  datatype SessionKeys =
    | PolkadotSessionKeys(grandpa: AccountId, babe: AccountId, imOnline: AccountId,
                          paraValidator: AccountId, paraAssignment: AccountId,
                          authorityDiscovery: AccountId)
    | DarwiniaSessionKeys(babe: AccountId, grandpa: AccountId, imOnline: AccountId,
                          authorityDiscovery: AccountId)
  {
    function LayoutOf(): (l: Layout)
      ensures l == Polkadot <==> PolkadotSessionKeys?
    {
      if PolkadotSessionKeys? then Polkadot else Darwinia
    }
  }

  /** The queued validator set: stash account and its session keys, in
      the order the chain stores them. */
  type QueuedKeys = seq<(AccountId, SessionKeys)>

  /** Octets one record of the layout takes: six or four account ids. */
  function Width(layout: Layout): (w: nat)
    ensures w == 128 || w == 192
    ensures w == 192 <==> layout == Polkadot
  {
    match layout
    case Polkadot => 6 * 32
    case Darwinia => 4 * 32
  }

  /** Where the `grandpa` key sits inside a record of the layout. */
  function GrandpaOffset(layout: Layout): (o: nat)
    ensures o % 32 == 0 && o + 32 <= Width(layout)
  {
    match layout
    case Polkadot => 0
    case Darwinia => 32
  }

  /** Fields concatenated in declared order. */
  function EncodeSessionKeys(k: SessionKeys): (s: seq<byte>)
  {
    match k
    case PolkadotSessionKeys(g, b, i, v, p, a) =>
      EncodeAccountId(g) + EncodeAccountId(b) + EncodeAccountId(i)
      + EncodeAccountId(v) + EncodeAccountId(p) + EncodeAccountId(a)
    case DarwiniaSessionKeys(b, g, i, a) =>
      EncodeAccountId(b) + EncodeAccountId(g) + EncodeAccountId(i) + EncodeAccountId(a)
  }

  /** The account id at octet `i` of `s`. */
  function IdAt(s: seq<byte>, i: nat): (a: AccountId)
    requires i + 32 <= |s|
    ensures a.raw == s[i..i + 32]
  {
    AccountId(s[i..i + 32])
  }

  /** The derived `Decode` of either layout: its account ids field by field. */
  function DecodeSessionKeys(layout: Layout, s: seq<byte>): (r: Decoded<SessionKeys>)
    ensures r.Some? <==> |s| >= Width(layout)
    ensures r.Some? ==> r.value.0.LayoutOf() == layout
    ensures r.Some? ==> EncodeSessionKeys(r.value.0) + r.value.1 == s
  {
    if |s| < Width(layout) then None
    else
      match layout
      case Polkadot =>
        assert s == s[0..32] + s[32..64] + s[64..96] + s[96..128] + s[128..160] + s[160..192] + s[192..];
        Some((PolkadotSessionKeys(IdAt(s, 0), IdAt(s, 32), IdAt(s, 64), IdAt(s, 96), IdAt(s, 128), IdAt(s, 160)),
              s[192..]))
      case Darwinia =>
        assert s == s[0..32] + s[32..64] + s[64..96] + s[96..128] + s[128..];
        Some((DarwiniaSessionKeys(IdAt(s, 0), IdAt(s, 32), IdAt(s, 64), IdAt(s, 96)), s[128..]))
  }

  /** A record takes `Width` octets and its `grandpa` key is the 32 octets
      at `GrandpaOffset`: the first field under Polkadot, the second under
      Darwinia. */
  lemma SessionKeysLayout(layout: Layout, s: seq<byte>)
    requires |s| >= Width(layout)
    ensures DecodeSessionKeys(layout, s).value.1 == s[Width(layout)..]
    ensures DecodeSessionKeys(layout, s).value.0.grandpa.raw
            == s[GrandpaOffset(layout)..GrandpaOffset(layout) + 32]
  {
  }

  lemma SessionKeysRoundTrip(k: SessionKeys, t: seq<byte>)
    ensures DecodeSessionKeys(k.LayoutOf(), EncodeSessionKeys(k) + t) == Some((k, t))
  {
    var s := EncodeSessionKeys(k) + t;
    var (k', t') := DecodeSessionKeys(k.LayoutOf(), s).value;
    assert |EncodeSessionKeys(k')| == |EncodeSessionKeys(k)|;
    assert EncodeSessionKeys(k') == EncodeSessionKeys(k) && t' == t;
    match k
    case PolkadotSessionKeys(g, b, i, v, p, a) =>
      assert k'.grandpa.raw == s[0..32] == g.raw;
      assert k'.babe.raw == s[32..64] == b.raw;
      assert k'.imOnline.raw == s[64..96] == i.raw;
      assert k'.paraValidator.raw == s[96..128] == v.raw;
      assert k'.paraAssignment.raw == s[128..160] == p.raw;
      assert k'.authorityDiscovery.raw == s[160..192] == a.raw;
    case DarwiniaSessionKeys(b, g, i, a) =>
      assert k'.babe.raw == s[0..32] == b.raw;
      assert k'.grandpa.raw == s[32..64] == g.raw;
      assert k'.imOnline.raw == s[64..96] == i.raw;
      assert k'.authorityDiscovery.raw == s[96..128] == a.raw;
  }

  function EncodeKeyPair(p: (AccountId, SessionKeys)): (s: seq<byte>)
  {
    EncodeAccountId(p.0) + EncodeSessionKeys(p.1)
  }

  /** One element of `QueuedKeys`: a stash id, then one record of the layout. */
  function DecodeKeyPair(layout: Layout, s: seq<byte>): (r: Decoded<(AccountId, SessionKeys)>)
    ensures r.Some? <==> |s| >= 32 + Width(layout)
    ensures r.Some? ==> r.value.0.1.LayoutOf() == layout
    ensures r.Some? ==> EncodeKeyPair(r.value.0) + r.value.1 == s
  {
    match DecodeAccountId(s)
    case None => None
    case Some((stash, s1)) =>
      match DecodeSessionKeys(layout, s1)
      case None => None
      case Some((keys, s2)) => Some(((stash, keys), s2))
  }

  /** The element decoder of the given layout, as a function value. */
  function KeyPairDecoder(layout: Layout): (d: seq<byte> -> Decoded<(AccountId, SessionKeys)>)
    ensures forall s :: d(s) == DecodeKeyPair(layout, s)
  {
    s => DecodeKeyPair(layout, s)
  }

  lemma KeyPairDecoderCanonical(layout: Layout)
    ensures Canonical(KeyPairDecoder(layout), EncodeKeyPair)
  {
  }

  lemma KeyPairDecoderFixedWidth(layout: Layout)
    ensures FixedWidth(KeyPairDecoder(layout), 32 + Width(layout))
  {
    var dec := KeyPairDecoder(layout);
    forall t | dec(t).Some?
      ensures dec(t).value.1 == t[32 + Width(layout)..]
    {
      var (p, rest) := dec(t).value;
      assert |EncodeKeyPair(p)| == 32 + Width(layout);
    }
  }

  /** `QueuedKeys<SK>`: a compact count, then that many pairs. The octets
      read are exactly the encoding of the entries, in order. */
  function DecodeQueuedKeys(layout: Layout, s: seq<byte>): (r: Decoded<QueuedKeys>)
    ensures r.Some? ==> |r.value.0| < 0x1_0000_0000
    ensures r.Some? ==> EncodeVec(EncodeKeyPair, r.value.0) + r.value.1 == s
  {
    KeyPairDecoderCanonical(layout);
    DecodeVecCanonical(KeyPairDecoder(layout), EncodeKeyPair, s);
    DecodeVec(KeyPairDecoder(layout), s)
  }

  /** A pair is the stash in the first 32 octets, then a record of the
      layout, whose `grandpa` key sits `GrandpaOffset` octets further on. */
  lemma KeyPairLayout(layout: Layout, e: seq<byte>)
    requires |e| >= 32 + Width(layout)
    ensures DecodeKeyPair(layout, e).value.0.0.raw == e[..32]
    ensures DecodeKeyPair(layout, e).value.0.1.grandpa.raw
            == e[32 + GrandpaOffset(layout)..64 + GrandpaOffset(layout)]
  {
    AccountIdLayout(e);
    SessionKeysLayout(layout, e[32..]);
  }

  /** Element `i` of a decoded set is the pair decoded at octet `i * (32 + Width)`. */
  lemma QueuedKeyDecodedAt(layout: Layout, s: seq<byte>, n: nat, s1: seq<byte>, qk: QueuedKeys, rest: seq<byte>, i: nat)
    requires DecodeCompact(s) == Some((n, s1))
    requires DecodeQueuedKeys(layout, s) == Some((qk, rest)) && i < |qk|
    ensures 0 <= i * (32 + Width(layout)) && i * (32 + Width(layout)) + 32 + Width(layout) <= |s1|
    ensures DecodeKeyPair(layout, s1[i * (32 + Width(layout))..]).value.0 == qk[i]
  {
    var dec := KeyPairDecoder(layout);
    assert DecodeN(dec, n, s1) == DecodeQueuedKeys(layout, s);
    KeyPairDecoderFixedWidth(layout);
    DecodeNElement(dec, 32 + Width(layout), n, s1, i);
  }

  /** Element `i` of a decoded set: the stash at octet `i * (32 + Width)`,
      followed by a record of the layout whose `grandpa` key sits
      `GrandpaOffset` octets further on. */
  lemma QueuedKeyAt(layout: Layout, s: seq<byte>, n: nat, s1: seq<byte>, qk: QueuedKeys, rest: seq<byte>, i: nat)
    requires DecodeCompact(s) == Some((n, s1))
    requires DecodeQueuedKeys(layout, s) == Some((qk, rest)) && i < |qk|
    ensures var o := i * (32 + Width(layout));
            && 0 <= o && o + 32 + Width(layout) <= |s1|
            && qk[i].0.raw == s1[o..o + 32]
            && qk[i].1.LayoutOf() == layout
            && qk[i].1.grandpa.raw == s1[o + 32 + GrandpaOffset(layout)..o + 64 + GrandpaOffset(layout)]
  {
    QueuedKeyDecodedAt(layout, s, n, s1, qk, rest, i);
    PairAtOffset(layout, s1, i * (32 + Width(layout)), qk[i]);
  }

  /** The pair decoded at octet `o` of `s1`, in terms of `s1`'s own octets. */
  lemma PairAtOffset(layout: Layout, s1: seq<byte>, o: nat, p: (AccountId, SessionKeys))
    requires o + 32 + Width(layout) <= |s1|
    requires DecodeKeyPair(layout, s1[o..]).value.0 == p
    ensures p.0.raw == s1[o..o + 32]
    ensures p.1.LayoutOf() == layout
    ensures p.1.grandpa.raw == s1[o + 32 + GrandpaOffset(layout)..o + 64 + GrandpaOffset(layout)]
  {
    var e := s1[o..];
    KeyPairLayout(layout, e);
    SuffixSlice(s1, o, 0, 32);
    SuffixSlice(s1, o, 32 + GrandpaOffset(layout), 64 + GrandpaOffset(layout));
  }

  lemma SuffixSlice(s: seq<byte>, o: nat, a: nat, b: nat)
    requires o + b <= |s| && a <= b
    ensures s[o..][a..b] == s[o + a..o + b]
  {
  }

  /** After a compact count `n`, the set decodes exactly when `n` elements
      of `32 + Width` octets are present, and it consumes exactly those. */
  lemma QueuedKeysLength(layout: Layout, s: seq<byte>, n: nat, s1: seq<byte>)
    requires DecodeCompact(s) == Some((n, s1))
    ensures var r, used := DecodeQueuedKeys(layout, s), n * (32 + Width(layout));
            && (r.Some? <==> |s1| >= used)
            && (r.Some? ==> |r.value.0| == n && used <= |s1| && r.value.1 == s1[used..])
  {
    KeyPairDecoderFixedWidth(layout);
    DecodeNFixedWidth(KeyPairDecoder(layout), 32 + Width(layout), n, s1);
  }

  /** Every queued entry has the record shape of the layout. */
  ghost predicate OfLayout(layout: Layout, qk: QueuedKeys)
  {
    forall i :: 0 <= i < |qk| ==> qk[i].1.LayoutOf() == layout
  }

  lemma KeyPairRoundTrip(p: (AccountId, SessionKeys), t: seq<byte>)
    ensures DecodeKeyPair(p.1.LayoutOf(), EncodeKeyPair(p) + t) == Some((p, t))
  {
    var rest := EncodeSessionKeys(p.1) + t;
    assert EncodeKeyPair(p) + t == EncodeAccountId(p.0) + rest;
    AccountIdRoundTrip(p.0, rest);
    SessionKeysRoundTrip(p.1, t);
  }

  /** Every validator set of the layout with fewer than 2^32 entries is
      read back from its encoding, in order. */
  lemma QueuedKeysRoundTrip(layout: Layout, qk: QueuedKeys, t: seq<byte>)
    requires OfLayout(layout, qk) && |qk| < 0x1_0000_0000
    ensures DecodeQueuedKeys(layout, EncodeVec(EncodeKeyPair, qk) + t) == Some((qk, t))
  {
    var ok := (p: (AccountId, SessionKeys)) => p.1.LayoutOf() == layout;
    forall p, t' | ok(p)
      ensures KeyPairDecoder(layout)(EncodeKeyPair(p) + t') == Some((p, t'))
    {
      KeyPairRoundTrip(p, t');
    }
    DecodeVecRoundTrip(KeyPairDecoder(layout), EncodeKeyPair, ok, qk, t);
  }
}
