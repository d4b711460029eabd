/** The GRANDPA justification as the tally decodes it: a round number and
    a commit, whose precommits each carry the authority id that cast them. */
module Justification {
  import opened Wrappers
  import opened Bytes
  import opened Scale
  import opened Primitives

  /** `BlockNumber` is a `u32`. */
  type BlockNumber = u32

  datatype Precommit = Precommit(targetHash: Hash, targetNumber: BlockNumber)

  datatype SignedPrecommit = SignedPrecommit(precommit: Precommit, signature: Signature, id: AccountId)

  datatype Commit = Commit(targetHash: Hash, targetNumber: BlockNumber, precommits: seq<SignedPrecommit>)

  datatype GrandpaJustification = GrandpaJustification(round: u64, commit: Commit)

  /** Octets a `SignedPrecommit` takes: 32 + 4 + 64 + 32. */
  const SIGNED_PRECOMMIT_WIDTH: nat := 132

  function EncodePrecommit(p: Precommit): (s: seq<byte>)
    ensures |s| == 36
  {
    EncodeHash(p.targetHash) + EncodeU32(p.targetNumber)
  }

  function EncodeSignedPrecommit(p: SignedPrecommit): (s: seq<byte>)
    ensures |s| == SIGNED_PRECOMMIT_WIDTH
  {
    EncodePrecommit(p.precommit) + EncodeSignature(p.signature) + EncodeAccountId(p.id)
  }

  function EncodeCommit(c: Commit): (s: seq<byte>)
    requires |c.precommits| < 0x1_0000_0000
  {
    EncodeHash(c.targetHash) + EncodeU32(c.targetNumber) + EncodeVec(EncodeSignedPrecommit, c.precommits)
  }

  function EncodeJustification(j: GrandpaJustification): (s: seq<byte>)
    requires |j.commit.precommits| < 0x1_0000_0000
  {
    EncodeU64(j.round) + EncodeCommit(j.commit)
  }

  function DecodePrecommit(s: seq<byte>): (r: Decoded<Precommit>)
    ensures r.Some? <==> |s| >= 36
    ensures r.Some? ==> EncodePrecommit(r.value.0) + r.value.1 == s
  {
    match DecodeHash(s)
    case None => None
    case Some((h, s1)) =>
      match DecodeU32(s1)
      case None => None
      case Some((n, s2)) => Some((Precommit(h, n), s2))
  }

  function DecodeSignedPrecommit(s: seq<byte>): (r: Decoded<SignedPrecommit>)
    ensures r.Some? <==> |s| >= SIGNED_PRECOMMIT_WIDTH
    ensures r.Some? ==> EncodeSignedPrecommit(r.value.0) + r.value.1 == s
  {
    match DecodePrecommit(s)
    case None => None
    case Some((p, s1)) =>
      match DecodeSignature(s1)
      case None => None
      case Some((g, s2)) =>
        match DecodeAccountId(s2)
        case None => None
        case Some((id, s3)) =>
          SignedPrecommitEncoding(SignedPrecommit(p, g, id), s3);
          Some((SignedPrecommit(p, g, id), s3))
  }

  /** The target, the signature and the id are written one after another. */
  lemma SignedPrecommitEncoding(p: SignedPrecommit, t: seq<byte>)
    ensures EncodeSignedPrecommit(p) + t
            == EncodePrecommit(p.precommit) + (EncodeSignature(p.signature) + (EncodeAccountId(p.id) + t))
  {
  }

  /** The precommit list of a commit: a `Vec` of signed precommits. */
  function DecodePrecommits(s: seq<byte>): (r: Decoded<seq<SignedPrecommit>>)
    ensures r.Some? ==> |r.value.0| < 0x1_0000_0000
    ensures r.Some? ==> EncodeVec(EncodeSignedPrecommit, r.value.0) + r.value.1 == s
  {
    DecodeVecCanonical(DecodeSignedPrecommit, EncodeSignedPrecommit, s);
    DecodeVec(DecodeSignedPrecommit, s)
  }

  function DecodeCommit(s: seq<byte>): (r: Decoded<Commit>)
    ensures r.Some? ==> |r.value.0.precommits| < 0x1_0000_0000
    ensures r.Some? ==> EncodeCommit(r.value.0) + r.value.1 == s
  {
    match DecodeHash(s)
    case None => None
    case Some((h, s1)) =>
      match DecodeU32(s1)
      case None => None
      case Some((n, s2)) =>
        match DecodePrecommits(s2)
        case None => None
        case Some((ps, s3)) =>
          CommitEncoding(Commit(h, n, ps), s3);
          Some((Commit(h, n, ps), s3))
  }

  /** The three fields of a commit are written one after another. */
  lemma CommitEncoding(c: Commit, t: seq<byte>)
    requires |c.precommits| < 0x1_0000_0000
    ensures EncodeCommit(c) + t
            == EncodeHash(c.targetHash) + (EncodeU32(c.targetNumber) + (EncodeVec(EncodeSignedPrecommit, c.precommits) + t))
  {
  }

  function DecodeJustification(s: seq<byte>): (r: Decoded<GrandpaJustification>)
    ensures r.Some? ==> |r.value.0.commit.precommits| < 0x1_0000_0000
    ensures r.Some? ==> EncodeJustification(r.value.0) + r.value.1 == s
  {
    match DecodeU64(s)
    case None => None
    case Some((round, s1)) =>
      match DecodeCommit(s1)
      case None => None
      case Some((c, s2)) => Some((GrandpaJustification(round, c), s2))
  }

  /** A signed precommit takes exactly 132 octets: target hash, target
      number, signature, then the authority id in octets 100 to 132. */
  lemma SignedPrecommitLayout(s: seq<byte>)
    requires |s| >= SIGNED_PRECOMMIT_WIDTH
    ensures var (p, rest) := DecodeSignedPrecommit(s).value;
            && p.precommit.targetHash.raw == s[..32]
            && p.precommit.targetNumber == LittleEndian(s[32..36])
            && p.signature.raw == s[36..100]
            && p.id.raw == s[100..132]
            && rest == s[132..]
  {
    var (p, rest) := DecodeSignedPrecommit(s).value;
    assert EncodeSignedPrecommit(p) + rest == s;
    assert EncodeU32(p.precommit.targetNumber) == s[32..36];
    Pow256Widths();
    LittleEndianOfToLittleEndian(p.precommit.targetNumber, 4);
  }

  lemma SignedPrecommitFixedWidth()
    ensures FixedWidth(DecodeSignedPrecommit, SIGNED_PRECOMMIT_WIDTH)
  {
    forall s | DecodeSignedPrecommit(s).Some?
      ensures DecodeSignedPrecommit(s).value.1 == s[SIGNED_PRECOMMIT_WIDTH..]
    {
      SignedPrecommitLayout(s);
    }
  }

  lemma PrecommitRoundTrip(p: Precommit, t: seq<byte>)
    ensures DecodePrecommit(EncodePrecommit(p) + t) == Some((p, t))
  {
    var rest := EncodeU32(p.targetNumber) + t;
    assert EncodePrecommit(p) + t == EncodeHash(p.targetHash) + rest;
    HashRoundTrip(p.targetHash, rest);
    U32RoundTrip(p.targetNumber, t);
  }

  lemma SignedPrecommitRoundTrip(p: SignedPrecommit, t: seq<byte>)
    ensures DecodeSignedPrecommit(EncodeSignedPrecommit(p) + t) == Some((p, t))
  {
    var r2 := EncodeAccountId(p.id) + t;
    var r1 := EncodeSignature(p.signature) + r2;
    assert EncodeSignedPrecommit(p) + t == EncodePrecommit(p.precommit) + r1;
    PrecommitRoundTrip(p.precommit, r1);
    SignatureRoundTrip(p.signature, r2);
    AccountIdRoundTrip(p.id, t);
  }

  lemma SignedPrecommitRoundTrips()
    ensures RoundTrips(DecodeSignedPrecommit, EncodeSignedPrecommit, _ => true)
  {
    forall p, t ensures DecodeSignedPrecommit(EncodeSignedPrecommit(p) + t) == Some((p, t)) {
      SignedPrecommitRoundTrip(p, t);
    }
  }

  /** Every commit with fewer than 2^32 precommits is read back from its
      encoding. */
  lemma CommitRoundTrip(c: Commit, t: seq<byte>)
    requires |c.precommits| < 0x1_0000_0000
    ensures DecodeCommit(EncodeCommit(c) + t) == Some((c, t))
  {
    var r2 := EncodeVec(EncodeSignedPrecommit, c.precommits) + t;
    var r1 := EncodeU32(c.targetNumber) + r2;
    assert EncodeCommit(c) + t == EncodeHash(c.targetHash) + r1;
    HashRoundTrip(c.targetHash, r1);
    U32RoundTrip(c.targetNumber, r2);
    SignedPrecommitRoundTrips();
    DecodeVecRoundTrip(DecodeSignedPrecommit, EncodeSignedPrecommit, _ => true, c.precommits, t);
  }

  /** Every justification with fewer than 2^32 precommits is read back from
      its encoding. */
  lemma JustificationRoundTrip(j: GrandpaJustification, t: seq<byte>)
    requires |j.commit.precommits| < 0x1_0000_0000
    ensures DecodeJustification(EncodeJustification(j) + t) == Some((j, t))
  {
    var rest := EncodeCommit(j.commit) + t;
    assert EncodeJustification(j) + t == EncodeU64(j.round) + rest;
    U64RoundTrip(j.round, rest);
    CommitRoundTrip(j.commit, t);
  }

  /** A commit is 36 octets of target, a compact count `n`, then `n`
      precommits of 132 octets: it decodes exactly when all of them are
      present, consumes exactly that much, and precommit `i` carries the
      authority id found 100 octets into its slot. */
  lemma CommitLayout(s: seq<byte>, n: nat, t: seq<byte>)
    requires |s| >= 36 && DecodeCompact(s[36..]) == Some((n, t))
    ensures DecodeCommit(s).Some? <==> |t| >= SIGNED_PRECOMMIT_WIDTH * n
    ensures DecodeCommit(s).Some? ==>
              && |DecodeCommit(s).value.0.precommits| == n
              && DecodeCommit(s).value.1 == t[SIGNED_PRECOMMIT_WIDTH * n..]
  {
    assert DecodeCommit(s) == (match DecodeN(DecodeSignedPrecommit, n, t)
                               case None => None
                               case Some((ps, rest)) =>
                                 Some((Commit(Hash(s[..32]), LittleEndian(s[32..36]), ps), rest))) by {
      HashLayout(s);
      Pow256Widths();
      assert s[32..][..4] == s[32..36];
    }
    SignedPrecommitFixedWidth();
    DecodeNFixedWidth(DecodeSignedPrecommit, SIGNED_PRECOMMIT_WIDTH, n, t);
    assert n * SIGNED_PRECOMMIT_WIDTH == SIGNED_PRECOMMIT_WIDTH * n;
  }

  /** The precommits of a decoded commit are the run of precommits that
      follows the count. */
  lemma CommitPrecommits(s: seq<byte>, n: nat, t: seq<byte>)
    requires |s| >= 36 && DecodeCompact(s[36..]) == Some((n, t))
    requires DecodeCommit(s).Some?
    ensures DecodeN(DecodeSignedPrecommit, n, t).Some?
    ensures DecodeCommit(s).value.0.precommits == DecodeN(DecodeSignedPrecommit, n, t).value.0
  {
    HashLayout(s);
    assert s[32..][..4] == s[32..36];
    assert s[32..][4..] == s[36..];
  }

  /** Precommit `i` of a decoded commit carries the authority id in octets
      `132 * i + 100` to `132 * i + 132` after the count. */
  lemma CommitPrecommitId(s: seq<byte>, n: nat, t: seq<byte>, i: nat)
    requires |s| >= 36 && DecodeCompact(s[36..]) == Some((n, t))
    requires DecodeCommit(s).Some? && i < n
    ensures SIGNED_PRECOMMIT_WIDTH * i + SIGNED_PRECOMMIT_WIDTH <= |t|
    ensures DecodeCommit(s).value.0.precommits[i].id.raw
            == t[SIGNED_PRECOMMIT_WIDTH * i + 100..SIGNED_PRECOMMIT_WIDTH * i + SIGNED_PRECOMMIT_WIDTH]
  {
    CommitPrecommits(s, n, t);
    PrecommitAt(n, t, i);
  }

  lemma PrecommitAt(n: nat, t: seq<byte>, i: nat)
    requires DecodeN(DecodeSignedPrecommit, n, t).Some? && i < n
    ensures SIGNED_PRECOMMIT_WIDTH * i + SIGNED_PRECOMMIT_WIDTH <= |t|
    ensures DecodeN(DecodeSignedPrecommit, n, t).value.0[i].id.raw
            == t[SIGNED_PRECOMMIT_WIDTH * i + 100..SIGNED_PRECOMMIT_WIDTH * i + SIGNED_PRECOMMIT_WIDTH]
  {
    SignedPrecommitFixedWidth();
    DecodeNElement(DecodeSignedPrecommit, SIGNED_PRECOMMIT_WIDTH, n, t, i);
    var o := i * SIGNED_PRECOMMIT_WIDTH;
    assert o == SIGNED_PRECOMMIT_WIDTH * i;
    SignedPrecommitLayout(t[o..]);
    assert t[o..][100..132] == t[o + 100..o + 132];
  }

  /** A commit needs its 36 octets of target and a readable count. */
  lemma CommitTooShort(s: seq<byte>)
    requires |s| < 36 || DecodeCompact(s[36..]).None?
    ensures DecodeCommit(s).None?
  {
    if |s| >= 36 {
      HashLayout(s);
      assert s[32..][4..] == s[36..];
    }
  }

  /** A justification is an eight-octet little-endian round, then a commit;
      it decodes exactly when the commit after the round does. */
  lemma JustificationLayout(s: seq<byte>)
    ensures DecodeJustification(s).Some? <==> |s| >= 8 && DecodeCommit(s[8..]).Some?
    ensures DecodeJustification(s).Some? ==>
              && DecodeJustification(s).value.0.round == LittleEndian(s[..8])
              && DecodeJustification(s).value.0.commit == DecodeCommit(s[8..]).value.0
              && DecodeJustification(s).value.1 == DecodeCommit(s[8..]).value.1
  {
    if |s| >= 8 {
      var (round, s1) := DecodeU64(s).value;
      assert EncodeU64(round) == s[..8] && s1 == s[8..];
      Pow256Widths();
      LittleEndianOfToLittleEndian(round, 8);
    }
  }
}
