/** `into_ss58`: the SS58 address of a public key under a network prefix.
    The payload is the prefix octet, the key, and the first two octets of
    the Blake2b-512 digest of `"SS58PRE"`, prefix and key; the address is
    its base-58 text. Blake2b-512 and base-58 are parameters. */
module Ss58 {
  import opened Wrappers
  import opened Bytes
  import opened Primitives

  type Digest512 = s: seq<byte> | |s| == 64 witness seq(64, _ => 0)

  /** Blake2b with a 64-octet output. */
  type Blake2b512 = seq<byte> -> Digest512

  /** Base-58 text of an octet string. */
  type Base58 = seq<byte> -> string

  /** The octets of `b"SS58PRE"`. */
  const SS58_PRE: seq<byte> := [0x53, 0x53, 0x35, 0x38, 0x50, 0x52, 0x45]

  /** The network prefix `AccountId`'s `Display` impl uses in the tally. */
  const DARWINIA_NETWORK: byte := 18

  /** The two checksum octets for a prefix and key. */
  function Checksum(blake: Blake2b512, network: byte, key: seq<byte>): (c: seq<byte>)
    ensures |c| == 2
  {
    blake(SS58_PRE + [network] + key)[..2]
  }

  /** The octets `into_ss58` base-58 encodes. For a 32-octet key it has 35:
      octet 0 the prefix, octets 1 to 33 the key, octets 33 to 35 the
      checksum. */
  function Ss58Payload(blake: Blake2b512, key: seq<byte>, network: byte): (r: seq<byte>)
    ensures |r| == |key| + 3
    ensures r[0] == network
    ensures r[1..|key| + 1] == key
    ensures r[|key| + 1..] == Checksum(blake, network, key)
  {
    var account := [network] + key;
    assert SS58_PRE + account == SS58_PRE + [network] + key;
    account + blake(SS58_PRE + account)[..2]
  }

  /** `into_ss58`: for a 32-octet key, the base-58 text of the one payload
      that the checksum check accepts as this prefix and key. */
  function IntoSs58(blake: Blake2b512, base58: Base58, key: seq<byte>, network: byte): (r: string)
    ensures |key| == 32 ==> forall p :: CheckedKey(blake, p) == Some((network, key)) ==> r == base58(p)
  {
    PayloadUnique(blake, key, network);
    base58(Ss58Payload(blake, key, network))
  }

  /** How an `AccountId` is shown in the tally's report lines: the address
      of its octets under the Darwinia prefix. */
  function DisplayAccountId(blake: Blake2b512, base58: Base58, a: AccountId): (r: string)
    ensures forall p :: CheckedKey(blake, p) == Some((DARWINIA_NETWORK, a.raw)) ==> r == base58(p)
  {
    IntoSs58(blake, base58, a.raw, DARWINIA_NETWORK)
  }

  /** Only one payload passes the check as a given prefix and key. */
  lemma PayloadUnique(blake: Blake2b512, key: seq<byte>, network: byte)
    ensures forall p :: CheckedKey(blake, p) == Some((network, key)) ==> p == Ss58Payload(blake, key, network)
  {
    forall p | CheckedKey(blake, p) == Some((network, key)) ensures p == Ss58Payload(blake, key, network) {
      PayloadOfCheckedKey(blake, p);
    }
  }

  /** The reverse of the payload step: a 35-octet payload whose checksum
      matches yields its prefix and key; anything else is rejected. */
  function CheckedKey(blake: Blake2b512, payload: seq<byte>): (r: Option<(byte, Bytes32)>)
    ensures r.Some? ==> |payload| == 35
  {
    if |payload| != 35 then None
    else
      var network := payload[0];
      var key := payload[1..33];
      if payload[33..] == Checksum(blake, network, key) then Some((network, key)) else None
  }

  /** The payload of any prefix and 32-octet key passes the check and
      gives them back. */
  lemma CheckedKeyOfPayload(blake: Blake2b512, key: Bytes32, network: byte)
    ensures CheckedKey(blake, Ss58Payload(blake, key, network)) == Some((network, key))
  {
  }

  /** A payload that passes the check is the payload of what it yields. */
  lemma PayloadOfCheckedKey(blake: Blake2b512, payload: seq<byte>)
    requires CheckedKey(blake, payload).Some?
    ensures var (network, key) := CheckedKey(blake, payload).value;
            Ss58Payload(blake, key, network) == payload
  {
    var (network, key) := CheckedKey(blake, payload).value;
    var p := Ss58Payload(blake, key, network);
    assert p == p[..1] + p[1..33] + p[33..];
    assert payload == payload[..1] + payload[1..33] + payload[33..];
  }

  /** Changing the checksum octets of a payload, and nothing else, makes
      the check fail. */
  lemma CorruptChecksumRejected(blake: Blake2b512, key: Bytes32, network: byte, corrupt: seq<byte>)
    requires |corrupt| == 35
    requires corrupt[..33] == Ss58Payload(blake, key, network)[..33]
    requires corrupt != Ss58Payload(blake, key, network)
    ensures CheckedKey(blake, corrupt).None?
  {
    var p := Ss58Payload(blake, key, network);
    assert corrupt[0] == network && corrupt[1..33] == key;
    assert p == p[..33] + p[33..];
    assert corrupt == corrupt[..33] + corrupt[33..];
  }

  /** Under one prefix, equal addresses of equal-length keys mean equal
      keys, whenever base-58 is injective. */
  lemma IntoSs58Injective(blake: Blake2b512, base58: Base58, k1: seq<byte>, k2: seq<byte>, network: byte)
    requires forall a, b :: base58(a) == base58(b) ==> a == b
    requires |k1| == |k2|
    requires IntoSs58(blake, base58, k1, network) == IntoSs58(blake, base58, k2, network)
    ensures k1 == k2
  {
    var p1 := Ss58Payload(blake, k1, network);
    var p2 := Ss58Payload(blake, k2, network);
    assert p1 == p2;
    assert k1 == p1[1..|k1| + 1];
  }

  /** Given an injective base-58, distinct accounts are shown as distinct
      addresses. */
  lemma DisplayAccountIdInjective(blake: Blake2b512, base58: Base58, a: AccountId, b: AccountId)
    requires forall x, y :: base58(x) == base58(y) ==> x == y
    requires DisplayAccountId(blake, base58, a) == DisplayAccountId(blake, base58, b)
    ensures a == b
  {
    IntoSs58Injective(blake, base58, a.raw, b.raw, DARWINIA_NETWORK);
  }
}
