# grandma — a Dafny model of the GRANDPA vote tally

`grandma` watches a Substrate chain's GRANDPA finality gadget. It subscribes
to two things over one WebSocket:
- finality justifications;
- the storage item `Session::QueuedKeys`, which holds the validator set.

It keeps a map from each validator's GRANDPA key to its stash account and
the number of precommits seen from it. After every justification it prints
that map, filtered by a log level.

This project models the pure logic of that program. Each part below is one
module.

- **SCALE decoding** (`Scale`, `Primitives`, `SessionKeys`, `Justification`).
  - Covers:
    - little-endian `u32` and `u64`;
    - `Compact<u32>` lengths;
    - `Vec<T>`;
    - the fixed-size `Hash`, `AccountId` and `Signature`;
    - both session-key layouts, Polkadot and Darwinia;
    - `QueuedKeys`;
    - `Precommit`, `SignedPrecommit`, `Commit` and `GrandpaJustification`.
  - Every decoder maps an octet sequence to `Option<(value, rest)>` and has an encoder partner. Its contract says the octets it consumed are exactly the encoding of the value it returns. A round-trip lemma closes the other direction.
  - Layout lemmas give exact offsets and lengths.
- **Hex** (`HexCodec`). `hex` writes lowercase digits. `bytes` strips leading `0x` and parses digit pairs the way `u8::from_str_radix` does. Both round trips are proved:
  - `bytes(hex(x)) == x`;
  - `hex(bytes(s)) == s` for every even-length lowercase string (`HexCodec.HexOfFromHex`).
- **Storage key** (`StorageKey`).
  - `twox_128` writes the two XxHash64 digests little-endian into 16 octets.
  - The subscribed key is `0x` followed by the hex of two such hashes. It is shown to read back, through `bytes`, as the two hashes.
- **SS58** (`Ss58`). `into_ss58` is modelled as the 35-octet payload. The payload is:
  - the network prefix;
  - the key;
  - two checksum octets of Blake2b-512 over `"SS58PRE"`, the prefix and the key.

  A checksum verifier is its inverse partner.
- **Tally** (`Tally`, over `Rpc`). The body of the subscription loop is a step function over already-parsed messages.
  - A `state_storage` notification rebuilds the map from the decoded validator set, with every count at zero.
  - A `grandpa_justifications` notification adds one vote per precommit whose id is a key, and yields a report.
  - Anything else changes nothing.
  - The source unwraps every decode, so a payload that fails to decode ends the loop. The model returns `Panic(cause)`.

Hash functions and base-58 are function-typed parameters. Their internals
belong to external crates:
- XxHash64 (`StorageKey.XxHash64`);
- Blake2b-512 (`Ss58.Blake2b512`);
- base-58 (`Ss58.Base58`).

The WebSocket, JSON parsing and console output are outside the model. A
message arrives as an `Rpc.Message`: an envelope holding a method name and an
already-shaped `result`, or `NotRpc` for text that does not parse.

The `Compact<u32>` rules are listed under "Left out" as an assumption.

The code calls `.unwrap()` on both decodes (`src/main.rs:99`,
`src/main.rs:109`) and on `into_inner` (`src/main.rs:165-167`). A payload
that fails to decode therefore ends the loop with a panic, and
`Tally.Step` returns `Panic`.

`src/main.rs` declares its own `SessionKeys`, `GrandpaJustification`,
`Commit`, `SignedPrecommit` and `Precommit` (`src/main.rs:189-221`); the
model uses those definitions. `src/primitives.rs` re-exports the justification
types from the `subgrandpa` crate, which is not part of this model.

## Model

| member | source | states |
|---|---|---|
| Bytes.LittleEndianOfToLittleEndian | src/main.rs:288-289 | Writing a value below 256^n little-endian into n octets and reading them back gives the value. |
| Bytes.ToLittleEndianOfLittleEndian | src/main.rs:288-289 | Every octet string is the n-octet little-endian form of the value it denotes, so the layout is injective. |
| Scale.DecodeBytes | src/main.rs:224 | A fixed `[u8; n]` decodes exactly when n octets remain; it takes those n octets verbatim and leaves the rest. |
| Scale.DecodeU32 | src/main.rs:206 | A `u32` decodes exactly when four octets remain, and the octets read are the value's little-endian encoding. |
| Scale.DecodeU64 | src/main.rs:199 | A `u64` decodes exactly when eight octets remain, and the octets read are the value's little-endian encoding. |
| Scale.U32RoundTrip | src/main.rs:206 | Decoding the encoding of any `u32`, followed by anything, gives back the value and the untouched rest. |
| Scale.U64RoundTrip | src/main.rs:199 | Decoding the encoding of any `u64`, followed by anything, gives back the value and the untouched rest. |
| Scale.DecodeCompact | src/main.rs:207 | A `Vec` length that decodes was written in its one canonical form: the octets read are exactly the encoding of the value. |
| Scale.DecodeCompactSingle | src/main.rs:207 | Mode 0: any prefix octet whose low bits are `00` gives its upper six bits as the value, in its canonical form. |
| Scale.DecodeCompactTwo | src/main.rs:207 | Mode 1 succeeds exactly when two octets are present and the value is at least `0x40`; what is read is canonical. |
| Scale.DecodeCompactFour | src/main.rs:207 | Mode 2 succeeds exactly when four octets are present and the value is at least `0x4000`; what is read is canonical. |
| Scale.DecodeCompactBig | src/main.rs:207 | Mode 3 succeeds exactly for prefix `3`, four more octets, and a value of at least `0x4000_0000`; longer big-integer forms are refused. |
| Scale.CompactLength | src/main.rs:207 | The compact form of n takes 1, 2, 4 or 5 octets, by the thresholds `0x40`, `0x4000` and `0x4000_0000`. |
| Scale.CompactRoundTrip | src/main.rs:207 | Every `u32` is read back from its compact form, whatever follows it. |
| Scale.DecodeN | src/main.rs:207 | Decoding n elements yields exactly n of them. |
| Scale.DecodeVec | src/main.rs:207 | A decoded `Vec` has fewer than 2^32 elements, the most a compact `u32` length can announce. |
| Scale.DecodeNCanonical | src/main.rs:207 | If each element decoder reads exactly its value's encoding, then n elements read exactly the concatenated encodings. |
| Scale.DecodeNRoundTrip | src/main.rs:207 | If each element round-trips, the concatenated encodings of a sequence decode back to that sequence, in order. |
| Scale.DecodeNFixedWidth | src/main.rs:207 | With elements of width w, n of them decode exactly when n*w octets remain, and exactly n*w are consumed. |
| Scale.DecodeNElement | src/main.rs:207 | In a fixed-width run, element i is what decoding at octet i*w yields. |
| Scale.DecodeVecCanonical | src/main.rs:207 | A `Vec` that decodes read exactly the compact length and the elements' encodings. |
| Scale.DecodeVecRoundTrip | src/main.rs:207 | Any sequence of fewer than 2^32 round-tripping elements is read back from its `Vec` encoding. |
| Primitives.DecodeHash | src/primitives.rs:78-79 | A `Hash` decodes exactly when 32 octets remain, and reads exactly its own encoding. |
| Primitives.DecodeAccountId | src/primitives.rs:91-92 | An `AccountId` decodes exactly when 32 octets remain, and reads exactly its own encoding. |
| Primitives.DecodeSignature | src/primitives.rs:121-122 | A `Signature` decodes exactly when 64 octets remain, and reads exactly its own encoding. |
| Primitives.HashLayout | src/primitives.rs:78-79 | A `Hash` is the first 32 octets verbatim, and nothing further is consumed. |
| Primitives.AccountIdLayout | src/primitives.rs:91-92 | An `AccountId` is the first 32 octets verbatim, and nothing further is consumed. |
| Primitives.SignatureLayout | src/primitives.rs:121-122 | A `Signature` is the first 64 octets verbatim, and nothing further is consumed. |
| Primitives.AccountIdByteIdentity | src/primitives.rs:91-92 | Two decoded account ids are equal, as the derived `Eq` and `Hash` compare them, exactly when their 32 input octets are equal. |
| Primitives.HashRoundTrip | src/primitives.rs:78-79 | Every `Hash` is read back from its encoding, whatever follows. |
| Primitives.AccountIdRoundTrip | src/primitives.rs:91-92 | Every `AccountId` is read back from its encoding, whatever follows. |
| Primitives.SignatureRoundTrip | src/primitives.rs:121-122 | Every `Signature` is read back from its encoding, whatever follows. |
| SessionKeys.DecodeSessionKeys | src/session_keys.rs:12-33 | A record decodes exactly when its layout's width remains (192 octets for Polkadot, 128 for Darwinia). It has the requested layout and reads exactly its own encoding. |
| SessionKeys.Width | src/session_keys.rs:12-33 | A record is 192 octets under the Polkadot layout and 128 under Darwinia. |
| SessionKeys.GrandpaOffset | src/session_keys.rs:12-38 | The `grandpa` field sits at a 32-octet boundary inside the record. |
| SessionKeys.SessionKeysLayout | src/session_keys.rs:12-38 | A record consumes its layout's width. `grandpa()` is octets 0..32 under Polkadot and 32..64 under Darwinia. |
| SessionKeys.SessionKeysRoundTrip | src/session_keys.rs:12-33 | Every record of either layout is read back from its field-by-field encoding. |
| SessionKeys.DecodeKeyPair | src/session_keys.rs:6 | A `(stash, keys)` pair decodes exactly when 32 plus the layout's width remain, and reads exactly its own encoding. |
| SessionKeys.KeyPairDecoderFixedWidth | src/session_keys.rs:6 | Pairs of a layout are of fixed width 32 plus the record width. |
| SessionKeys.DecodeQueuedKeys | src/session_keys.rs:6 | A decoded validator set has fewer than 2^32 entries, and the octets read are exactly its `Vec` encoding. |
| SessionKeys.KeyPairLayout | src/session_keys.rs:6 | In a pair, the stash is octets 0..32, and the GRANDPA key is 32 octets at 32 plus the layout's grandpa offset. |
| SessionKeys.QueuedKeyAt | src/primitives.rs:11 | Entry i of a decoded set sits at octet i*(32+width) after the count. Its stash and GRANDPA key are the octets at the stated offsets, and its record has the layout's shape. Order is preserved. |
| SessionKeys.QueuedKeysLength | src/primitives.rs:11 | After a compact count n, the set decodes exactly when n*(32+width) octets follow; it then has n entries and consumes exactly those octets. |
| SessionKeys.KeyPairRoundTrip | src/session_keys.rs:6 | Every pair is read back from its encoding under its record's layout. |
| SessionKeys.QueuedKeysRoundTrip | src/session_keys.rs:6 | Every validator set of one layout with fewer than 2^32 entries is read back, in order, from its encoding. |
| Justification.EncodePrecommit | src/main.rs:217-221 | A precommit's encoding is 36 octets: a 32-octet hash and a 4-octet block number. |
| Justification.EncodeSignedPrecommit | src/main.rs:210-215 | A signed precommit's encoding is 32+4+64+32 = 132 octets. |
| Justification.DecodePrecommit | src/main.rs:217-221 | A precommit decodes exactly when 36 octets remain, and reads exactly its own encoding. |
| Justification.DecodeSignedPrecommit | src/main.rs:210-215 | A signed precommit decodes exactly when 132 octets remain, and reads exactly its own encoding. |
| Justification.DecodePrecommits | src/main.rs:207 | The precommit list has fewer than 2^32 entries and reads exactly its `Vec` encoding. |
| Justification.DecodeCommit | src/main.rs:203-208 | A decoded commit reads exactly the encoding of its target hash, target number and precommit list. |
| Justification.DecodeJustification | src/main.rs:197-201 | A decoded justification reads exactly its round's 8 octets followed by its commit's encoding. |
| Justification.SignedPrecommitLayout | src/main.rs:210-221 | Target hash, target number, signature and id are octets 0..32, 32..36 (little-endian), 36..100 and 100..132. Octets from 132 on are left unread. |
| Justification.SignedPrecommitFixedWidth | src/main.rs:210-215 | Signed precommits are of fixed width 132. |
| Justification.PrecommitRoundTrip | src/main.rs:217-221 | Every precommit is read back from its encoding. |
| Justification.SignedPrecommitRoundTrip | src/main.rs:210-215 | Every signed precommit is read back from its encoding. |
| Justification.CommitRoundTrip | src/main.rs:203-208 | Every commit with fewer than 2^32 precommits is read back from its encoding. |
| Justification.JustificationRoundTrip | src/main.rs:197-201 | Every justification with fewer than 2^32 precommits is read back from its encoding. |
| Justification.CommitLayout | src/main.rs:203-208 | After 36 octets of target and a compact count n, a commit decodes exactly when 132*n octets follow. It then has n precommits and consumes exactly those octets; trailing octets are not rejected. |
| Justification.CommitPrecommitId | src/main.rs:203-215 | The id of precommit i of a decoded commit is octets 132*i+100 .. 132*i+132 after the count. |
| Justification.PrecommitAt | src/main.rs:207-215 | In a decoded run of signed precommits, the id of entry i is the 32 octets ending at 132*(i+1). |
| Justification.CommitTooShort | src/main.rs:203-208 | Fewer than 36 octets, or no valid compact count after them, fails the commit decode. |
| Justification.JustificationLayout | src/main.rs:197-201 | A justification decodes exactly when 8 octets of round precede a commit that decodes. The round is those octets read little-endian. |
| HexCodec.DigitValue | src/main.rs:269 | A character parses as a base-16 digit exactly when it is `0`-`9`, `a`-`f` or `A`-`F`. Its value is below 16. A lowercase digit is the one `hex` writes for its value, and an uppercase digit has the value of its lowercase form. |
| HexCodec.HexOctet | src/main.rs:259 | `{:02x}` writes exactly two lowercase digits, which parse back as the high and the low nibble of the octet. |
| HexCodec.Hex | src/main.rs:257-262 | `hex(x)` has 2·\|x\| characters, every one a lowercase hex digit. |
| HexCodec.TrimHexPrefix | src/main.rs:265 | What is removed is a run of `0x`s, some number n of them, from the front. What remains is the rest of the input and does not itself start with `0x`. |
| HexCodec.ParsePair | src/main.rs:269 | `from_str_radix` on two characters. Without a leading `+`, it succeeds exactly when both are digits, and gives 16 times the first plus the second. With a leading `+`, it succeeds exactly when the second character is a digit, and gives that digit's value. |
| HexCodec.ParsePairs | src/main.rs:267-270 | The parse succeeds exactly when the length is even and every consecutive pair parses. It then yields one octet per pair, and octet k is the parse of characters 2k and 2k+1. |
| HexCodec.FromHex | src/main.rs:264-271 | A string that `bytes` accepts is some n copies of `0x` followed by 2·\|result\| characters, and those characters parse pairwise to the result. Together with `HexCodec.FromHexExactly`, it accepts exactly those strings. |
| HexCodec.FromHexExactly | src/main.rs:264-271 | `bytes` accepts exactly the strings whose text after the leading `0x`s parses pairwise. For any run of `0x`s followed by a rest that does not start with `0x`, the result is the parse of that rest. |
| HexCodec.TrimZeroXs | src/main.rs:265 | Trimming any number of `0x`s in front of a rest that does not start with `0x` gives exactly that rest. |
| HexCodec.DigitValueOfDigits | src/main.rs:259 | Each digit `hex` writes parses back to its value. |
| HexCodec.DigitOfDigitValue | src/main.rs:269 | A lowercase digit is the digit `hex` writes for its parsed value. |
| HexCodec.HexAppend | src/main.rs:257-262 | `hex` of a concatenation is the concatenation of the `hex`es. |
| HexCodec.OctetParses | src/main.rs:259-269 | The two digits written for an octet parse back to it. |
| HexCodec.ParsePairsOfHex | src/main.rs:257-270 | The digit pairs of `hex(x)` parse back to x. |
| HexCodec.FromHexOfHex | src/main.rs:257-271 | `bytes(hex(x)) == x`. |
| HexCodec.FromHexOfPrefixedHex | src/main.rs:257-271 | `bytes("0x" + hex(x)) == x`. |
| HexCodec.PairOfDigits | src/main.rs:259-269 | Two lowercase digits parse to the octet that `hex` writes as exactly those digits. |
| HexCodec.HexOfParsePairs | src/main.rs:257-270 | Every even-length string of lowercase digits parses, and `hex` of the result gives the string back. |
| HexCodec.ParsePairsFails | src/main.rs:269 | A pair that `from_str_radix` refuses, anywhere in the string, fails the whole parse (the source panics). |
| HexCodec.ParsePairsOddLength | src/main.rs:267-269 | An odd number of characters fails the parse (the source's final slice runs past the end and panics). |
| HexCodec.HexOfFromHex | src/main.rs:257-271 | For every even-length string of lowercase digits, `bytes` succeeds and `hex(bytes(s)) == s`. |
| StorageKey.Ascii | src/main.rs:80-81 | A byte-string literal holds one octet per ASCII character, in order. |
| StorageKey.Twox128 | src/main.rs:273-292 | `twox_128` is 16 octets. Octets 0..8 read little-endian are the seed-0 XxHash64 digest, and octets 8..16 the seed-1 digest. |
| StorageKey.StorageKey | src/main.rs:78-82 | The key is 66 characters: `0x` and 64 lowercase digits. Through `bytes`, it reads back as the two `twox_128` hashes. |
| StorageKey.PrefixedHexPair | src/main.rs:78-82 | `0x`, then the hex of a, then the hex of b, is lowercase digits after the prefix, and reads back as a + b. |
| StorageKey.QueuedKeysKey | src/main.rs:78-82 | The subscribed `Session::QueuedKeys` key is 66 characters long. |
| StorageKey.StorageKeyDeterminesHashes | src/main.rs:78-82 | Equal storage keys have equal pallet hashes and equal item hashes. |
| Ss58.Checksum | src/main.rs:302-309 | The checksum is two octets. |
| Ss58.Ss58Payload | src/main.rs:294-311 | The payload has \|key\|+3 octets: the network prefix, then the key, then the two checksum octets of Blake2b-512 over `SS58PRE`, prefix and key. |
| Ss58.IntoSs58 | src/main.rs:294-311 | For a 32-octet key, the address is the base-58 text of the one payload that the checksum check accepts as this prefix and key. |
| Ss58.PayloadUnique | src/main.rs:294-311 | At most one payload passes the check as a given prefix and key: the payload `into_ss58` builds. |
| Ss58.DisplayAccountId | src/main.rs:243-247 | An account is shown as the base-58 text of the one payload that the check accepts as network 18 and the account's 32 octets. |
| Ss58.CheckedKey | src/main.rs:294-311 | Only a 35-octet payload can pass the checksum check. |
| Ss58.CheckedKeyOfPayload | src/main.rs:294-311 | The payload of any prefix and 32-octet key passes the check and yields that prefix and key. |
| Ss58.PayloadOfCheckedKey | src/main.rs:294-311 | A payload that passes the check is the payload of the prefix and key it yields. |
| Ss58.CorruptChecksumRejected | src/main.rs:302-309 | A payload that differs only in its checksum octets fails the check. |
| Ss58.IntoSs58Injective | src/main.rs:294-311 | Given an injective base-58, equal addresses under one prefix come from equal keys of equal length. |
| Ss58.DisplayAccountIdInjective | src/main.rs:243-247 | Given an injective base-58, distinct accounts are shown as distinct text. |
| Rpc.StateStoreRpc.ItemOf | src/primitives.rs:43-45 | `item_of(i)` exists exactly when change i exists and holds at least two strings, and it is `(changes[i][0], changes[i][1])`. |
| Rpc.StateStoreRpc.ItemOfParts | src/primitives.rs:35-45 | `item_of(i)` exists exactly where `value_of(i)` does. There `key_of(i)` exists too, and the item is the pair of the two. |
| Tally.GrandpaKeys | src/main.rs:103-104 | Every queued entry's `grandpa` key belongs to the set of keys the loop inserts. |
| Tally.GrandpaKeysExactly | src/main.rs:103-104 | A key is in that set exactly when some queued entry's `grandpa` field is that key. |
| Tally.Reset | src/main.rs:101-105 | After `clear` and one `insert` per entry, the keys are exactly the set's GRANDPA keys and every count is zero. |
| Tally.ResetKeepsLastStash | src/main.rs:103-105 | When a GRANDPA key repeats, the later entry's stash wins, as `HashMap::insert` overwrites. |
| Tally.Ids | src/main.rs:111 | Lists only the precommits' ids, one per precommit, in order. |
| Tally.Count | src/main.rs:111-113 | Keys and stashes are unchanged. Each count rises by the number of precommits carrying its id, and ids that are not keys are ignored. |
| Tally.Printed | src/main.rs:131-136 | Level 0 prints every line. Level 1 prints a line exactly when the count is positive, and level 2 exactly when it is zero. No other level prints. |
| Tally.Shown | src/main.rs:115-137 | Only entries of the map are shown. Level 0 shows all of them; level 1 exactly those with votes; level 2 exactly those without; any other level none. |
| Tally.ShownPartition | src/main.rs:131-136 | The voted and unvoted views are disjoint and together make up the whole map. |
| Tally.MakeReport | src/main.rs:115-144 | The report carries the round. Its total, the map's size, is the number of voted entries plus the number of unvoted ones. The shown entries are entries of the map and never more than the total; under level 0 there are exactly the total. |
| Tally.OnStateStorage | src/main.rs:95-106 | A validator-set change that succeeds prints nothing. |
| Tally.OnJustification | src/main.rs:107-150 | A justification that decodes keeps the key set and prints exactly one report. |
| Tally.Step | src/main.rs:91-152 | Only the two handled methods can panic or print; anything else leaves the map. A justification prints one report and keeps the key set. A validator-set change prints nothing and leaves every count at zero. |
| Tally.Run | src/main.rs:90-154 | Over a stream, one report is printed per justification notification. A panic needs a handled message somewhere in the stream. A stream of unhandled messages changes nothing. |
| Tally.RunThen | src/main.rs:90-154 | After a panic nothing more runs. Otherwise a later run only appends reports after the ones already printed. |
| Tally.RunOne | src/main.rs:90-154 | A stream of one message is one pass of the loop. |
| Tally.RunAppend | src/main.rs:88-154 | One map is threaded through the loop: running `a + b` runs `a`, then `b` from the map `a` leaves, with `a`'s reports first. A panic in `a` ends the loop before `b`. |
| Tally.OtherMessageNoop | src/main.rs:91-152 | An unparsable message, or one naming any other method, leaves the map as it was and prints nothing. |
| Tally.StateStorageReplaces | src/main.rs:95-106 | A validator-set change that does not panic had a first change whose value is hex of a set that decodes. The new keys are exactly that set's GRANDPA keys. Each holds the stash of its last entry, with count zero. |
| Tally.JustificationPanics | src/main.rs:107-110 | A justification that does not panic had a string result that is hex, and its octets decode as a justification. |
| Tally.StateStorageForgets | src/main.rs:101 | No earlier entry survives a validator-set change: its outcome does not depend on the previous map. |
| Tally.StateStorageDecoded | src/main.rs:95-106 | When the first change's value decodes to a set, the new keys are that set's GRANDPA keys. Each key holds the stash of its last entry, with count zero. |
| Tally.StateStorageTruncated | src/main.rs:97-99 | A set whose count promises more entries than the payload holds ends the loop with a panic, whatever the map held. |
| Tally.JustificationCounts | src/main.rs:107-144 | A justification that decodes keeps every key and stash, and adds to each count its number of precommits. Its report carries the round and the map's size. |
| Tally.JustificationTruncated | src/main.rs:108-109 | A justification whose precommits outrun the payload ends the loop with a panic. |
| Tally.StepMonotone | src/main.rs:91-152 | A message that is not a validator-set change keeps every key and stash and lowers no count. |
| Tally.CountsMonotone | src/main.rs:88-153 | Between two validator-set changes, over any run of messages, no key or stash changes and no count decreases. |
| Tally.VotedIffPrecommitted | src/main.rs:111-113 | From zero counts, an entry has votes exactly when its key is among the precommit ids. |
| Tally.VotedFromZero | src/main.rs:111-136 | From zero counts, the voted view keeps exactly the keys among the precommit ids, and the unvoted view the rest. |
| Tally.VotedAfterReset | src/main.rs:101-136 | After a reset, the voted entries are exactly the GRANDPA keys that appear among the precommits since, and the unvoted entries are the other keys. |
| Tally.OnlyIdsCount | src/main.rs:108-113 | Signatures and targets are never read. Two justification payloads that decode to the same round and the same ids, in order, have the same outcome. |
| Tally.LogLevel | src/main.rs:40-51 | Exactly the three level names clap admits are accepted, each mapped to a level of at most 2. |
| Tally.LogLevelInjective | src/main.rs:46-51 | Distinct level names select distinct levels. |
| Tally.LogLevelViews | src/main.rs:46-51 | `all` shows the whole map, `voted` exactly the entries with votes, and `unvoted` exactly those without. |

## Left out

- WebSocket connection, the subscription requests and the endless `loop` (`src/main.rs:64-90`): I/O. The loop is `Tally.Run` over a finite message sequence.
- The `ws` address normalisation (`src/main.rs:57-63`): string handling ahead of the connection, which is not modelled.
- JSON parsing and `serde` (`RpcResult`, `into_inner`, derives): messages arrive already shaped as `Rpc.Message`. A `result` of the wrong shape is `OtherValue`, and `into_inner` on it panics.
- clap argument parsing and `colored` output. Only the level mapping (`Tally.LogLevel`) and the set of printed entries (`Tally.Shown`) are modelled. Column widths and colours are not.
- The internals of XxHash64, Blake2b-512 and base-58: external crates, taken as parameters.
- `Hash` and `AccountId` `Debug`/`Display` formatting (`src/primitives.rs:80-108`, `src/main.rs:225-247`): text output. `Ss58.DisplayAccountId` gives the `src/main.rs` form with network 18.
- `AccountId::deserialize` (`src/primitives.rs:109-119`): it goes through the external `subcryptor` SS58 decoder, which is not part of this model. `Ss58.CheckedKey` is only the inverse of this project's `Ss58.Ss58Payload`, not a model of that decoder.
- The `unsafe` global `SS58_PREFIX` (`src/primitives.rs:8`): the prefix is an explicit parameter.
- The `subgrandpa` justification types (`src/primitives.rs:12-14`): their crate is not part of this model. The inline definitions in `src/main.rs:197-221` are modelled instead.
- `RoundState`, `Prevotes` and `Precommits` (`src/primitives.rs:48-68`): plain JSON records that no operation in the core computes with.
- Tally.Count: vote counts are unbounded; the source's `u32` counter would overflow only after 2^32 precommits for one validator between two validator-set changes.
- Non-ASCII text given to `bytes`: the source would panic on a slice that splits a multi-octet character. The model treats characters as units and fails only on pairs that do not parse.
- `Compact<u32>` canonical form: the codec crate (`parity-scale-codec`) and its version are not part of this model. `Scale.DecodeCompact` assumes the rules of the SCALE codec's canonical decoding. Mode `0b00` is one octet. Mode `0b01` is two octets, for values from `0x40`. Mode `0b10` is four octets, for values from `0x4000`. Mode `0b11` is prefix octet `3` and four octets, for values from `0x4000_0000`. A value written in a longer form than it needs is rejected.
