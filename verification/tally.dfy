/** The vote tally of the subscription loop: a map from GRANDPA authority
    id to the validator's stash and the number of precommits seen from it.
    A validator-set change rebuilds the map with every count at zero; a
    justification adds one per precommit whose id is a key and prints a
    report; any other message changes nothing. The source unwraps every
    decode, so a bad payload ends the loop: `Panic`. */
module Tally {
  import opened Wrappers
  import opened Bytes
  import opened Scale
  import opened Primitives
  import opened SessionKeys
  import opened Justification
  import opened HexCodec
  import opened Rpc

  /** The value of a tally entry: the stash and its vote count. */
  datatype Vote = Vote(stash: AccountId, count: nat)

  type Votes = map<AccountId, Vote>

  /** What one justification prints: the entries shown under the log
      level, the round, and the number of validators. */
  datatype Report = Report(shown: Votes, round: u64, total: nat)

  /** Why the loop panicked. */
  datatype Cause =
    | BadResult         // `into_inner` on a result of the wrong shape
    | NoChange          // `item_of(0)` on too few changes
    | BadHex            // `bytes` on a malformed hex string
    | BadQueuedKeys     // the validator set did not decode
    | BadJustification  // the justification did not decode

  datatype Outcome = Next(votes: Votes, reports: seq<Report>) | Panic(cause: Cause)

  /** The GRANDPA keys of a validator set. */
  function GrandpaKeys(qk: QueuedKeys): (keys: set<AccountId>)
    ensures forall i :: 0 <= i < |qk| ==> qk[i].1.grandpa in keys
  {
    set i | 0 <= i < |qk| :: qk[i].1.grandpa
  }

  /** The set holds the GRANDPA key of every entry and nothing else. */
  lemma GrandpaKeysExactly(qk: QueuedKeys, k: AccountId)
    ensures k in GrandpaKeys(qk) <==> exists i :: 0 <= i < |qk| && qk[i].1.grandpa == k
  {
  }

  /** Entry `i` is the last in the set with its GRANDPA key. */
  ghost predicate LastWithKey(qk: QueuedKeys, i: int)
  {
    0 <= i < |qk| && forall j :: i < j < |qk| ==> qk[j].1.grandpa != qk[i].1.grandpa
  }

  /** The map after `clear` and one `insert` per queued entry, in order. */
  function Reset(qk: QueuedKeys): (v: Votes)
    ensures v.Keys == GrandpaKeys(qk)
    ensures forall k :: k in v ==> v[k].count == 0
  {
    if |qk| == 0 then map[]
    else
      var last := |qk| - 1;
      var v := Reset(qk[..last]);
      assert GrandpaKeys(qk) == GrandpaKeys(qk[..last]) + {qk[last].1.grandpa} by {
        forall k | k in GrandpaKeys(qk) ensures k in GrandpaKeys(qk[..last]) + {qk[last].1.grandpa} {
          var i :| 0 <= i < |qk| && qk[i].1.grandpa == k;
          if i < last {
            assert qk[..last][i] == qk[i];
          }
        }
        forall k | k in GrandpaKeys(qk[..last]) ensures k in GrandpaKeys(qk) {
          var i :| 0 <= i < last && qk[..last][i].1.grandpa == k;
          assert qk[i] == qk[..last][i];
        }
      }
      v[qk[last].1.grandpa := Vote(qk[last].0, 0)]
  }

  /** A duplicated GRANDPA key keeps the stash of its last entry, as a
      later `HashMap::insert` overwrites an earlier one. */
  lemma {:induction false} ResetKeepsLastStash(qk: QueuedKeys, i: int)
    requires LastWithKey(qk, i)
    ensures Reset(qk)[qk[i].1.grandpa] == Vote(qk[i].0, 0)
  {
    var last := |qk| - 1;
    if i < last {
      var prev := qk[..last];
      assert Reset(qk) == Reset(prev)[qk[last].1.grandpa := Vote(qk[last].0, 0)];
      assert qk[last].1.grandpa != qk[i].1.grandpa;
      assert prev[i] == qk[i];
      assert LastWithKey(qk[..last], i) by {
        forall j | i < j < last ensures qk[..last][j].1.grandpa != qk[..last][i].1.grandpa {
          assert qk[..last][j] == qk[j];
        }
      }
      ResetKeepsLastStash(qk[..last], i);
    }
  }

  /** The authority ids of a justification's precommits, in order. */
  function Ids(j: GrandpaJustification): (ids: seq<AccountId>)
    ensures |ids| == |j.commit.precommits|
    ensures forall i :: 0 <= i < |ids| ==> ids[i] == j.commit.precommits[i].id
  {
    seq(|j.commit.precommits|, i requires 0 <= i < |j.commit.precommits| => j.commit.precommits[i].id)
  }

  /** One `and_modify` per precommit: an id that is a key gains a vote,
      any other id is ignored. Keys and stashes never change, and each
      count rises by the number of precommits carrying its id. */
  function Count(votes: Votes, ids: seq<AccountId>): (v: Votes)
    ensures v.Keys == votes.Keys
    ensures forall k :: k in v ==> v[k].stash == votes[k].stash
    ensures forall k :: k in v ==> v[k].count == votes[k].count + multiset(ids)[k]
  {
    if |ids| == 0 then votes
    else
      var last := |ids| - 1;
      var v := Count(votes, ids[..last]);
      var id := ids[last];
      assert ids == ids[..last] + [id];
      assert multiset(ids) == multiset(ids[..last]) + multiset{id};
      if id in v then v[id := Vote(v[id].stash, v[id].count + 1)] else v
  }

  /** Whether a report line is printed for a count under a log level:
      0 prints every entry, 1 those with votes, 2 those without, and any
      other level nothing. */
  function Printed(log: byte, count: nat): (p: bool)
    ensures p ==> log <= 2
    ensures log == 0 ==> p
    ensures log == 1 || log == 2 ==> (p <==> ((count > 0) == (log == 1)))
  {
    log == 0 || (log == 1 && count > 0) || (log == 2 && count == 0)
  }

  /** The entries a report prints under a log level. */
  function Shown(log: byte, votes: Votes): (shown: Votes)
    ensures forall k :: k in shown ==> k in votes && shown[k] == votes[k]
    ensures log == 0 ==> shown == votes
    ensures log == 1 ==> forall k :: k in votes ==> (k in shown <==> votes[k].count > 0)
    ensures log == 2 ==> forall k :: k in votes ==> (k in shown <==> votes[k].count == 0)
    ensures log > 2 ==> shown == map[]
  {
    map k | k in votes && Printed(log, votes[k].count) :: votes[k]
  }

  /** The voted and unvoted views split the map: disjoint, and together
      the whole. */
  lemma ShownPartition(votes: Votes)
    ensures Shown(1, votes).Keys !! Shown(2, votes).Keys
    ensures Shown(1, votes) + Shown(2, votes) == votes
  {
  }

  /** A subset is no larger than its superset. */
  lemma {:induction false} SubsetCardinality<T>(a: set<T>, b: set<T>)
    requires a <= b
    ensures |a| <= |b|
  {
    if a != {} {
      var x :| x in a;
      SubsetCardinality(a - {x}, b - {x});
    }
  }

  /** The report printed after a justification. */
  function MakeReport(log: byte, votes: Votes, round: u64): (r: Report)
    ensures r.round == round
    ensures r.total == |Shown(1, votes)| + |Shown(2, votes)|
    ensures r.shown.Keys <= votes.Keys && |r.shown| <= r.total
    ensures log == 0 ==> |r.shown| == r.total
  {
    ShownPartition(votes);
    assert votes.Keys == Shown(1, votes).Keys + Shown(2, votes).Keys;
    assert |votes.Keys| == |Shown(1, votes).Keys| + |Shown(2, votes).Keys|;
    assert Shown(log, votes).Keys <= votes.Keys;
    SubsetCardinality(Shown(log, votes).Keys, votes.Keys);
    Report(Shown(log, votes), round, |votes|)
  }

  /** The `"state_storage"` arm: decode the value of the first change as
      the validator set and rebuild the map from it. */
  function OnStateStorage(layout: Layout, result: RpcValue): (r: Outcome)
    ensures r.Next? ==> r.reports == [] && forall k :: k in r.votes ==> r.votes[k].count == 0
  {
    if !result.Changes? then Panic(BadResult)
    else
      match result.rpc.ItemOf(0)
      case None => Panic(NoChange)
      case Some((_, value)) =>
        match FromHex(value)
        case None => Panic(BadHex)
        case Some(bs) =>
          match DecodeQueuedKeys(layout, bs)
          case None => Panic(BadQueuedKeys)
          case Some((qk, _)) => Next(Reset(qk), [])
  }

  /** The `"grandpa_justifications"` arm: decode the justification, count
      its precommits, and report. */
  function OnJustification(log: byte, votes: Votes, result: RpcValue): (r: Outcome)
    ensures r.Next? ==> r.votes.Keys == votes.Keys && |r.reports| == 1
  {
    if !result.Text? then Panic(BadResult)
    else
      match FromHex(result.text)
      case None => Panic(BadHex)
      case Some(bs) =>
        match DecodeJustification(bs)
        case None => Panic(BadJustification)
        case Some((j, _)) =>
          var v := Count(votes, Ids(j));
          Next(v, [MakeReport(log, v, j.round)])
  }

  /** Whether a message names one of the two methods the loop acts on. */
  predicate Handled(m: Message)
  {
    m.Envelope? && (m.rpc.name == STATE_STORAGE || m.rpc.name == GRANDPA_JUSTIFICATIONS)
  }

  /** Whether a message is a justification notification. */
  predicate IsJustification(m: Message)
  {
    m.Envelope? && m.rpc.name == GRANDPA_JUSTIFICATIONS
  }

  /** One pass of the loop body: only the two handled methods can panic or
      print; a justification prints one report and keeps the key set; a
      validator-set change prints nothing and zeroes every count. */
  function Step(layout: Layout, log: byte, votes: Votes, m: Message): (r: Outcome)
    ensures !Handled(m) ==> r == Next(votes, [])
    ensures r.Panic? ==> Handled(m)
    ensures r.Next? ==> (|r.reports| == if IsJustification(m) then 1 else 0)
    ensures r.Next? && !IsReset(m) ==> r.votes.Keys == votes.Keys
    ensures r.Next? && IsReset(m) ==> forall k :: k in r.votes ==> r.votes[k].count == 0
  {
    match m
    case NotRpc => Next(votes, [])
    case Envelope(RpcResult(name, result)) =>
      if name == STATE_STORAGE then OnStateStorage(layout, result)
      else if name == GRANDPA_JUSTIFICATIONS then OnJustification(log, votes, result)
      else Next(votes, [])
  }

  /** The loop over a finite stream of messages, from a given map; the
      first panic ends it. */
  function Run(layout: Layout, log: byte, votes: Votes, ms: seq<Message>): (r: Outcome)
    ensures r.Next? ==> |r.reports| == Justifications(ms)
    ensures r.Panic? ==> exists i :: 0 <= i < |ms| && Handled(ms[i])
    ensures (forall i :: 0 <= i < |ms| ==> !Handled(ms[i])) ==> r == Next(votes, [])
    decreases |ms|
  {
    if |ms| == 0 then Next(votes, [])
    else
      match Step(layout, log, votes, ms[0])
      case Panic(c) =>
        assert Handled(ms[0]);
        Panic(c)
      case Next(v1, r1) =>
        assert forall i :: 0 <= i < |ms| - 1 ==> ms[1..][i] == ms[i + 1];
        match Run(layout, log, v1, ms[1..])
        case Panic(c) => Panic(c)
        case Next(v2, r2) => Next(v2, r1 + r2)
  }

  /** Continue a run: a panic stays a panic; otherwise run `b` from the
      map reached so far and print its reports after the earlier ones. */
  function RunThen(layout: Layout, log: byte, first: Outcome, b: seq<Message>): (r: Outcome)
    ensures first.Panic? ==> r == first
    ensures r.Next? ==> first.Next? && |first.reports| <= |r.reports| && r.reports[..|first.reports|] == first.reports
  {
    match first
    case Panic(c) => Panic(c)
    case Next(v, rs) =>
      match Run(layout, log, v, b)
      case Panic(c) => Panic(c)
      case Next(v2, r2) =>
        assert (rs + r2)[..|rs|] == rs;
        Next(v2, rs + r2)
  }

  /** A stream of one message is one step. */
  lemma RunOne(layout: Layout, log: byte, votes: Votes, m: Message)
    ensures Run(layout, log, votes, [m]) == Step(layout, log, votes, m)
  {
    assert [m][1..] == [];
    match Step(layout, log, votes, m)
    case Panic(c) =>
    case Next(v, rs) =>
      assert rs + [] == rs;
  }

  /** One map is threaded through the whole stream: running `a + b` is
      running `a`, then `b` from the map `a` leaves, with `a`'s reports
      printed first; a panic in `a` ends the run before `b`. */
  lemma {:induction false} RunAppend(layout: Layout, log: byte, votes: Votes, a: seq<Message>, b: seq<Message>)
    ensures Run(layout, log, votes, a + b) == RunThen(layout, log, Run(layout, log, votes, a), b)
    decreases |a|
  {
    if |a| == 0 {
      assert a + b == b;
      match Run(layout, log, votes, b)
      case Panic(c) =>
      case Next(v2, r2) =>
        assert [] + r2 == r2;
    } else {
      assert (a + b)[0] == a[0];
      assert (a + b)[1..] == a[1..] + b;
      match Step(layout, log, votes, a[0])
      case Panic(c) =>
      case Next(v1, r1) =>
        RunAppend(layout, log, v1, a[1..], b);
        match Run(layout, log, v1, a[1..])
        case Panic(c) =>
        case Next(va, ra) =>
          match Run(layout, log, va, b)
          case Panic(c) =>
          case Next(vb, rb) =>
            assert r1 + (ra + rb) == (r1 + ra) + rb;
    }
  }

  /** The number of justification notifications in a stream. */
  function Justifications(ms: seq<Message>): nat
  {
    if |ms| == 0 then 0
    else (if IsJustification(ms[0]) then 1 else 0) + Justifications(ms[1..])
  }

  /** Whether a message is a validator-set change. */
  predicate IsReset(m: Message)
  {
    m.Envelope? && m.rpc.name == STATE_STORAGE
  }

  /** A message that does not parse, or names another method, leaves the
      map as it was and prints nothing. */
  lemma OtherMessageNoop(layout: Layout, log: byte, votes: Votes, m: Message)
    requires m.NotRpc? || (m.rpc.name != STATE_STORAGE && m.rpc.name != GRANDPA_JUSTIFICATIONS)
    ensures Step(layout, log, votes, m) == Next(votes, [])
  {
  }

  /** A validator-set change that does not panic found a first change
      whose value decodes as a validator set, and replaced the map by one
      whose keys are exactly that set's GRANDPA keys, each with count zero
      and the stash of the last entry with that key. */
  lemma StateStorageReplaces(layout: Layout, log: byte, votes: Votes, m: Message)
    requires IsReset(m) && Step(layout, log, votes, m).Next?
    ensures m.rpc.result.Changes? && m.rpc.result.rpc.ItemOf(0).Some?
    ensures var bs := FromHex(m.rpc.result.rpc.ItemOf(0).value.1);
            bs.Some? && DecodeQueuedKeys(layout, bs.value).Some?
    ensures var qk := DecodeQueuedKeys(layout, FromHex(m.rpc.result.rpc.ItemOf(0).value.1).value).value.0;
            var v := Step(layout, log, votes, m).votes;
            && v.Keys == GrandpaKeys(qk)
            && forall i :: LastWithKey(qk, i) ==> v[qk[i].1.grandpa] == Vote(qk[i].0, 0)
  {
    var bs := FromHex(m.rpc.result.rpc.ItemOf(0).value.1).value;
    var qk := DecodeQueuedKeys(layout, bs).value.0;
    assert Step(layout, log, votes, m).votes == Reset(qk);
    forall i | LastWithKey(qk, i) ensures Reset(qk)[qk[i].1.grandpa] == Vote(qk[i].0, 0) {
      ResetKeepsLastStash(qk, i);
    }
  }

  /** A justification notification that does not panic carried a string
      result, that string was hex, and its octets decoded as a
      justification: every failed unwrap on this path ends the loop. */
  lemma JustificationPanics(layout: Layout, log: byte, votes: Votes, m: Message)
    requires IsJustification(m) && Step(layout, log, votes, m).Next?
    ensures m.rpc.result.Text? && FromHex(m.rpc.result.text).Some?
    ensures DecodeJustification(FromHex(m.rpc.result.text).value).Some?
  {
  }

  /** No entry of the earlier map survives a validator-set change: the
      outcome does not depend on the map at all. */
  lemma StateStorageForgets(layout: Layout, log: byte, v1: Votes, v2: Votes, m: Message)
    requires IsReset(m)
    ensures Step(layout, log, v1, m) == Step(layout, log, v2, m)
  {
  }

  /** The outcome of a validator-set change whose first value decodes as
      `qk`. */
  lemma StateStorageDecoded(layout: Layout, log: byte, votes: Votes, rpc: StateStoreRpc,
                            bs: seq<byte>, qk: QueuedKeys, rest: seq<byte>)
    requires rpc.ItemOf(0).Some? && FromHex(rpc.ItemOf(0).value.1) == Some(bs)
    requires DecodeQueuedKeys(layout, bs) == Some((qk, rest))
    ensures var r := Step(layout, log, votes, Envelope(RpcResult(STATE_STORAGE, Changes(rpc))));
            && r.Next? && r.reports == []
            && r.votes.Keys == GrandpaKeys(qk)
            && forall i :: LastWithKey(qk, i) ==> r.votes[qk[i].1.grandpa] == Vote(qk[i].0, 0)
  {
    forall i | LastWithKey(qk, i) ensures Reset(qk)[qk[i].1.grandpa] == Vote(qk[i].0, 0) {
      ResetKeepsLastStash(qk, i);
    }
  }

  /** A validator set whose count promises more entries than the payload
      holds ends the loop, whatever the map held. */
  lemma StateStorageTruncated(layout: Layout, log: byte, votes: Votes, rpc: StateStoreRpc,
                              bs: seq<byte>, n: nat, s1: seq<byte>)
    requires rpc.ItemOf(0).Some? && FromHex(rpc.ItemOf(0).value.1) == Some(bs)
    requires DecodeCompact(bs) == Some((n, s1)) && |s1| < n * (32 + Width(layout))
    ensures Step(layout, log, votes, Envelope(RpcResult(STATE_STORAGE, Changes(rpc)))) == Panic(BadQueuedKeys)
  {
    QueuedKeysLength(layout, bs, n, s1);
  }

  /** A justification that decodes keeps every key and stash, raises each
      count by the number of its precommits carrying that id, ignores ids
      that are not keys, and reports the round and the map's size. */
  lemma JustificationCounts(layout: Layout, log: byte, votes: Votes, text: string,
                            bs: seq<byte>, j: GrandpaJustification, rest: seq<byte>)
    requires FromHex(text) == Some(bs) && DecodeJustification(bs) == Some((j, rest))
    ensures var r := Step(layout, log, votes, Envelope(RpcResult(GRANDPA_JUSTIFICATIONS, Text(text))));
            && r.Next?
            && r.votes.Keys == votes.Keys
            && (forall k :: k in votes ==>
                  && r.votes[k].stash == votes[k].stash
                  && r.votes[k].count == votes[k].count + multiset(Ids(j))[k])
            && r.reports == [Report(Shown(log, r.votes), j.round, |votes|)]
  {
    var v := Count(votes, Ids(j));
    assert |v| == |votes| by {
      assert v.Keys == votes.Keys;
    }
  }

  /** A justification whose precommits outrun the payload ends the loop. */
  lemma JustificationTruncated(layout: Layout, log: byte, votes: Votes, text: string,
                               bs: seq<byte>, n: nat, t: seq<byte>)
    requires FromHex(text) == Some(bs) && |bs| >= 8 + 36
    requires DecodeCompact(bs[8 + 36..]) == Some((n, t)) && |t| < SIGNED_PRECOMMIT_WIDTH * n
    ensures Step(layout, log, votes, Envelope(RpcResult(GRANDPA_JUSTIFICATIONS, Text(text)))) == Panic(BadJustification)
  {
    assert bs[8..][36..] == bs[8 + 36..];
    CommitLayout(bs[8..], n, t);
    JustificationLayout(bs);
  }

  /** A message that is not a validator-set change keeps every key and
      stash and lowers no count. */
  lemma StepMonotone(layout: Layout, log: byte, votes: Votes, m: Message)
    requires !IsReset(m) && Step(layout, log, votes, m).Next?
    ensures var v := Step(layout, log, votes, m).votes;
            && v.Keys == votes.Keys
            && forall k :: k in v ==> v[k].stash == votes[k].stash && v[k].count >= votes[k].count
  {
    if m.Envelope? && m.rpc.name == GRANDPA_JUSTIFICATIONS {
      var j := DecodeJustification(FromHex(m.rpc.result.text).value).value.0;
      assert Step(layout, log, votes, m).votes == Count(votes, Ids(j));
    }
  }

  /** Between two validator-set changes no key or stash changes and no
      count goes down. */
  lemma {:induction false} CountsMonotone(layout: Layout, log: byte, votes: Votes, ms: seq<Message>)
    requires forall i :: 0 <= i < |ms| ==> !IsReset(ms[i])
    requires Run(layout, log, votes, ms).Next?
    ensures var v := Run(layout, log, votes, ms).votes;
            && v.Keys == votes.Keys
            && forall k :: k in v ==> v[k].stash == votes[k].stash && v[k].count >= votes[k].count
  {
    if |ms| > 0 {
      StepMonotone(layout, log, votes, ms[0]);
      var v1 := Step(layout, log, votes, ms[0]).votes;
      CountsMonotone(layout, log, v1, ms[1..]);
      assert Run(layout, log, votes, ms).votes == Run(layout, log, v1, ms[1..]).votes;
    }
  }

  /** From all-zero counts, an entry has votes exactly when its key is
      among the precommit ids. */
  lemma VotedIffPrecommitted(votes: Votes, ids: seq<AccountId>, k: AccountId)
    requires forall k' :: k' in votes ==> votes[k'].count == 0
    requires k in votes
    ensures Count(votes, ids)[k].count > 0 <==> k in ids
  {
    assert k in ids <==> k in multiset(ids);
  }

  /** From all-zero counts, the voted view keeps exactly the keys among
      the precommit ids, and the unvoted view the other keys. */
  lemma VotedFromZero(votes: Votes, ids: seq<AccountId>)
    requires forall k' :: k' in votes ==> votes[k'].count == 0
    ensures Shown(1, Count(votes, ids)).Keys == votes.Keys * set k | k in ids
    ensures Shown(2, Count(votes, ids)).Keys == votes.Keys - set k | k in ids
  {
    var v := Count(votes, ids);
    forall k | k in votes ensures k in Shown(1, v) <==> k in ids {
      VotedIffPrecommitted(votes, ids, k);
    }
    forall k | k in votes ensures k in Shown(2, v) <==> k !in ids {
      VotedIffPrecommitted(votes, ids, k);
    }
  }

  /** After a reset, the entries with votes are exactly the validators'
      GRANDPA keys that appear among the precommits since, and the rest
      are the keys that do not. */
  lemma VotedAfterReset(qk: QueuedKeys, ids: seq<AccountId>)
    ensures Shown(1, Count(Reset(qk), ids)).Keys == GrandpaKeys(qk) * set k | k in ids
    ensures Shown(2, Count(Reset(qk), ids)).Keys == GrandpaKeys(qk) - set k | k in ids
  {
    VotedFromZero(Reset(qk), ids);
  }

  /** The precommits' signatures and targets, and the commit's target,
      are never read: two justification payloads that decode to the same
      round and the same ids, in order, have the same outcome. */
  lemma OnlyIdsCount(log: byte, votes: Votes, t1: string, t2: string)
    requires FromHex(t1).Some? && FromHex(t2).Some?
    requires DecodeJustification(FromHex(t1).value).Some? && DecodeJustification(FromHex(t2).value).Some?
    requires var j1, j2 := DecodeJustification(FromHex(t1).value).value.0, DecodeJustification(FromHex(t2).value).value.0;
             && j1.round == j2.round
             && |j1.commit.precommits| == |j2.commit.precommits|
             && forall i :: 0 <= i < |j1.commit.precommits| ==> j1.commit.precommits[i].id == j2.commit.precommits[i].id
    ensures OnJustification(log, votes, Text(t1)) == OnJustification(log, votes, Text(t2))
  {
    var j1 := DecodeJustification(FromHex(t1).value).value.0;
    var j2 := DecodeJustification(FromHex(t2).value).value.0;
    assert Ids(j1) == Ids(j2);
  }

  /** `--log`: the level names clap admits, mapped to the level numbers. */
  function LogLevel(name: string): (r: Option<byte>)
    ensures r.Some? <==> name in ["all", "voted", "unvoted"]
    ensures r.Some? ==> r.value <= 2
  {
    if name == "all" then Some(0)
    else if name == "voted" then Some(1)
    else if name == "unvoted" then Some(2)
    else None
  }

  /** Distinct level names select distinct levels. */
  lemma LogLevelInjective(a: string, b: string)
    requires LogLevel(a).Some? && LogLevel(a) == LogLevel(b)
    ensures a == b
  {
  }

  /** What each level name shows: `all` the whole map, `voted` the entries
      with votes, `unvoted` the entries without. */
  lemma LogLevelViews(votes: Votes)
    ensures Shown(LogLevel("all").value, votes) == votes
    ensures Shown(LogLevel("voted").value, votes).Keys == set k | k in votes && votes[k].count > 0
    ensures Shown(LogLevel("unvoted").value, votes).Keys == set k | k in votes && votes[k].count == 0
  {
  }
}
