/** The bot's vector memory: every turn is stored as a record in a vector
    index keyed by a message id, retrieved by a similarity query filtered on
    the user id, and erased per user.

    The index is a map from id to record. Each call into the embedding
    provider or into the index is represented by its outcome, passed in as a
    parameter: `None` (or `false`) when the call raised. The similarity
    ranking the index computes for a query vector is an arbitrary sequence of
    ids, given by the caller. */
module Memory {
  import opened Optional
  import opened Sequences
  import opened Text

  /** Dimension of the embedding vectors the index is created with. */
  const Dimension: nat := 1536
  /** Number of ids `ClearMemory` asks the index for. */
  const ClearCap: nat := 1000

  type Vector = seq<real>

  /** One stored turn: the metadata written with the vector, and the vector. */
  datatype Record = Record(userId: string, role: string, text: string, timestamp: real, embedding: Vector)

  type Index = map<string, Record>

  /** One chat message as handed to the completion model. */
  datatype Message = Message(role: string, content: string)

  // ---------------------------------------------------------------- embeddings

  function ZeroVector(): (v: Vector)
    ensures |v| == Dimension
    ensures forall i | 0 <= i < |v| :: v[i] == 0.0
  {
    seq(Dimension, _ => 0.0)
  }

  /** The embedding of a text, given the provider's reply for it. A failed
      call never propagates: it degrades to the zero vector. */
  function GetEmbedding(reply: Option<Vector>): (v: Vector)
    ensures reply.Some? ==> v == reply.value
    ensures reply.None? ==> |v| == Dimension && forall i | 0 <= i < |v| :: v[i] == 0.0
  {
    reply.GetOr(ZeroVector())
  }

  // ---------------------------------------------------------------- message ids

  /** Python's `int(seconds * 1000)`: milliseconds, truncated toward zero. */
  function Millis(seconds: real): (ms: int)
    ensures seconds >= 0.0 ==> 0 <= ms && ms as real <= seconds * 1000.0 < ms as real + 1.0
    ensures seconds < 0.0 ==> ms <= 0 && ms as real - 1.0 < seconds * 1000.0 <= ms as real
  {
    if seconds >= 0.0 then (seconds * 1000.0).Floor else -((-seconds * 1000.0).Floor)
  }

  /** The id of a record saved by `userId` at `millis`. */
  function MessageId(userId: string, millis: int): string {
    userId + "-" + IntToString(millis)
  }

  datatype IdParts = IdParts(userId: string, millis: nat)

  /** Splits an id at its last '-' into the user id and the decimal millisecond count. */
  function ParseId(id: string): (r: Option<IdParts>)
    ensures r.Some? ==> |r.value.userId| < |id| && id[|r.value.userId|] == '-' && id[..|r.value.userId|] == r.value.userId
  {
    match LastIndexOf(id, '-')
    case None => None
    case Some(k) =>
      var digits := id[k + 1..];
      if digits != [] && AllDigits(digits) then Some(IdParts(id[..k], ParseNat(digits))) else None
  }

  /** Every id of a non-negative clock reading parses back to its user and millisecond. */
  lemma IdRoundTrip(userId: string, millis: nat)
    ensures ParseId(MessageId(userId, millis)) == Some(IdParts(userId, millis))
  {
    var digits := NatToString(millis);
    var id := MessageId(userId, millis);
    assert id == userId + "-" + digits;
    var k := |userId|;
    assert id[k] == '-';
    forall j | k < j < |id|
      ensures id[j] != '-'
    {
      assert id[j] == digits[j - k - 1];
    }
    assert LastIndexOf(id, '-') == Some(k);
    assert id[k + 1..] == digits;
    assert id[..k] == userId;
    ParseNatToString(millis);
  }

  /** Two saves get the same id only when they come from the same user in the same millisecond. */
  lemma MessageIdInjective(u1: string, m1: nat, u2: string, m2: nat)
    requires MessageId(u1, m1) == MessageId(u2, m2)
    ensures u1 == u2 && m1 == m2
  {
    IdRoundTrip(u1, m1);
    IdRoundTrip(u2, m2);
  }

  /** With a negative clock reading the id scheme collides across users. */
  lemma NegativeClockCollides()
    ensures MessageId("u-", 5) == MessageId("u", -5)
    ensures "u-" != "u"
  {
    assert NatToString(5) == "5";
  }

  /** Every id is the id its record's owner would have written. */
  ghost predicate WellKeyed(idx: Index) {
    forall id | id in idx :: ParseId(id).Some? && ParseId(id).value.userId == idx[id].userId
  }

  // ---------------------------------------------------------------- save

  /** Upserts the turn under `MessageId(userId, Millis(now))`. A failed upsert
      leaves the index as it was. */
  function SaveMessage(idx: Index, userId: string, message: string, role: string, now: real,
                       embedding: Option<Vector>, upsertOk: bool): (idx': Index)
    ensures !upsertOk ==> idx' == idx
    ensures upsertOk ==> idx'.Keys == idx.Keys + {MessageId(userId, Millis(now))}
    ensures upsertOk ==>
      var r := idx'[MessageId(userId, Millis(now))];
      && r.userId == userId && r.role == role && r.text == message && r.timestamp == now
      && r.embedding == GetEmbedding(embedding)
    ensures forall id | id in idx && id != MessageId(userId, Millis(now)) :: id in idx' && idx'[id] == idx[id]
  {
    if upsertOk then
      idx[MessageId(userId, Millis(now)) := Record(userId, role, message, now, GetEmbedding(embedding))]
    else idx
  }

  // ---------------------------------------------------------------- query

  /** The records the filter `{"user_id": userId}` lets through. */
  function OwnRecords(idx: Index, userId: string): (own: Index)
    ensures forall id :: id in own <==> id in idx && idx[id].userId == userId
    ensures forall id | id in own :: own[id] == idx[id]
  {
    map id | id in idx && idx[id].userId == userId :: idx[id]
  }

  /** The ids of `ranking` that are records of `own`, in ranking order. */
  function Matches(own: Index, ranking: seq<string>): (ids: seq<string>)
    ensures |ids| <= |ranking|
    ensures forall id :: id in ids <==> id in ranking && id in own
    ensures Distinct(ranking) ==> Distinct(ids)
    ensures Subseq(ids, ranking)
    decreases |ranking|
  {
    if ranking == [] then []
    else
      var rest := Matches(own, ranking[1..]);
      assert ranking == [ranking[0]] + ranking[1..];
      if ranking[0] in own then
        SubseqPrependBoth(ranking[0], rest, ranking[1..]);
        [ranking[0]] + rest
      else
        SubseqUnderPrepend(ranking[0], rest, ranking[1..]);
        rest
  }

  /** An index query filtered on `userId`: the `topK` best-ranked of the
      user's records, or `None` when the query raised. */
  function QueryIndex(idx: Index, userId: string, topK: nat, ranking: Option<seq<string>>): (hits: Option<seq<string>>)
    ensures hits.Some? <==> ranking.Some?
    ensures hits.Some? ==> hits.value <= Matches(OwnRecords(idx, userId), ranking.value)
    ensures hits.Some? ==> |hits.value| == Min(topK, |Matches(OwnRecords(idx, userId), ranking.value)|)
    ensures hits.Some? ==> forall id | id in hits.value :: id in idx && idx[id].userId == userId
  {
    match ranking
    case None => None
    case Some(order) => Some(Take(Matches(OwnRecords(idx, userId), order), topK))
  }

  // ---------------------------------------------------------------- retrieval

  function TurnOf(r: Record): Message {
    Message(r.role, r.text)
  }

  /** Only user and assistant turns with non-empty text reach the history. */
  predicate Kept(m: Message) {
    (m.role == "user" || m.role == "assistant") && m.content != ""
  }

  /** The kept turns of the records `ids`, in the order of `ids`. */
  function Turns(own: Index, ids: seq<string>): (ts: seq<Message>)
    requires forall id | id in ids :: id in own
    ensures |ts| <= |ids|
    ensures forall m | m in ts :: Kept(m) && exists id | id in ids :: TurnOf(own[id]) == m
    ensures forall id | id in ids && Kept(TurnOf(own[id])) :: TurnOf(own[id]) in ts
    ensures ids != [] && Kept(TurnOf(own[ids[0]])) ==> ts[0] == TurnOf(own[ids[0]])
    decreases |ids|
  {
    if ids == [] then []
    else
      var t := TurnOf(own[ids[0]]);
      (if Kept(t) then [t] else []) + Turns(own, ids[1..])
  }

  /** The history relevant to a query: embed the query text (degrading to
      the zero vector), query the index with `rank`'s answer for that vector,
      keep the user and assistant turns. A failed query yields `[]`. */
  function GetRelevantHistory(idx: Index, userId: string, topK: nat, queryEmbedding: Option<Vector>,
                              rank: Vector -> Option<seq<string>>): (history: seq<Message>)
    ensures |history| <= topK
    ensures forall m | m in history :: Kept(m)
    ensures forall m | m in history :: exists id | id in idx :: idx[id].userId == userId && TurnOf(idx[id]) == m
    ensures rank(GetEmbedding(queryEmbedding)).None? ==> history == []
    ensures rank(GetEmbedding(queryEmbedding)).Some? ==>
              forall id | id in QueryIndex(idx, userId, topK, rank(GetEmbedding(queryEmbedding))).value
                          && Kept(TurnOf(idx[id])) :: TurnOf(idx[id]) in history
  {
    var own := OwnRecords(idx, userId);
    match QueryIndex(idx, userId, topK, rank(GetEmbedding(queryEmbedding)))
    case None => []
    case Some(hits) =>
      var ts := Turns(own, hits);
      assert forall m | m in ts :: exists id | id in idx :: idx[id].userId == userId && TurnOf(idx[id]) == m by {
        forall m | m in ts
          ensures exists id | id in idx :: idx[id].userId == userId && TurnOf(idx[id]) == m
        {
          var id :| id in hits && TurnOf(own[id]) == m;
        }
      }
      ts
  }

  // ---------------------------------------------------------------- erasure

  datatype ClearOutcome = ClearOutcome(cleared: bool, index: Index)

  /** Erases a user's memory: asks the index for up to `ClearCap` of the
      user's ids (by the zero vector; `ranking` is the index's answer) and
      deletes them. Reports `true` only when some id was found and the delete
      succeeded; a failed delete leaves the index as it was. */
  function ClearMemory(idx: Index, userId: string, ranking: Option<seq<string>>, deleteOk: bool): (r: ClearOutcome)
    ensures r.cleared <==> ranking.Some? && deleteOk && exists id | id in ranking.value :: id in idx && idx[id].userId == userId
    ensures !r.cleared ==> r.index == idx
    ensures forall id | id in r.index :: id in idx && r.index[id] == idx[id]
    ensures forall id | id in idx && idx[id].userId != userId :: id in r.index
    ensures r.cleared ==> forall id | id in QueryIndex(idx, userId, ClearCap, ranking).value :: id !in r.index
    ensures r.cleared ==> forall id | id in idx && id !in QueryIndex(idx, userId, ClearCap, ranking).value ::
                            id in r.index && r.index[id] == idx[id]
    ensures r.cleared ==> exists id | id in idx :: id !in r.index
  {
    match QueryIndex(idx, userId, ClearCap, ranking)
    case None => ClearOutcome(false, idx)
    case Some(ids) =>
      if ids == [] then
        assert forall id | id in ranking.value :: !(id in idx && idx[id].userId == userId) by {
          assert Matches(OwnRecords(idx, userId), ranking.value) == [];
        }
        ClearOutcome(false, idx)
      else if !deleteOk then ClearOutcome(false, idx)
      else
        assert ids[0] in ranking.value;
        ClearOutcome(true, idx - set id | id in ids)
  }
}
