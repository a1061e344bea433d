/** Properties of the vector memory that relate several operations:
    overwriting, per-user isolation, retrieval order, and erasure. */
module MemoryProperties {
  import opened Optional
  import opened Sequences
  import opened Memory

  // ---------------------------------------------------------------- save

  /** Two saves by one user in the same millisecond share an id: the second replaces the first. */
  lemma SameMillisecondOverwrites(idx: Index, userId: string, m1: string, r1: string, t1: real, e1: Option<Vector>,
                                  m2: string, r2: string, t2: real, e2: Option<Vector>)
    requires Millis(t1) == Millis(t2)
    ensures var twice := SaveMessage(SaveMessage(idx, userId, m1, r1, t1, e1, true), userId, m2, r2, t2, e2, true);
            twice == SaveMessage(idx, userId, m2, r2, t2, e2, true)
  {
  }

  /** Saving with a non-negative clock keeps every id parseable to its owner. */
  lemma SaveKeepsWellKeyed(idx: Index, userId: string, message: string, role: string, now: real,
                           embedding: Option<Vector>, upsertOk: bool)
    requires WellKeyed(idx)
    requires now >= 0.0
    ensures WellKeyed(SaveMessage(idx, userId, message, role, now, embedding, upsertOk))
  {
    IdRoundTrip(userId, Millis(now));
  }

  /** A save by one user never adds, replaces or removes a record of another user. */
  lemma SaveIsolated(idx: Index, writer: string, message: string, role: string, now: real,
                     embedding: Option<Vector>, upsertOk: bool, reader: string)
    requires WellKeyed(idx)
    requires now >= 0.0
    requires writer != reader
    ensures OwnRecords(SaveMessage(idx, writer, message, role, now, embedding, upsertOk), reader)
         == OwnRecords(idx, reader)
  {
    if upsertOk {
      var id := MessageId(writer, Millis(now));
      var after := SaveMessage(idx, writer, message, role, now, embedding, upsertOk);
      if id in idx {
        IdRoundTrip(writer, Millis(now));
        assert ParseId(id).value.userId == idx[id].userId;
      }
      SameOwnRecords(after, idx, reader);
    }
  }

  /** Two indexes that agree on a user's records have the same `OwnRecords` for that user. */
  lemma SameOwnRecords(a: Index, b: Index, userId: string)
    requires forall id | id in a && a[id].userId == userId :: id in b && b[id] == a[id]
    requires forall id | id in b && b[id].userId == userId :: id in a && a[id] == b[id]
    ensures OwnRecords(a, userId) == OwnRecords(b, userId)
  {
    assert OwnRecords(a, userId).Keys == OwnRecords(b, userId).Keys;
  }

  // ---------------------------------------------------------------- retrieval

  /** Retrieval sees only the reader's own records: two indexes that agree on them answer alike. */
  lemma HistoryIsolated(idx1: Index, idx2: Index, userId: string, topK: nat, queryEmbedding: Option<Vector>,
                        rank: Vector -> Option<seq<string>>)
    requires OwnRecords(idx1, userId) == OwnRecords(idx2, userId)
    ensures GetRelevantHistory(idx1, userId, topK, queryEmbedding, rank)
         == GetRelevantHistory(idx2, userId, topK, queryEmbedding, rank)
  {
  }

  /** Another user's save does not change what a reader retrieves. */
  lemma OtherUsersSaveInvisible(idx: Index, writer: string, message: string, role: string, now: real,
                                embedding: Option<Vector>, upsertOk: bool,
                                reader: string, topK: nat, queryEmbedding: Option<Vector>,
                                rank: Vector -> Option<seq<string>>)
    requires WellKeyed(idx)
    requires now >= 0.0
    requires writer != reader
    ensures GetRelevantHistory(SaveMessage(idx, writer, message, role, now, embedding, upsertOk), reader, topK, queryEmbedding, rank)
         == GetRelevantHistory(idx, reader, topK, queryEmbedding, rank)
  {
    SaveIsolated(idx, writer, message, role, now, embedding, upsertOk, reader);
    HistoryIsolated(SaveMessage(idx, writer, message, role, now, embedding, upsertOk), idx, reader, topK, queryEmbedding, rank);
  }

  lemma {:induction false} TurnsAppend(own: Index, a: seq<string>, b: seq<string>)
    requires forall id | id in a + b :: id in own
    ensures Turns(own, a + b) == Turns(own, a) + Turns(own, b)
    decreases |a|
  {
    if a != [] {
      assert (a + b)[0] == a[0];
      assert (a + b)[1..] == a[1..] + b;
      TurnsAppend(own, a[1..], b);
    } else {
      assert a + b == b;
    }
  }

  /** Retrieval returns the leading part of the user's kept turns in the
      index's ranking order: ranking order is preserved, nothing is reordered. */
  lemma RetrievalFollowsRanking(idx: Index, userId: string, topK: nat, queryEmbedding: Option<Vector>,
                                rank: Vector -> Option<seq<string>>)
    requires rank(GetEmbedding(queryEmbedding)).Some?
    ensures var own := OwnRecords(idx, userId);
            var all := Matches(own, rank(GetEmbedding(queryEmbedding)).value);
            && GetRelevantHistory(idx, userId, topK, queryEmbedding, rank) == Turns(own, Take(all, topK))
            && GetRelevantHistory(idx, userId, topK, queryEmbedding, rank) <= Turns(own, all)
  {
    var own := OwnRecords(idx, userId);
    var all := Matches(own, rank(GetEmbedding(queryEmbedding)).value);
    var hits := Take(all, topK);
    assert all == hits + all[|hits|..];
    TurnsAppend(own, hits, all[|hits|..]);
  }

  /** A saved turn that the index ranks first comes back first. */
  lemma SaveThenRecall(idx: Index, userId: string, message: string, role: string, now: real,
                       embedding: Option<Vector>, topK: nat, queryEmbedding: Option<Vector>,
                       rank: Vector -> Option<seq<string>>)
    requires Kept(Message(role, message))
    requires topK >= 1
    requires rank(GetEmbedding(queryEmbedding)).Some?
    requires var order := rank(GetEmbedding(queryEmbedding)).value;
             order != [] && order[0] == MessageId(userId, Millis(now))
    ensures var history := GetRelevantHistory(SaveMessage(idx, userId, message, role, now, embedding, true),
                                              userId, topK, queryEmbedding, rank);
            history != [] && history[0] == Message(role, message)
  {
    var after := SaveMessage(idx, userId, message, role, now, embedding, true);
    var own := OwnRecords(after, userId);
    var order := rank(GetEmbedding(queryEmbedding)).value;
    var all := Matches(own, order);
    assert order[0] in own;
    assert all[0] == order[0];
    var hits := Take(all, topK);
    assert hits[0] == order[0];
    assert hits == [hits[0]] + hits[1..];
    TurnsAppend(own, [hits[0]], hits[1..]);
  }

  // ---------------------------------------------------------------- erasure

  /** The index ranks every stored id for the query. */
  ghost predicate Covers(idx: Index, order: seq<string>) {
    forall id | id in idx :: id in order
  }

  /** Erasure leaves every other user's records exactly as they were. */
  lemma ClearIsolated(idx: Index, userId: string, ranking: Option<seq<string>>, deleteOk: bool, other: string)
    requires other != userId
    ensures OwnRecords(ClearMemory(idx, userId, ranking, deleteOk).index, other) == OwnRecords(idx, other)
  {
    var after := ClearMemory(idx, userId, ranking, deleteOk).index;
    assert OwnRecords(after, other).Keys == OwnRecords(idx, other).Keys;
  }

  /** Erasure only deletes, so ids stay parseable to their owners. */
  lemma ClearKeepsWellKeyed(idx: Index, userId: string, ranking: Option<seq<string>>, deleteOk: bool)
    requires WellKeyed(idx)
    ensures WellKeyed(ClearMemory(idx, userId, ranking, deleteOk).index)
  {
  }

  /** When the user's matches fit under the cap, the ranking lists every id
      and the delete succeeds, erasure leaves no record of the user. */
  lemma ClearEmptiesUserWithinCap(idx: Index, userId: string, order: seq<string>, deleteOk: bool)
    requires Covers(idx, order)
    requires |Matches(OwnRecords(idx, userId), order)| <= ClearCap
    requires deleteOk
    ensures OwnRecords(ClearMemory(idx, userId, Some(order), deleteOk).index, userId) == map[]
  {
    var after := ClearMemory(idx, userId, Some(order), deleteOk).index;
    var hits := QueryIndex(idx, userId, ClearCap, Some(order)).value;
    assert hits == Matches(OwnRecords(idx, userId), order);
    assert OwnRecords(after, userId).Keys == {};
  }

  /** Erasing a user who has no records reports `false` and changes nothing. */
  lemma ClearWithoutRecordsIsFalse(idx: Index, userId: string, ranking: Option<seq<string>>, deleteOk: bool)
    requires OwnRecords(idx, userId) == map[]
    ensures ClearMemory(idx, userId, ranking, deleteOk) == ClearOutcome(false, idx)
  {
    if ranking.Some? {
      forall id | id in ranking.value && id in idx
        ensures idx[id].userId != userId
      {
        assert id !in OwnRecords(idx, userId);
      }
    }
  }

  /** After a complete erasure, a second erasure reports `false`. */
  lemma ClearTwiceIsFalse(idx: Index, userId: string, order: seq<string>, deleteOk: bool,
                          ranking2: Option<seq<string>>, deleteOk2: bool)
    requires Covers(idx, order)
    requires |Matches(OwnRecords(idx, userId), order)| <= ClearCap
    requires deleteOk
    ensures var after := ClearMemory(idx, userId, Some(order), deleteOk).index;
            !ClearMemory(after, userId, ranking2, deleteOk2).cleared
  {
    ClearEmptiesUserWithinCap(idx, userId, order, deleteOk);
    ClearWithoutRecordsIsFalse(ClearMemory(idx, userId, Some(order), deleteOk).index, userId, ranking2, deleteOk2);
  }

  /** After a complete erasure, every retrieval for the user is empty. */
  lemma RetrieveAfterClearIsEmpty(idx: Index, userId: string, order: seq<string>, deleteOk: bool,
                                  topK: nat, queryEmbedding: Option<Vector>, rank: Vector -> Option<seq<string>>)
    requires Covers(idx, order)
    requires |Matches(OwnRecords(idx, userId), order)| <= ClearCap
    requires deleteOk
    ensures GetRelevantHistory(ClearMemory(idx, userId, Some(order), deleteOk).index, userId, topK, queryEmbedding, rank) == []
  {
    var after := ClearMemory(idx, userId, Some(order), deleteOk).index;
    ClearEmptiesUserWithinCap(idx, userId, order, deleteOk);
  }

  /** With more matches than the cap, erasure always leaves some of the user's records behind. */
  lemma ClearBeyondCapLeavesRecords(idx: Index, userId: string, order: seq<string>, deleteOk: bool)
    requires Distinct(order)
    requires |Matches(OwnRecords(idx, userId), order)| > ClearCap
    ensures OwnRecords(ClearMemory(idx, userId, Some(order), deleteOk).index, userId) != map[]
  {
    var all := Matches(OwnRecords(idx, userId), order);
    var hits := QueryIndex(idx, userId, ClearCap, Some(order)).value;
    var left := all[ClearCap];
    assert hits == all[..ClearCap];
    assert left !in hits;
  }
}
