# Conversational memory of a supportive chat bot

This project models, in Dafny, the conversational memory of a Telegram chat bot
that stores every turn in a vector index and grounds its replies in the past
turns most similar to the new message. It covers:

- **Memory** (`memory.dfy`): records, message ids, the degraded embedding,
  saving a turn (upsert), retrieving a user's relevant history, and erasing a
  user's memory.
- **Memory properties** (`memory_properties.dfy`): overwriting, per-user
  isolation, retrieval order, the save-then-recall round trip, and erasure.
- **Context** (`context.dfy`): the message length gate, the 4000-character
  history budget, prompt assembly and the handling of one incoming message.
- **Menu** (`menu.dfy`): the "recent", "clear" and `setlang_` callbacks (and
  the plain replies of the other entries).
- **Locale** (`locale.dfy`): the per-session language state.
- Helpers: `optional.dfy` (call outcomes), `sequences.dfy` (prefix,
  subsequence, distinctness), `text.dfy` (decimal rendering and parsing,
  last-occurrence search, `sep.join`).

The vector index is a `map` from id to record. A record holds the user id, the
role, the text, the timestamp and the embedding. Every external call appears
as its outcome, passed in by the caller: the embedding provider's reply
(`Option<Vector>`, `None` when the call raised), whether an upsert or delete
succeeded, the similarity ranking the index computes for a query vector (any
sequence of ids, or `None` when the query raised), and the completion model's
answer. A query filtered on a user id keeps only that user's records from the
ranking, in ranking order, and returns the first `top_k` of them.

Three points of the code's behaviour that the model keeps exactly:

- History admission uses a strict `<` against 4000. An entry that does not fit
  is skipped and later entries are still tried. A simpler budget would stop at
  the first entry that does not fit. `Context.AdmitUntilOverflow` is that
  stopping rule, and `Context.AdmitExtendsUntilOverflow` shows that the code's
  skip-and-continue rule admits everything the stopping rule admits, and
  possibly more.
- The length gate accepts 2 to 1500 characters, so a one-character message is
  rejected.
- Erasure asks the index for at most 1000 ids, so one erasure is complete only
  when the user's matches fit under that cap
  (`MemoryProperties.ClearEmptiesUserWithinCap`,
  `MemoryProperties.ClearBeyondCapLeavesRecords`).

Two behaviours of the code that the lemmas make visible:

- The user's turn is saved before history is retrieved. When the index ranks it
  first, the live message appears twice in the prompt
  (`Context.PromptEchoesCurrentMessage`).
- A "recent" retrieval that finds only assistant turns replies with the bare
  heading and an empty list, not with the "no recent messages" text
  (`Menu.RecentWithoutUserTurns`).

## Model

| member | source | states |
|---|---|---|
| `Memory.GetEmbedding` | psychologist_bot.py:171-180 | A failed embedding call never propagates: it yields a vector of exactly 1536 zeros. A successful reply is used as returned. |
| `Memory.Millis` | psychologist_bot.py:190 | `int(time*1000)`: the millisecond count truncated toward zero, within one millisecond of the exact value and never above it in magnitude. |
| `Memory.IdRoundTrip` | psychologist_bot.py:190 | Splitting an id `"{user_id}-{ms}"` at its last '-' recovers the user id and the millisecond count, for every user id and every ms >= 0. |
| `Memory.MessageIdInjective` | psychologist_bot.py:190 | Two saves produce the same id only if they come from the same user in the same millisecond (ms >= 0). |
| `Memory.NegativeClockCollides` | psychologist_bot.py:190 | With a negative clock reading the id scheme collides across users ("u-" at 5 ms and "u" at -5 ms), which is why the isolation lemmas need a non-negative clock. |
| `Memory.SaveMessage` | psychologist_bot.py:182-194 | A successful upsert adds or replaces exactly the record under `MessageId(user, ms)`, holding the user id, role, text, timestamp and the (possibly degraded) embedding. Every other record is unchanged. A failed upsert leaves the index unchanged. |
| `Memory.OwnRecords` | psychologist_bot.py:201 | The `user_id` filter lets through exactly the records whose owner is the user, unchanged. |
| `Memory.Matches` | psychologist_bot.py:199-204 | The filtered ranking contains exactly the ranked ids that are the user's records. It is a subsequence of the ranking, so their ranking order is kept, and it stays duplicate-free when the ranking is. |
| `Memory.QueryIndex` | psychologist_bot.py:199-204 | A query fails exactly when the index call fails. Otherwise it returns the best-ranked min(top_k, matches) of the user's ids, and each one is a stored record of that user. |
| `Memory.Turns` | psychologist_bot.py:205-211 | Hits become `{role, content}` turns. A hit is kept if and only if its role is user or assistant and its text is non-empty. No more turns than hits. A kept first hit is the first turn. |
| `Memory.GetRelevantHistory` | psychologist_bot.py:196-215 | Retrieval returns at most top_k turns. Each is a user or assistant turn with non-empty text, taken from a stored record of the same user. Every kept turn among the top_k matches is returned. A failing query returns `[]` instead of raising. |
| `Memory.ClearMemory` | psychologist_bot.py:217-231 | Returns true if and only if the query succeeded, found at least one of the user's ids, and the delete succeeded. On true, every queried id is gone, every record that was not queried is kept unchanged, and something was deleted. Otherwise the index is unchanged. Other users' records are never deleted, and no record is altered. |
| `MemoryProperties.SameMillisecondOverwrites` | psychologist_bot.py:190-192 | Two saves by one user in the same millisecond leave only the second record under their shared id. |
| `MemoryProperties.SaveKeepsWellKeyed` | psychologist_bot.py:190-192 | With a non-negative clock, saving keeps every id parseable to the owner of its record. |
| `MemoryProperties.SaveIsolated` | psychologist_bot.py:182-194 | In a well-keyed index, one user's save never adds, replaces or removes another user's record. |
| `MemoryProperties.HistoryIsolated` | psychologist_bot.py:199-204 | Two indexes that agree on a user's records give that user the same history. |
| `MemoryProperties.OtherUsersSaveInvisible` | psychologist_bot.py:182-215 | Another user's save does not change what a reader retrieves. |
| `MemoryProperties.RetrievalFollowsRanking` | psychologist_bot.py:205-212 | Retrieval is exactly the turns of the first top_k matches, and so a leading part of the user's kept turns in the index's ranking order. Nothing is reordered. |
| `MemoryProperties.TurnsAppend` | psychologist_bot.py:205-211 | Converting two runs of hits gives the turns of the first run followed by those of the second, so the conversion keeps hit order. |
| `MemoryProperties.SaveThenRecall` | psychologist_bot.py:182-212 | A successfully saved user or assistant turn with non-empty text, which the index ranks first, is the first retrieved turn for any top_k >= 1. |
| `MemoryProperties.ClearIsolated` | psychologist_bot.py:219-227 | Erasure leaves every other user's records exactly as they were. |
| `MemoryProperties.ClearKeepsWellKeyed` | psychologist_bot.py:225-227 | Erasure only deletes, so every remaining id still parses to its owner. |
| `MemoryProperties.ClearEmptiesUserWithinCap` | psychologist_bot.py:219-228 | When the ranking lists every id, the user's matches fit under 1000 and the delete succeeds, erasure leaves no record of the user. |
| `MemoryProperties.ClearWithoutRecordsIsFalse` | psychologist_bot.py:225-231 | Erasing a user with no records returns false and changes nothing, whatever the index calls do. |
| `MemoryProperties.ClearTwiceIsFalse` | psychologist_bot.py:217-231 | After an erasure under those same conditions, a second erasure of the same user returns false. |
| `MemoryProperties.RetrieveAfterClearIsEmpty` | psychologist_bot.py:196-231 | After an erasure under those same conditions, every retrieval for that user is empty. |
| `MemoryProperties.ClearBeyondCapLeavesRecords` | psychologist_bot.py:219-227 | With more than 1000 distinct matches, erasure always leaves some of the user's records, whatever it returns. |
| `Locale.GetLang` | psychologist_bot.py:154-155 | The language is the stored one if present, `"en"` otherwise. |
| `Locale.SetLang` | psychologist_bot.py:157-158 | After setting, the session reads back the new code. Other session keys are untouched. |
| `Locale.FreshSessionValid` | psychologist_bot.py:49-152 | A fresh session speaks "en", which is a key of the language table. |
| `Context.Admit` | psychologist_bot.py:286-292 | The admitted history keeps its total length strictly below 4000 and is an order-preserving subsequence of the retrieved history. |
| `Context.AdmitStep` | psychologist_bot.py:289-292 | Each entry is judged against the total of the entries admitted before it. It is appended if total + length < 4000 and skipped otherwise, without stopping. |
| `Context.AdmitGrows` | psychologist_bot.py:289-292 | Processing more of the history only appends to what was admitted. |
| `Context.AdmitExtendsUntilOverflow` | psychologist_bot.py:289-292 | Whatever a stop-at-first-overflow rule admits, the code's skipping rule admits as a leading part. |
| `Context.AdmitSkipsAndContinues` | psychologist_bot.py:289-292 | On entries of 4000, 3000, 1000 and 999 characters, the rule admits exactly the 3000 and the 999 entries. 4000 fails the strict test, 1000 would reach exactly 4000, and the 999 is tried after a skip. The stopping rule admits nothing. |
| `Context.AdmitHistory` | psychologist_bot.py:288-292 | The running-total loop computes exactly the admission rule `Admit`, within budget, in order. |
| `Context.AssembleMessages` | psychologist_bot.py:286-294 | The prompt starts with the system message and ends with the user's message, whatever its length. In between it holds exactly the admitted history: under 4000 characters, in retrieval order. |
| `Context.HandleMessage` | psychologist_bot.py:275-308 | A message with no text, or with a length outside 2..1500, is refused without touching the index. With a valid session language it is answered by saving the user turn, retrieving 6 hits, and prompting with the system prompt of the session language. The prompt holds the admitted history (under 4000 characters, at most 8 messages in all) and the message last. The reply is the completion or the fallback text, and it is saved as an assistant turn. A session language missing from the table always makes the turn raise. A rejected message raises before any save, and an accepted one raises after the user turn is saved. |
| `Context.PromptEchoesCurrentMessage` | psychologist_bot.py:284-294 | When the user turn is saved and the index ranks it first, the first admitted history entry is the live message itself, which also ends the prompt. |
| `Menu.UserContents` | psychologist_bot.py:252 | Keeps the contents of exactly the user-role messages. The list is empty if and only if there is no user turn. A leading user turn gives the first entry. |
| `Menu.UserContentsAppend` | psychologist_bot.py:252 | The user contents of two runs of messages are those of the first followed by those of the second, so message order is kept. |
| `Text.Join` | psychologist_bot.py:252 | `sep.join(parts)` has the summed length plus one separator between consecutive parts. It starts with the first part and ends with the last. |
| `Text.JoinAppend` | psychologist_bot.py:252 | Joining two non-empty lists of parts is joining each and putting one separator between, so every part appears in order, separated by `sep`. |
| `Menu.RecentReply` | psychologist_bot.py:250-255 | An empty retrieval gives the "no recent messages" text. Otherwise the reply is the "recent" heading of the session language followed by the user-turn contents joined with newline, em dash, space. |
| `Menu.RecentWithoutUserTurns` | psychologist_bot.py:251-253 | A non-empty retrieval with no user turn gives the heading followed by nothing. |
| `Menu.RecentListsOwnUserTurns` | psychologist_bot.py:250-252 | The recent listing has at most 3 entries, each the text of a user-role record of the same user. |
| `Menu.Button` | psychologist_bot.py:238-273 | Only "clear" changes the index, through `ClearMemory`. Only `setlang_X` with X a key of the language table changes the session, setting X and greeting in X. An unknown X is refused. A valid session language stays valid and never makes the callback raise. A language missing from the table makes every menu entry raise out of the error handler, so nothing is sent. Unrecognised data, and only that, sends nothing without raising. "recent" replies from a 3-hit retrieval. "clear" replies with the cleared text when the erasure returned true and with the nothing-to-clear text otherwise. "help", "abilities" and "language" reply with their own texts in the session language. |

## Left out

- The chat platform: handlers, keyboards, `reply_text`, async execution, `start`, `error_handler` and `main`. A reply is a value naming its localised text by language and key, and the wording of the texts is not modelled. The system prompt is a placeholder string per language.
- The completion call: the model and its parameters. It is a total function from the prompt to an optional reply, and `.strip()` is part of that function. A failure gives the fixed fallback text, because no language table has an `"error"` entry.
- The embedding call itself: only its reply, or its failure, is a parameter. The provider's vector is stored as returned, and its length is not checked, as in the code.
- Index setup, the network, and cosine similarity. The ranking for a query vector is arbitrary, and the retrieval is given it as a function of the query vector. Index limits on `top_k` are not modelled: a `top_k` of 0 simply returns nothing.
- A failed delete is assumed to leave the index unchanged. The index gives no such guarantee for a partial failure.
- Metadata with a missing role or text is represented by a record whose role or text fails the retrieval filter.
- The clock: `save_message` reads `time.time()` twice, once for the stored timestamp and once for the id. The model uses one reading, given as a parameter, with exact real arithmetic in place of floating point.
- Logging and environment loading.
- `MemoryProperties.SaveThenRecall`: assumes the index ranks the new record first. Similarity ranking is not modelled, so nothing weaker can be proved.
- `MemoryProperties.ClearEmptiesUserWithinCap`: assumes the zero-vector query ranks every stored id. The index promises this only up to its own limits.
- `MemoryProperties.SaveIsolated`: needs a non-negative clock and an index whose ids parse to their owners. A negative clock breaks the id scheme (`Memory.NegativeClockCollides`).
- The "Internal error" reply: the code sends it only when a reply fails for a reason other than the language lookup, i.e. a platform I/O failure, which is not modelled. For a missing language the handler's own keyboard lookup raises again (`Menu.Button`'s `Raised`).
- `MemoryProperties.OtherUsersSaveInvisible`: assumes the index answers the reader's query with the same ranking before and after the other user's save (the `rank` function is shared by both sides). An approximate index may break ties or choose neighbours differently once a record is added, so the code has no such guarantee. `MemoryProperties.HistoryIsolated` makes the same assumption.
