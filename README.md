# Chat message store: a verified model

This project models the core of a small instant-messaging RPC server written in Go
(`rpc-server/handler.go`). The server keeps each conversation as a Redis sorted set and
serves two requests:

- **Send** stores a message in its conversation. A send time of 0 is replaced by the
  current time. The message's JSON text goes into the sorted set named by the
  conversation's canonical key, with the send time as its score.
- **Pull** reads one page of a conversation. It starts at a rank cursor and reads
  oldest-first, or newest-first when `reverse` is set. It returns the page, a
  `has_more` flag and the next cursor.

The model has four modules, one file each:

- `chat_key.dfy` (`ChatKey`): `normaliseChatID`. A raw chat id such as `bob:alice` is
  split on `:`, the participant tokens are sorted in string order, and they are joined
  again. Splitting follows Go's `strings.Split`: n separators give n + 1 tokens, and
  the empty id gives one empty token. The order is the lexicographic order that
  `sort.Strings` uses. Go compares bytes; on UTF-8 text that is the same as comparing
  code points, which is what the model compares.
- `sorted_log.dfy` (`SortedLog`): the backing store. The class `Log<T>` maps each key to
  a sequence of `(score, member)` entries, kept in non-decreasing score order.
  - `Append` is `ZADD`. It inserts at some rank that keeps the order. The rank among
    entries with equal scores is left open.
  - `Range` is `ZRANGE`/`ZREVRANGE` for non-negative bounds. It returns the inclusive
    rank window `[start, stop]`, with `stop` clamped to the last rank, counted from
    the lowest score or from the highest.
- `pagination.dfy` (`Pagination`): what one page should hold, as pure functions over a
  ranked view (`Page`, `HasMore`). It also has what a client reads by following
  `next_cursor` until `has_more` is unset (`Drain`).
- `handler.dfy` (`Handler`): `SaveMessageToRedis`, `GetMessagesFromRedis`, `Send` and
  `Pull`, written as methods over a `Log<Member>`.
  - A stored member is a text, classified by what `json.Unmarshal` makes of it.
    `Json(m)` stands for every text that decodes to the message `m` without error.
    That includes the service's own encoding of `m`, but also any JSON object that
    Unmarshal accepts and turns into `m`: unknown keys ignored, key names matched
    regardless of case, missing fields left zero. `Foreign` stands for every text on
    which Unmarshal returns an error, such as something another writer left under the key.
  - Another writer can store a `Json(m)` member whose score is not `m`'s send time.
    That breaks `RankedBySendTime`, so the send-time-order guarantees of
    `GetMessagesFromRedis` and `Pull` hold only for logs where it holds, such as logs
    written only through `Send`.
  - One `Foreign` member in the window fails the whole read, with no partial page.
    This includes the extra probe rank that Pull reads beyond the page.
  - The clock is the `now` parameter of `Send`.

Main results:

- The canonical key does not depend on the order in which participants are listed.
- Normalising twice gives the same key as normalising once.
- The key keeps every participant, duplicates included.
- Appending keeps each conversation sorted and changes no other conversation.
- A descending read is the mirror image of an ascending one.
- `has_more` is set exactly when more than `limit` ranks exist at or after the cursor.
  The page then holds exactly `limit` messages.
- On an unchanged log, successive pages tile the log with no overlap and no gap.
  With a positive limit, following the cursors reads every rank from the start cursor
  onwards exactly once. With limit 0 at a cursor inside the log, Pull answers
  `has_more` set and `next_cursor` equal to the cursor (`ZeroLimitProbes`), so a client
  that follows the cursors never finishes; `Drain` therefore requires a positive limit.
- Appending a message later than every stored one leaves every full ascending page as
  it was. A full page read before such an append and the next page read after it
  still tile the grown log.
- Every message that Send stores is scored by its own send time. So in a conversation
  written only through Send, a page comes out in send-time order.

## Model

| member | source | states |
|---|---|---|
| `ChatKey.Split` | rpc-server/handler.go:29 | splitting on the delimiter always yields at least one token |
| `ChatKey.SplitHasNoSep` | rpc-server/handler.go:29 | no token produced by the split contains the delimiter |
| `ChatKey.JoinSplit` | rpc-server/handler.go:29-31 | joining the split tokens with the delimiter gives the raw identifier back |
| `ChatKey.SplitJoin` | rpc-server/handler.go:29-31 | splitting a join of at least one delimiter-free token gives exactly those tokens back |
| `ChatKey.LessEqTotal` | rpc-server/handler.go:30 | any two strings are comparable in the order the sort uses |
| `ChatKey.LessEqAntisymmetric` | rpc-server/handler.go:30 | two strings that are each at most the other are equal |
| `ChatKey.LessEqTransitive` | rpc-server/handler.go:30 | the sort order is transitive |
| `ChatKey.LessEq` | rpc-server/handler.go:30 | the string order the sort uses: lexicographic by character, a proper prefix first; `LessEqTotal`, `LessEqAntisymmetric` and `LessEqTransitive` make it a total order |
| `ChatKey.InsertToken` | rpc-server/handler.go:30 | one insertion step of the sort: the token goes before the first token it does not follow; `InsertTokenAdds` and `InsertTokenSorted` state what it does |
| `ChatKey.InsertTokenAdds` | rpc-server/handler.go:30 | inserting a token adds exactly that token, duplicates counted |
| `ChatKey.InsertTokenSorted` | rpc-server/handler.go:30 | inserting a token into a sorted list keeps it sorted |
| `ChatKey.SortStrings` | rpc-server/handler.go:30 | the sort; `SortStringsSorts` and `SortedUnique` show it gives the one sorted permutation of its input |
| `ChatKey.SortStringsSorts` | rpc-server/handler.go:30 | sorting yields a sorted list with the same tokens, duplicates counted |
| `ChatKey.Join` | rpc-server/handler.go:31 | joining tokens with one delimiter between neighbours; `JoinSplit` and `SplitJoin` make it the inverse of `Split` |
| `ChatKey.Normalise` | rpc-server/handler.go:28-32 | the canonical key: split, sort, join; its properties are the `Normalise…` lemmas below |
| `ChatKey.SortedUnique` | rpc-server/handler.go:30 | two sorted lists with the same tokens, duplicates counted, are equal, so the sort's result is unique |
| `ChatKey.NormaliseSortsTokens` | rpc-server/handler.go:28-32 | the key's tokens are sorted and are the raw identifier's tokens, duplicates included |
| `ChatKey.NormaliseOrderIndependent` | rpc-server/handler.go:28-32 | any two listings of the same participants, in any order, normalise to the same key |
| `ChatKey.NormaliseIdempotent` | rpc-server/handler.go:28-32 | normalising a normalised key changes nothing |
| `ChatKey.NormalisePreservesLength` | rpc-server/handler.go:28-32 | the key is exactly as long as the raw identifier |
| `ChatKey.SortedPairIsCanonical` | rpc-server/handler.go:28-32 | `alice:bob` is its own key |
| `ChatKey.TwoPartyExample` | rpc-server/handler.go:28-32 | `bob:alice` normalises to `alice:bob` |
| `SortedLog.Reverse` | rpc-server/handler.go:78 | rank i of the reversed sequence is rank n - 1 - i of the original |
| `SortedLog.RankWindow` | rpc-server/handler.go:77-81 | the window [start, stop] has min(stop, n - 1) - start + 1 entries, or none if start is past the end or after stop, and its i-th entry is rank start + i |
| `SortedLog.InsertKeepsSorted` | rpc-server/handler.go:57-62 | inserting after the smaller-or-equal scores and before the larger ones keeps the scores non-decreasing |
| `SortedLog.InsertedBelow` | rpc-server/handler.go:57-62 | in a sorted insertion, the entry just above the new one scores at least as high |
| `SortedLog.InsertAboveAll` | rpc-server/handler.go:57-62 | a score above every existing score is inserted at the top rank, that is, appended |
| `SortedLog.InsertionGrows` | rpc-server/handler.go:62 | an insertion adds exactly the new entry and keeps every old one |
| `SortedLog.Log.constructor` | rpc-server/handler.go:36 | the store starts with no sorted sets, so every key reads as empty |
| `SortedLog.Log.Append` | rpc-server/handler.go:57-62 | the key's entries become the old entries with the new (score, member) inserted at some rank, still sorted by score; the key exists afterwards; every other key is unchanged |
| `SortedLog.Log.Range` | rpc-server/handler.go:77-81 | exactly the ranks start..min(stop, n - 1); the i-th member is rank start + i counted from the lowest score, or from the highest when reversed |
| `SortedLog.WindowOfSorted` | rpc-server/handler.go:80 | an ascending window of a sorted set is sorted by score |
| `SortedLog.ReverseOfSorted` | rpc-server/handler.go:78 | read from the highest score, a sorted set has non-increasing scores |
| `SortedLog.FullWindow` | rpc-server/handler.go:80 | the window from rank 0 to at least n - 1 is the whole set |
| `SortedLog.FullWindowMirrors` | rpc-server/handler.go:77-81 | reading the whole set descending gives the exact reverse of reading it ascending |
| `SortedLog.WindowMirrors` | rpc-server/handler.go:77-81 | the descending window [start, stop] is the reverse of the ascending window [n - 1 - stop, n - 1 - start] |
| `Pagination.Page` | rpc-server/handler.go:132-136 | a page holds min(limit, n - cursor) entries (none past the end), and its i-th entry is rank cursor + i |
| `Pagination.PageFullWhenMore` | rpc-server/handler.go:132-136 | when there is more to read the page has exactly `limit` entries; otherwise it is everything from the cursor to the end |
| `Pagination.TrimmedWindowIsPage` | rpc-server/handler.go:123-136 | the window [cursor, cursor + limit] has limit + 1 entries exactly when more than `limit` ranks exist from the cursor, and dropping its last entry then (keeping it whole otherwise) gives the page |
| `Pagination.ZeroLimitProbes` | rpc-server/handler.go:124-136 | with limit 0 the page is empty and `has_more` says whether the rank at the cursor exists |
| `Pagination.PagesTile` | rpc-server/handler.go:139 | a page followed by the page at its next cursor is one longer page, with no overlap and no gap |
| `Pagination.DrainReadsSuffix` | rpc-server/handler.go:122-147 | on an unchanged log, following `next_cursor` while `has_more` is set reads every rank from the start cursor to the end, once each, in order |
| `Pagination.AppendKeepsPage` | rpc-server/handler.go:122-147 | appending to the log leaves every page that lies wholly inside the old log unchanged |
| `Pagination.PagesTileAcrossAppend` | rpc-server/handler.go:139 | a full page read before an append and the page at its next cursor read after it are one longer page of the grown log |
| `Pagination.ReversedReadShifts` | rpc-server/handler.go:77-79 | a descending read is not stable under appends: the first newest-first page changes when one entry is added |
| `Pagination.ShortPageThenAppendSkips` | rpc-server/handler.go:138-139 | after a short page the next cursor lies past the end of the log, so an entry appended into that gap is not on the page read at the next cursor |
| `Handler.Decode` | rpc-server/handler.go:88-94 | a member decodes to `m` exactly when it is `Json(m)`, which stands for every text `json.Unmarshal` turns into `m` without error, the service's own encoding among them (`Encode` states that round trip); a `Foreign` member, any text on which Unmarshal errs, fails |
| `Handler.Encode` | rpc-server/handler.go:52 | an encoded message decodes back to the same message |
| `Handler.InsertionKeepsScoring` | rpc-server/handler.go:57-62 | if the new entry and all old entries are scored by their messages' send times, so is every entry after the insertion |
| `Handler.SaveMessageToRedis` | rpc-server/handler.go:48-68 | the message's encoding is inserted, scored by its send time, into the sorted set under the normalised key; other keys are unchanged; the scoring-by-send-time invariant is kept |
| `Handler.DecodedInScoreOrder` | rpc-server/handler.go:77-95 | messages decoded from consecutive ranks of a sorted view carry send times in the view's order |
| `Handler.WindowInSendTimeOrder` | rpc-server/handler.go:77-95 | a window read from a conversation whose entries are scored by send time decodes to messages in ascending send-time order, or descending when reversed |
| `Handler.GetMessagesFromRedis` | rpc-server/handler.go:71-98 | succeeds exactly when every member in the rank window of the normalised key decodes; the result then is the decoded window in rank order, and in send-time order when the log is scored by send time; otherwise it is a decode error with no messages |
| `Handler.Stamped` | rpc-server/handler.go:107-109 | a non-zero send time is kept unchanged, a zero one becomes `now`, and no other field changes |
| `Handler.StampedIsStable` | rpc-server/handler.go:107-109 | sending a stamped message again at any later time keeps its send time |
| `Handler.Send` | rpc-server/handler.go:105-120 | the message with its send time filled in is inserted under the normalised key of its chat, scored by that send time; other keys are unchanged; the response is code 0, "success" |
| `Handler.TrimmedPage` | rpc-server/handler.go:132-136 | decoded window of limit + 1 messages exactly when there is more; dropping the last one (or nothing) leaves the decoded page |
| `Handler.Pull` | rpc-server/handler.go:122-147 | succeeds exactly when every member of the window [cursor, cursor + limit] decodes. Then: `next_cursor` = cursor + limit; `has_more` holds exactly when more than `limit` ranks exist at or after the cursor; the messages are the decoded page, in send-time order when the log is scored by send time. A conversation with no messages gives an empty page, `has_more` false and no error |
| `Handler.SendLatest` | rpc-server/handler.go:105-120 | a send whose time is later than every message already in its conversation appends it at the top rank, keeps the log sorted and scored by send time, leaves other conversations alone, and leaves every page inside the old conversation unchanged |
| `Handler.SendThree` | rpc-server/handler.go:105-120 | three sends with increasing non-zero send times leave that conversation holding exactly the three messages, in order; every other key stays empty |

The methods `FirstPageOfTwo`, `SecondPageOfTwo`, `NewestFirst`, `EmptyConversation`
and `ConversationScenario` have no postcondition. They are client checks of the
contracts above on the three-message conversation.

## Left out

- The Redis connection, `Ping`, `log.Fatal`/`panic` and the global client
  (rpc-server/handler.go:21-25, 34-45, 103) are process wiring. The store is the
  in-memory `Log` that the handler methods receive as a parameter.
- Store failures are not modelled: the in-memory store always answers. The model has
  no error from `ZAdd` (line 62-65) and no error from `ZRange`/`ZRevRange` (line 83-85).
  The only error path is a member that does not decode (line 90-93).
- JSON encoding is abstract. A member is classified by what `json.Unmarshal` yields:
  `Json(m)` for any text it turns into `m`, `Foreign` for any text it rejects. The
  model does not describe which texts those are (unknown keys, key case, missing
  fields), and `Encode` is one text of the class `Json(m)`. `json.Marshal` cannot fail on this message type, so
  line 53-55 has no modelled error. `json.Unmarshal` of the text `null` gives a nil
  message without an error; the model does not represent that text.
- Scores are integers. The source converts the send time to `float64` (line 58), which
  loses precision for very large times.
- Ties between equal scores: Redis orders them by the member's bytes. The model only
  promises non-decreasing scores, so `Append` inserts at some rank among equal scores.
- Redis does not add the same member twice to a sorted set; it updates the score.
  The model does not deduplicate members.
- Negative range indices, and negative cursors or limits, are not modelled. The
  source does not check for them (line 123-124, 133). `cursor` and `limit` are `nat`.
- Pull: does not model 64-bit wrap-around of `cursor + limit` (line 124),
  nor the 32-bit range of `limit`, because integers are unbounded.
- `time.Now().Unix()` (line 108) is the `now` parameter of `Send`.
- Go's `Send` changes the request's message in place (line 108). The model stores a
  new message value with the time filled in. Nothing in the service reads the
  request again afterwards.
- Go compares strings byte by byte. The model compares Unicode code points. The two
  orders agree on UTF-8 text. Invalid UTF-8 byte strings cannot be represented.
- Paging over a log that grows between pulls is stable only for ascending reads when
  every send is later than everything stored. A newest-first read shifts by one rank
  for each append, and a send with an earlier time is inserted mid-log and shifts
  ascending ranks. Either can repeat or skip entries across pulls. After a short page,
  the next cursor skips entries appended into the gap.
- Concurrency between requests is not modelled. The handler has no concurrency of its
  own.
