# Leaderboard ranking engine, modelled in Dafny

This project models the ranking core of a leaderboard service: a service that
takes score-update events for (game, user) pairs and answers "top N of game
G" queries. The model covers these parts:

- **Two interchangeable ranked stores.** An in-memory store keeps, per game, a
  map from score to the users holding it plus a map from user to score. A
  Redis store keeps one sorted set per game, whose score packs the score and
  the timestamp into one number.
- **The dirty set shared by both stores.** These are the games written since
  the last export, which the periodic export upserts into the database.
- **Key builders.** Each stored object kind has its own key namespace.
- **A Redis-backed cache.** Games with at least 100 users are flagged popular,
  and their top-N answers are cached until the next score update invalidates
  them by key pattern.
- **The request validators and error classes.**

The files follow the source's layout: `base_adapter.dfy`, `local_adapter.dfy`,
`redis_adapter.dfy`, `adapter.dfy` (the store the service picks),
`cache.dfy`, `service.dfy`, `keys.dfy`, `validations.dfy` and `errors.dfy`.
Supporting modules:

- `seqs.dfy`: insertion-ordered sets as duplicate-free sequences.
- `sorting.dfy`: sorting a set by a strict total order.
- `lex.dfy`: the member order Redis uses to break ties.
- `decimal.dfy`: decimal rendering and parsing.
- `glob.dfy`: Redis `KEYS` pattern matching.
- `wrappers.dfy`.

The model states and proves the following properties:

- **In-memory store.** The bucket maps stay coupled to the user map. A read
  lists exactly the users whose score is among the first `limit` distinct
  scores, in descending score order with no user twice.
- **Redis store.** Decoding a composite returns the score. It returns the
  timestamp exactly when the score is not negative or the timestamp is 0. A
  read is a prefix of the
  reverse-ordered set, and `limit = 0` reads everything.
- **Exports.** An export writes, for each dirty game, a full snapshot holding
  every user once. It keeps every other document and leaves the dirty set
  empty.
- **The cache.** Storing a board and reading it back round-trips. Distinct
  (game, limit) pairs never share a key. No update clears a popularity flag;
  only the start-up flush does.
- **The service.** The cache is *coherent*: every cached board equals what
  the store would answer now. Every service operation keeps this true,
  provided the invalidation pattern escapes the game id and the invalidation
  succeeds. Under those conditions, `getMembers` returns exactly what the
  store holds. The service starts coherent when the cache holds no board,
  as after the start-up flush. Without the flush, a board left by an earlier
  process can be stale from the start.
- **Updates.** An update stores (score, now) as the user's record in the
  game, in both stores, and leaves every other user's record alone.

## Model

| member | source | states |
|---|---|---|
| Keys.LeaderboardKey | src/utils/common.js:1-3 | a game's store key is `leaderboard:` followed by the game id, which can be read back from the key |
| Keys.PopularGameIdentifierKey | src/utils/common.js:4-6 | a popularity flag's key is `is:popular:` followed by the game id, which can be read back from the key |
| Keys.CachedPopularGameKey | src/utils/common.js:7-9 | a cache key is `game:popular:limit:` followed by the suffix, which can be read back from the key |
| Keys.LeaderboardKeyInjective | src/utils/common.js:1-3 | two games never share a leaderboard key |
| Keys.NamespacesDisjoint | src/utils/common.js:1-9 | no leaderboard key is a popularity or cache key, and no popularity key is a cache key |
| Keys.BoardKey | src/services/cache.service.js:23 | the cache key of (game, limit) starts with the game's cache prefix `game:popular:limit:<game>:` |
| Keys.BoardKeyInjective | src/services/cache.service.js:23 | distinct (game, limit) pairs are cached under distinct keys, even for game ids containing colons |
| Decimal.IntRoundTrip | src/adapters/redis.adapter.js:58 | parsing the decimal text of any integer (as Redis sends scores) gives that integer back |
| Decimal.IntToStringInjective | src/services/cache.service.js:23 | distinct limits render to distinct decimal texts |
| Errors.NewAppError | src/utils/errors.js:1-10 | an application error keeps its message and code, is operational, and its status is `StatusFor` of the code: "fail" exactly when the code is positive and its leading decimal digit is 4, "error" otherwise |
| Errors.StatusFor | src/utils/errors.js:5 | the status is "fail" exactly when the code is positive and its leading decimal digit is 4, and "error" otherwise |
| Decimal.LeadsWithFour | src/utils/errors.js:5 | the decimal text of an integer starts with `4` exactly when the integer is positive and its leading digit is 4 |
| Errors.StatusOfHttpCode | src/utils/errors.js:5 | for three-digit codes the status is "fail" exactly in the 400-499 range |
| Errors.ValidationError | src/utils/errors.js:12-16 | a validation error has code 400 and status "fail" |
| Errors.NotFoundError | src/utils/errors.js:18-22 | a not-found error has code 404 and status "fail" |
| Errors.ConflictError | src/utils/errors.js:24-28 | a conflict error has code 409 and status "fail" |
| Validations.ValidateScoreUpdate | src/utils/validations.js:3-25 | an event passes exactly when its type is "scoreUpdate", user and game ids are non-empty strings and the score is a number above zero; a rejection is a 400 "fail" error |
| Validations.FirstFailingCheckDecides | src/utils/validations.js:6-20 | the first failing check, in source order, alone decides the message, whatever later fields hold |
| Validations.ScoreMustBePositiveNumber | src/utils/validations.js:18-20 | zero, NaN and numeric strings are rejected as scores; any positive number is accepted |
| Validations.TimestampNeverValidated | src/utils/validations.js:22-24 | the event's timestamp field never changes the verdict |
| Validations.ValidateLimit | src/utils/validations.js:27-33 | a limit passes exactly when it is missing/NaN, zero, or between 1 and 100; otherwise the limit message with code 400 |
| BaseAdapter.NewBase | src/adapters/base.adapter.js:6-7 | a new store has an empty dirty set |
| BaseAdapter.MarkDirty | src/adapters/base.adapter.js:60-62 | the dirty set afterwards is the old one plus the game, still duplicate-free; the selected game is unchanged |
| BaseAdapter.MarkDirtyIdempotent | src/adapters/base.adapter.js:60-62 | marking a game twice is the same as marking it once |
| BaseAdapter.ResetDirty | src/adapters/base.adapter.js:68-70 | the dirty set becomes empty and the selected game is kept |
| BaseAdapter.CallUnimplemented | src/adapters/base.adapter.js:14-53 | every abstract operation on the base class fails with "Method not implemented." |
| BaseAdapter.ExportedKeys | src/adapters/local.adapter.js:125-134 | the definition of the key set an export writes: the leaderboard keys of the given game ids. The export contracts (`LocalAdapter.ExportDataToDB`, `RedisAdapter.ExportDataToDB`) state that these keys are exactly the ones written |
| Seqs.Add | src/adapters/base.adapter.js:61 | adding to an insertion-ordered set appends only a missing element and keeps every other |
| Seqs.Without | src/adapters/local.adapter.js:67 | deleting from an insertion-ordered set removes exactly that element, keeps every other and stays duplicate-free |
| Seqs.WithoutRemovesAt | src/adapters/local.adapter.js:67 | deleting from a duplicate-free sequence cuts out the one occurrence and keeps every other element in its order |
| Sorting.SortBy | src/adapters/local.adapter.js:94-95 | sorting a set yields each element once, ordered by the given strict total order |
| Sorting.RankOfSorted | src/adapters/local.adapter.js:94-96 | position i of the sorted sequence holds the element with exactly i elements above it |
| Lex.Total | src/adapters/redis.adapter.js:54 | two different members are always ordered one way or the other, so equal scores have a definite order |
| Lex.Transitive | src/adapters/redis.adapter.js:54 | the member tie-break order is transitive |
| LocalAdapter.RemoveFromBucket | src/adapters/local.adapter.js:66-70 | the user leaves the old score's bucket, and the bucket disappears once empty |
| LocalAdapter.Detach | src/adapters/local.adapter.js:63-71 | after removing the user from its old bucket, every other user is still in exactly the buckets it was in |
| LocalAdapter.Attach | src/adapters/local.adapter.js:73-77 | the user is appended to the new score's bucket, which is created if missing; other buckets are untouched |
| LocalAdapter.AttachRestoresCoupling | src/adapters/local.adapter.js:73-78 | re-attaching the user and recording its score restores the bucket/record coupling |
| LocalAdapter.UpdateTable | src/adapters/local.adapter.js:51-79 | an update keeps the coupling, records the new score and time, and leaves the user last in its new bucket |
| LocalAdapter.UpdateTableKeepsOthers | src/adapters/local.adapter.js:51-79 | an update does not move any other user between buckets |
| LocalAdapter.BucketsFollowRecords | src/adapters/local.adapter.js:73-78 | a user is in a bucket exactly when its record holds that score, and the bucket keys are exactly the scores held |
| LocalAdapter.SameRecordsSameBuckets | src/adapters/local.adapter.js:51-79 | two coupled tables with the same records have the same buckets as sets |
| LocalAdapter.RepeatedUpdateIsStable | src/adapters/local.adapter.js:51-79 | applying the same update twice leaves the game's maps exactly as one update does, bucket order included, so a read answers alike |
| LocalAdapter.ReAttachLast | src/adapters/local.adapter.js:63-77 | taking the last user out of its bucket and appending it again gives back the same score map |
| LocalAdapter.SortedScores | src/adapters/local.adapter.js:94-95 | the distinct scores, each once, strictly descending |
| LocalAdapter.SliceEnd | src/adapters/local.adapter.js:96 | `slice(0, end)` keeps `end` items when 0 <= end <= n, all n when end is larger, and never more than n |
| LocalAdapter.RankOfPosition | src/adapters/local.adapter.js:94-96 | the i-th sorted score has exactly i distinct scores above it |
| LocalAdapter.TopIsRankBelow | src/adapters/local.adapter.js:94-96 | the first n sorted scores are exactly the scores with fewer than n scores above them |
| LocalAdapter.BucketEntries | src/adapters/local.adapter.js:99-107 | one row per bucket user, in bucket order, carrying that user's recorded timestamp |
| LocalAdapter.Emit | src/adapters/local.adapter.js:98-108 | concatenating buckets in descending score order gives rows in descending score with no user twice, each matching its record |
| LocalAdapter.Members | src/adapters/local.adapter.js:90-111 | a user is listed exactly when its score is among the first `limit` distinct scores; rows descend by score, list nobody twice and match the records |
| LocalAdapter.ScoresAtMostUsers | src/adapters/local.adapter.js:127-128 | there are never more distinct scores than users |
| LocalAdapter.FullReadListsEveryone | src/adapters/local.adapter.js:127-128 | a read whose limit is at least the number of distinct scores lists every user |
| LocalAdapter.FullSnapshotCount | src/adapters/local.adapter.js:127-128 | a full snapshot has exactly one row per user |
| LocalAdapter.FullRead | src/adapters/local.adapter.js:127-128 | reading with the game's user count as limit gives a full snapshot of the game |
| LocalAdapter.New | src/adapters/local.adapter.js:9-13 | a new store is valid, clean, and every game is empty |
| LocalAdapter.SetGameId | src/adapters/local.adapter.js:19-22 | selects the game's leaderboard key and changes no data |
| LocalAdapter.GetGameLeaderboard | src/adapters/local.adapter.js:32-41 | the game's maps exist afterwards, empty if new; no game's data changes |
| LocalAdapter.UpdateMemberScore | src/adapters/local.adapter.js:51-79 | the selected game's table is updated (user record replaced), every other game's table is unchanged |
| LocalAdapter.GetMembers | src/adapters/local.adapter.js:90-111 | returns the selected game's read and changes no game's data |
| LocalAdapter.GetMemberCount | src/adapters/local.adapter.js:117-119 | the number of users the selected game records, 0 for an unknown game |
| LocalAdapter.ApplyToTable | src/adapters/local.adapter.js:51-79 | after a run of updates the table is coupled and its users are the old users plus every updated user |
| LocalAdapter.ApplyUpdates | src/adapters/local.adapter.js:51-79 | a run of updates changes only the selected game's table |
| LocalAdapter.MemberCountIsDistinctUsers | src/adapters/local.adapter.js:117-119 | after a run of updates to a new game, its size is the number of distinct users updated, and every other game is empty |
| LocalAdapter.ExportDataToDB | src/adapters/local.adapter.js:121-136 | each dirty game's document becomes a full snapshot of it; other documents are kept; the dirty set is emptied and no data changes |
| LocalAdapter.ExportGame | src/adapters/local.adapter.js:126-134 | one game's document becomes its full snapshot, nothing else in the database changes |
| LocalAdapter.ExportStep | src/adapters/local.adapter.js:125-135 | the export loop's invariant carries over one more game |
| RedisAdapter.FloorDiv | src/adapters/redis.adapter.js:59 | the quotient q satisfies q*1e13 <= c < (q+1)*1e13, for negative composites too |
| RedisAdapter.JsRem | src/adapters/redis.adapter.js:60 | the remainder differs from the composite by a multiple of 1e13, lies strictly between -1e13 and 1e13, and has the composite's sign |
| RedisAdapter.DecodeEncode | src/adapters/redis.adapter.js:43 | decoding gives the score back always, the timestamp back exactly when the score is not negative (or the timestamp is 0), and timestamp - 1e13 otherwise |
| RedisAdapter.EncodeOrder | src/adapters/redis.adapter.js:43-44 | composites compare like (score, timestamp) lexicographically, and are equal only for equal pairs |
| RedisAdapter.FloorDivMonotone | src/adapters/redis.adapter.js:59 | a larger composite never decodes to a smaller score |
| RedisAdapter.FloorDivUnique | src/adapters/redis.adapter.js:59 | the decoded score is the unique q with q*1e13 <= c < (q+1)*1e13 |
| RedisAdapter.RevAboveStrictTotal | src/adapters/redis.adapter.js:54 | reverse-range order (higher score first, ties by descending member) is a strict total order on a set's entries |
| RedisAdapter.RevSorted | src/adapters/redis.adapter.js:54 | the set's entries, each member once, in reverse-range order |
| RedisAdapter.RangeCount | src/adapters/redis.adapter.js:52-54 | a range never holds more entries than the set; the exact count for each limit is stated by `RedisAdapter.MembersCount` |
| RedisAdapter.WithScoresAt | src/adapters/redis.adapter.js:54 | pair i of the flat reply is the i-th member and its score in decimal |
| RedisAdapter.DecodeReply | src/adapters/redis.adapter.js:56-62 | one row per reply pair, in order, decoded from the parsed composite |
| RedisAdapter.DecodeRenderedReply | src/adapters/redis.adapter.js:54-62 | decoding a rendered reply gives exactly the decoded entries of the pairs, in order |
| RedisAdapter.Members | src/adapters/redis.adapter.js:51-65 | the row count follows the range rules; rows are members with their decoded composites, distinct, and in `ZREVRANGE` order: higher composite first, equal composites by member name descending. No unlisted member comes before a listed one in that order |
| RedisAdapter.ReadOfPrefix | src/adapters/redis.adapter.js:54-62 | decoding any prefix of the reverse-ordered set gives such rows |
| RedisAdapter.RowsOrdered | src/adapters/redis.adapter.js:54-62 | rows of a prefix are distinct members in non-increasing composite and score order |
| RedisAdapter.RowsTop | src/adapters/redis.adapter.js:54-62 | no member left out of a prefix has a higher composite than a listed one; a full-length prefix lists everyone |
| RedisAdapter.MembersCount | src/adapters/redis.adapter.js:52-54 | a positive limit reads min(limit, size) rows; limit 0 reads the whole set |
| RedisAdapter.Snapshot | src/adapters/redis.adapter.js:79 | `getMembers(0)` is a full snapshot: every member exactly once, descending |
| RedisAdapter.New | src/adapters/redis.adapter.js:9-12 | a store over the server's existing sorted sets: valid and clean, every set the server holds is read as it is, and every other key reads as empty |
| RedisAdapter.SetGameId | src/adapters/redis.adapter.js:18-21 | selects the game's leaderboard key and changes no data |
| RedisAdapter.ZAdd | src/adapters/redis.adapter.js:44 | the member maps to the new composite, the set gains at most that member, other members keep theirs |
| RedisAdapter.UpdateMemberScore | src/adapters/redis.adapter.js:28-45 | only the selected game's set changes, by adding the packed composite |
| RedisAdapter.UpdateThenDecode | src/adapters/redis.adapter.js:43-44 | after an update with a non-negative score and a 13-digit timestamp, the member decodes to exactly that score and timestamp |
| RedisAdapter.GetMembers | src/adapters/redis.adapter.js:51-65 | the rows are exactly `Members` of the selected game's set: the top `limit` in `ZREVRANGE` order, the whole set for limit 0 |
| RedisAdapter.Encode | src/adapters/redis.adapter.js:43 | for a timestamp in range the composite lies in [score·1e13, (score+1)·1e13), so composites order by score first and are negative exactly when the score is |
| RedisAdapter.DecodeEntry | src/adapters/redis.adapter.js:56-62 | the member is kept and the score is the floor of composite / 1e13; for a non-negative composite, score·1e13 + timestamp gives the composite back with the timestamp in [0, 1e13) |
| RedisAdapter.GetMemberCount | src/adapters/redis.adapter.js:71-73 | the number of members of the selected game's set |
| RedisAdapter.ApplyUpdates | src/adapters/redis.adapter.js:28-45 | a run of updates changes only the selected game's set |
| RedisAdapter.UpdatesAddMembers | src/adapters/redis.adapter.js:44 | after a run of updates the members are the old members plus every updated user |
| RedisAdapter.MemberCountIsDistinctUsers | src/adapters/redis.adapter.js:71-73 | after a run of updates to a game the server holds no set for, its size is the number of distinct users updated |
| RedisAdapter.ReAddReplaces | src/adapters/redis.adapter.js:44 | re-adding a member replaces its composite and keeps the count |
| RedisAdapter.ExportDataToDB | src/adapters/redis.adapter.js:75-87 | each dirty game's document becomes a full snapshot of its set; other documents are kept; the dirty set is emptied; the last exported game stays selected |
| RedisAdapter.ExportGame | src/adapters/redis.adapter.js:78-86 | one game's document becomes its full snapshot, nothing else in the database changes |
| RedisAdapter.ExportStep | src/adapters/redis.adapter.js:78-86 | the export loop's invariant carries over one more game |
| Glob.Escape | src/services/cache.service.js:86 | escaping never shortens a string and leaves a string without meta characters as it is |
| Glob.StarMatchesEverything | src/services/cache.service.js:86 | the pattern `*` matches every key |
| Glob.EscapedPrefixMatches | src/services/cache.service.js:86 | an escaped literal followed by `*` matches exactly the keys that start with the literal |
| Glob.LiteralPrefixMatches | src/services/cache.service.js:86 | a leading meta-free literal in a pattern consumes the same literal from the key |
| Adapter.New | src/services/leaderboard.service.js:17 | the configured store starts valid and clean. The Redis store holds the server's existing sets, the in-memory store starts with every game empty |
| Adapter.SetGameId | src/adapters/local.adapter.js:19-22 | either store selects the game's leaderboard key and keeps every game's data |
| Adapter.MarkDirty | src/adapters/base.adapter.js:60-62 | either store marks the game dirty and keeps every game's data |
| Adapter.UpdateMemberScore | src/services/leaderboard.service.js:47-52 | the selected game gains the user, whose record becomes (score, timestamp) (for Redis when the score is not negative and the timestamp below 1e13); no other user's record and no other game's data changes |
| Adapter.LocalWriteRecords | src/adapters/local.adapter.js:51-79 | an in-memory update writes the user's record as (score, timestamp) and no other user's |
| Adapter.RedisWriteRecords | src/adapters/redis.adapter.js:28-45 | a Redis update's record decodes to (score, timestamp) when both are in range, and no other user's record changes |
| Adapter.GetMembers | src/services/leaderboard.service.js:74 | the rows are the selected store's own read (`LocalAdapter.Members` or `RedisAdapter.Members` of the selected game), each row carrying the user's stored record; no data changes |
| Adapter.GetMemberCount | src/services/leaderboard.service.js:53 | the count is the number of users of the selected game |
| Adapter.SelectAndRead | src/services/leaderboard.service.js:74 | selecting a game then reading gives that store's own read of the game's data (`LocalAdapter.Members` or `RedisAdapter.Members`), each row carrying the user's stored record; no data changes |
| Adapter.ReadFollowsData | src/services/leaderboard.service.js:74 | two stores with the same data for a game give the same read of it |
| Adapter.CountFollowsData | src/services/leaderboard.service.js:96 | two stores with the same data for a game report the same size |
| Adapter.ExportDataToDB | src/services/leaderboard.service.js:103-105 | each dirty game's document lists exactly its users, once each, descending, every row carrying the user's recorded score and timestamp; other documents are kept; no data changes |
| Cache.TrackGamePopularity | src/services/cache.service.js:52-64 | a game is popular afterwards exactly when it was before or its count reached 100; no other key changes |
| Cache.GetCachedLeaderboard | src/services/cache.service.js:40-44 | a hit returns the board stored under the pair's key; in a well-typed store a board under the key means a hit |
| Cache.IsPopularGame | src/services/cache.service.js:70-73 | in a well-typed store a game is popular exactly when its popularity key holds the flag |
| Glob.Matches | src/services/cache.service.js:86 | a pattern without glob meta characters matches exactly the key equal to it |
| Cache.CacheLeaderboard | src/services/cache.service.js:18-33 | an unpopular game's board is not stored; a popular game's board is read back by `getCachedLeaderboard`; popularity and other keys are unchanged |
| Cache.OtherPairsUntouched | src/services/cache.service.js:18-33 | caching one (game, limit) pair does not change what is cached for any other pair |
| Cache.InvalidateCache | src/services/cache.service.js:81-93 | a null or empty pattern empties the store; otherwise exactly the matched keys go; a failing call leaves the store as it was; nothing is ever added |
| Cache.InvalidateIdempotent | src/services/cache.service.js:81-93 | invalidating twice with the same pattern is the same as once |
| Service.New | src/services/leaderboard.service.js:12-19 | the service over whatever the server already holds: valid, clean, with the server's cache keys, and coherent when no board is cached |
| Service.Start | src/index.js:10 | with clear-cache-on-start the whole server is flushed first: the service is coherent, no game is popular and every game is empty; without it the service starts over what the server holds |
| Service.RestartServesStaleBoard | src/index.js:10 | without the flush, an in-memory service restarted over a cache holding an earlier process's board is incoherent: the store is empty, yet `getMembers` returns the old board |
| Service.CoherentAcrossSameData | src/services/leaderboard.service.js:70-88 | coherence depends on the store only through each game's data |
| Service.GameBoardsPattern | src/services/leaderboard.service.js:58-59 | the escaped pattern matches exactly the keys under `game:popular:limit:<game>:` |
| Service.PatternsAgreeWithoutMeta | src/services/leaderboard.service.js:58-59 | for a game id without glob meta characters the pattern as written and the escaped one are the same |
| Service.UpdateScoreWith | src/services/leaderboard.service.js:42-61 | an update marks the game dirty, selects it, adds the user to it with the record (score, now) (for Redis when the score is not negative and now below 1e13), leaves every other user's record and every other game's data alone, and returns (game, user, score) |
| Service.UpdateScore | src/services/leaderboard.service.js:42-61 | the game gains the user with the record (score, now) and is dirty, no other user's record changes; the game is popular afterwards exactly when it was or now has 100 users; no board of the game survives a successful invalidation |
| Service.FlagsSurviveInvalidation | src/services/leaderboard.service.js:54-59 | the invalidation pattern matches every board of the game and no popularity flag |
| Service.UpdateScoreKeepsCoherent | src/services/leaderboard.service.js:42-61 | a successful update keeps every cached board equal to what the store answers |
| Service.UpdateScoreAsWritten | src/services/leaderboard.service.js:58-59 | the unescaped pattern leaves in place only keys it does not match |
| Service.AsWrittenPattern | src/services/leaderboard.service.js:58-59 | the pattern is never empty; when the game id holds no glob meta characters it matches exactly the keys that start with the game's cache prefix `game:popular:limit:<gameId>:` |
| Service.AsWrittenUpdateLeavesStaleBoard | src/services/leaderboard.service.js:58-59 | with game id `a\` an update from a coherent state leaves a stale cached board |
| Service.StaleAfterMiss | src/services/leaderboard.service.js:58-59 | on the Redis store, when the pattern misses a cached empty top-10 board of the game, the update leaves the cache incoherent |
| Service.MissesOwnBoard | src/services/leaderboard.service.js:58-59 | the unescaped pattern of game `a\` does not match that game's own top-10 key |
| Service.GetMembers | src/services/leaderboard.service.js:70-88 | an unpopular game, or a popular one with no cached board, is answered by the store's read; a popular game with a cached board gets that board and nothing changes; for a popular game the answer is cached afterwards; on a coherent state the answer is always what the store holds and coherence is kept |
| Service.StoreKeepsCoherent | src/services/leaderboard.service.js:81-86 | caching a freshly read board keeps the cache coherent |
| Service.SecondReadIsCached | src/services/leaderboard.service.js:70-88 | reading a popular game twice: the second read hits the cache, returns the same rows and changes nothing |
| Service.GetGameSize | src/services/leaderboard.service.js:95-97 | the game's number of users; coherence kept, cache untouched |
| Service.ExportDataToDB | src/services/leaderboard.service.js:103-105 | each dirty game's document lists exactly its users, once each, descending, every row carrying the user's recorded score and timestamp; other documents are kept; no game's data changes; the cache is untouched and stays coherent |

## Left out

- I/O is not modelled: the Redis client, MongoDB, logging and HTTP. The
  database is a map from leaderboard key to rows, and an upsert replaces one
  entry.
- The clock is not modelled. `Date.now()` is the `now` parameter of
  `Service.UpdateScore`.
- Concurrency is not modelled. Every operation runs to completion before the
  next begins. The source awaits between the steps of `updateScore` and
  `getMembers`, and between `KEYS` and `DEL`, so interleaved requests can
  observe intermediate states.
- Floating point is not modelled. Scores, timestamps and composites are
  unbounded integers. JS numbers are doubles, so a composite above 2^53
  (a score of roughly 901 or more with a 13-digit timestamp) loses the
  timestamp's low digits. Fractional scores, which validation accepts, are
  not modelled either.
- ISO-8601 timestamp rendering (`toISOString`) is not modelled. Timestamps
  stay milliseconds. The JSON round trip of cached rows is the identity.
- Time-to-live values are not modelled (`setex` with
  `POPULAR_GAME_RESPONSE_TTL` and `POPULAR_GAME_TTL`). Keys live until
  deleted. The configuration reads both TTLs from the same environment
  variable, `src/config/config.js:24-25`.
- Configuration is not modelled. `POPULAR_THRESHOLD` is its default of 100,
  and the store kind is a boolean.
- In Redis mode the cache and the sorted sets share one server. They are
  modelled as two stores. The one flush, at start-up (`Service.Start`),
  empties both.
- Redis glob bracket classes (`[abc]`) are not modelled, and neither are
  byte-level member comparison and Redis errors outside `invalidateCache`.
- `importDataFromDB` of the in-memory store has an empty body and is not
  modelled.
- The `LeaderboardService` and `RedisClient` singletons are not modelled.
  The controller, its `parseInt(limit) ?? 10` default and the error-handling
  middleware are not part of this model.
- Export failures are not modelled: every upsert succeeds. In the source an
  upsert that throws ends the export loop after the dirty set was cleared
  (`src/adapters/local.adapter.js:125-134`,
  `src/adapters/redis.adapter.js:75-87`). The games not yet written stay
  unsaved until they are updated again, and `src/cron/persistData.cron.js`
  only logs the error.
- RedisAdapter.New: the connection is not modelled. The store is the
  server's sorted sets as they are; their composites are not required to
  come from `Encode`.
- Adapter.New: the in-memory store starts empty, as a new process does. Only
  the Redis store keeps data across restarts.
- Service.New: coherence at start is stated only for a cache holding no
  board. A board left by an earlier process may disagree with the store,
  as `Service.RestartServesStaleBoard` shows.
- LocalAdapter.SliceEnd: its contract states the non-negative cases and the bound. A negative end, counted from the back, is computed but not stated; the service's limits are never negative.
- RedisAdapter.RangeCount: its contract states only the bound. The exact count for each limit is `RedisAdapter.MembersCount`.
- RedisAdapter.DecodeEncode: holds for timestamps in [0, 1e13), the 13-digit
  millisecond range the encoding assumes.

## Findings

| source | as written | input that shows it | evidently intended | confidence | as-written member | corrected member |
|---|---|---|---|---|---|---|
| src/services/leaderboard.service.js:58-59 | the game id is pasted unescaped into the Redis glob pattern `game:popular:limit:<gameId>:*` that invalidates the game's cached boards | game id `a\` gives the pattern `game:popular:limit:a\:*`. There the backslash escapes the colon, so the key `game:popular:limit:a\:10` is not matched, and a cached top-10 board survives the update and is served stale | delete every cached board of the updated game, escaping glob meta characters in the id | high for the pattern semantics; not executed | Service.UpdateScoreAsWritten, Service.AsWrittenUpdateLeavesStaleBoard | Service.UpdateScore, Service.UpdateScoreKeepsCoherent |
