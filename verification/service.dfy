/** `src/services/leaderboard.service.js`: the service that puts the ranked
    store and the cache together. Its promise to readers is that the cache
    is invisible: a cached board is always exactly what the store would
    answer for the same (game, limit) pair, so `getMembers` returns the same
    rows with or without the cache. `Coherent` states that promise, and
    every operation keeps it. */
module Service {
  import opened Wrappers
  import opened BaseAdapter
  import Adapter
  import LocalAdapter
  import RedisAdapter
  import Cache
  import Keys
  import Glob

  datatype ServiceState = ServiceState(adapter: Adapter.Store, kv: Cache.Store)

  /** Every board cached for a (game, limit) pair is what the store answers
      for that pair right now. */
  ghost predicate Coherent(st: ServiceState) {
    && Adapter.Valid(st.adapter)
    && Cache.WellTyped(st.kv)
    && forall g, l | Keys.BoardKey(g, l) in st.kv && st.kv[Keys.BoardKey(g, l)].Board? ::
         st.kv[Keys.BoardKey(g, l)].rows == Adapter.Read(st.adapter, g, l)
  }

  /** The cache holds popularity flags only, no leaderboard boards. */
  ghost predicate NoBoards(kv: Cache.Store) {
    forall k | k in kv :: kv[k].Flag?
  }

  /** The service as constructed: the configured store, and a cache over
      whatever the Redis server already holds from earlier runs. `server`
      is the server's sorted sets, `kv` its cache keys. The service starts
      coherent when no board is cached yet; a board surviving from an
      earlier run may already be stale (see `RestartServesStaleBoard`). */
  function New(useRedis: bool, server: map<string, RedisAdapter.ZSet>, kv: Cache.Store): (st: ServiceState)
    ensures Adapter.Valid(st.adapter) && |Adapter.Base(st.adapter).dirty| == 0
    ensures st.kv == kv && (st.adapter.Redis? <==> useRedis)
    ensures Cache.WellTyped(kv) && NoBoards(kv) ==> Coherent(st)
  {
    ServiceState(Adapter.New(useRedis, server), kv)
  }

  /** Process start: when the cache is to be cleared on start, the whole
      Redis server is flushed (`invalidateCache()` without a pattern) before
      the service is built. The flush also empties the Redis store's sorted
      sets, since they live on the same server. */
  function Start(useRedis: bool, server: map<string, RedisAdapter.ZSet>, kv: Cache.Store, clearCacheOnStart: bool): (st: ServiceState)
    ensures clearCacheOnStart ==> Coherent(st)
    ensures clearCacheOnStart ==> forall g :: !Cache.IsPopularGame(st.kv, g)
    ensures clearCacheOnStart ==> forall key :: Adapter.Users(st.adapter, key) == {}
    ensures !clearCacheOnStart ==> st == New(useRedis, server, kv)
  {
    if clearCacheOnStart then New(useRedis, map[], Cache.InvalidateCache(kv, None, false))
    else New(useRedis, server, kv)
  }

  /** Without the flush, a restart of the in-memory store keeps the cache
      of the previous process: the store is empty, yet a popular game's
      top-10 board from before is still cached and is what `getMembers`
      returns. */
  lemma RestartServesStaleBoard()
    ensures var g := "g";
            var before := ScoreEntry("u", 5, 0);
            var st := Start(false, map[], map[Keys.PopularGameIdentifierKey(g) := Cache.Flag, Keys.BoardKey(g, 10) := Cache.Board([before])], false);
            && !Coherent(st)
            && Adapter.Read(st.adapter, g, 10) == []
            && GetMembers(st, g, 10).1 == [before]
  {
    var g := "g";
    var before := ScoreEntry("u", 5, 0);
    var kv := map[Keys.PopularGameIdentifierKey(g) := Cache.Flag, Keys.BoardKey(g, 10) := Cache.Board([before])];
    var st := Start(false, map[], kv, false);
    Cache.NotBothPrefixes(Keys.BoardKey(g, 10));
    assert Keys.PopularGameIdentifierKey(g) != Keys.BoardKey(g, 10) by {
      assert Keys.PopularGameIdentifierKey(g)[0] == 'i';
    }
    assert Adapter.Users(st.adapter, Keys.LeaderboardKey(g)) == {};
    assert Adapter.Read(st.adapter, g, 10) == [];
    assert Cache.GetCachedLeaderboard(kv, g, 10) == Some([before]);
  }

  /** Coherence depends on the store only through each game's data. */
  lemma CoherentAcrossSameData(a: Adapter.Store, b: Adapter.Store, kv: Cache.Store)
    requires Coherent(ServiceState(a, kv)) && Adapter.Valid(b)
    requires forall key :: Adapter.SameData(a, b, key)
    ensures Coherent(ServiceState(b, kv))
  {
    forall g, l | Keys.BoardKey(g, l) in kv && kv[Keys.BoardKey(g, l)].Board?
      ensures kv[Keys.BoardKey(g, l)].rows == Adapter.Read(b, g, l)
    {
      Adapter.ReadFollowsData(a, b, g, l);
    }
  }

  /** The invalidation pattern `updateScore` passes, as the source builds it:
      the cache key of the game id followed by a colon and `*`, with the game
      id pasted into a glob pattern unescaped. */
  function AsWrittenPattern(gameId: string): (p: string)
    ensures p != ""
    ensures (forall i :: 0 <= i < |gameId| ==> !Glob.IsMeta(gameId[i])) ==>
      forall k :: Glob.Matches(p, k) <==> Glob.IsPrefix(Keys.CachedPopularGameKey(gameId + ":"), k)
  {
    var prefix := Keys.CachedPopularGameKey(gameId + ":");
    MetaFreeCacheKey(gameId);
    Glob.EscapedPrefixMatchesAll(prefix);
    assert Keys.CachedPopularGameKey(gameId + ":*") == prefix + "*";
    Keys.CachedPopularGameKey(gameId + ":*")
  }

  /** A game id without glob meta characters gives a cache prefix without
      them, which escaping leaves as it is. */
  lemma MetaFreeCacheKey(gameId: string)
    ensures (forall i :: 0 <= i < |gameId| ==> !Glob.IsMeta(gameId[i])) ==>
      Glob.Escape(Keys.CachedPopularGameKey(gameId + ":")) == Keys.CachedPopularGameKey(gameId + ":")
  {
    if forall i :: 0 <= i < |gameId| ==> !Glob.IsMeta(gameId[i]) {
      var prefix := Keys.CachedPopularGameKey(gameId + ":");
      assert prefix == Keys.CachePrefix + gameId + ":";
      forall i | 0 <= i < |prefix|
        ensures !Glob.IsMeta(prefix[i])
      {
        if i < |Keys.CachePrefix| {
          assert prefix[i] == Keys.CachePrefix[i];
        } else if i < |Keys.CachePrefix| + |gameId| {
          assert prefix[i] == gameId[i - |Keys.CachePrefix|];
        }
      }
    }
  }

  /** The pattern meant: the game's cache prefix with its glob meta
      characters escaped, then `*`. It matches exactly the keys that start
      with `game:popular:limit:<gameId>:`. */
  function GameBoardsPattern(gameId: string): (p: string)
    ensures forall k :: Glob.Matches(p, k) <==> Glob.IsPrefix(Keys.CachedPopularGameKey(gameId + ":"), k)
    ensures p != ""
  {
    Glob.EscapedPrefixMatchesAll(Keys.CachedPopularGameKey(gameId + ":"));
    Glob.Escape(Keys.CachedPopularGameKey(gameId + ":")) + "*"
  }

  /** For a game id with no glob meta character the two patterns coincide. */
  lemma PatternsAgreeWithoutMeta(gameId: string)
    requires forall i :: 0 <= i < |gameId| ==> !Glob.IsMeta(gameId[i])
    ensures AsWrittenPattern(gameId) == GameBoardsPattern(gameId)
  {
    MetaFreeCacheKey(gameId);
    assert AsWrittenPattern(gameId) == Keys.CachedPopularGameKey(gameId + ":") + "*";
  }

  /** The body of `updateScore` with the invalidation pattern as a parameter:
      select the game, mark it dirty, write the score with the current time
      `now` (`Date.now()`), re-count the game's users, flag the game when it
      has become popular, and drop the cached boards the pattern matches.
      `invalidationFails` stands for a Redis error inside `invalidateCache`,
      which is logged and swallowed. */
  function UpdateScoreWith(st: ServiceState, pattern: string, gameId: string, userId: string, score: int, now: int, invalidationFails: bool): (r: (ServiceState, (string, string, int)))
    requires Adapter.Valid(st.adapter)
    ensures Adapter.Valid(r.0.adapter)
    ensures r.1 == (gameId, userId, score)
    ensures Adapter.Base(r.0.adapter).gameId == Keys.LeaderboardKey(gameId)
    ensures forall g :: g in Adapter.Base(r.0.adapter).dirty <==> g in Adapter.Base(st.adapter).dirty || g == gameId
    ensures Adapter.Users(r.0.adapter, Keys.LeaderboardKey(gameId)) == Adapter.Users(st.adapter, Keys.LeaderboardKey(gameId)) + {userId}
    ensures Adapter.RoundTrips(st.adapter, score, now) ==>
      Adapter.Record(r.0.adapter, Keys.LeaderboardKey(gameId), userId) == Some(LocalAdapter.ScoreData(score, now))
    ensures forall v | v != userId :: Adapter.Record(r.0.adapter, Keys.LeaderboardKey(gameId), v) == Adapter.Record(st.adapter, Keys.LeaderboardKey(gameId), v)
    ensures forall key | key != Keys.LeaderboardKey(gameId) :: Adapter.SameData(st.adapter, r.0.adapter, key)
    ensures r.0.kv == Cache.InvalidateCache(
      Cache.TrackGamePopularity(st.kv, gameId, |Adapter.Users(r.0.adapter, Keys.LeaderboardKey(gameId))|),
      Some(pattern), invalidationFails)
  {
    var selected := Adapter.SetGameId(st.adapter, gameId);
    var marked := Adapter.MarkDirty(selected, gameId);
    var written := Adapter.UpdateMemberScore(marked, userId, score, now);
    WriteSteps(st.adapter, selected, marked, written, gameId, userId);
    WriteRecords(st.adapter, selected, marked, written, gameId, userId, score, now);
    var gameSize := Adapter.GetMemberCount(written);
    var tracked := Cache.TrackGamePopularity(st.kv, gameId, gameSize);
    var kv := Cache.InvalidateCache(tracked, Some(pattern), invalidationFails);
    (ServiceState(written, kv), (gameId, userId, score))
  }

  /** The three store calls of `updateScore` together: only the updated
      game's data changes, and it gains the user. */
  lemma WriteSteps(a: Adapter.Store, selected: Adapter.Store, marked: Adapter.Store, written: Adapter.Store, gameId: string, userId: string)
    requires Adapter.Valid(a)
    requires Adapter.Base(selected).gameId == Keys.LeaderboardKey(gameId) && forall key :: Adapter.SameData(a, selected, key)
    requires Adapter.Base(marked).gameId == Adapter.Base(selected).gameId && forall key :: Adapter.SameData(selected, marked, key)
    requires Adapter.Users(written, Adapter.Base(marked).gameId) == Adapter.Users(marked, Adapter.Base(marked).gameId) + {userId}
    requires forall key | key != Adapter.Base(marked).gameId :: Adapter.SameData(marked, written, key)
    ensures Adapter.Users(written, Keys.LeaderboardKey(gameId)) == Adapter.Users(a, Keys.LeaderboardKey(gameId)) + {userId}
    ensures forall key | key != Keys.LeaderboardKey(gameId) :: Adapter.SameData(a, written, key)
  {
    var k := Keys.LeaderboardKey(gameId);
    assert Adapter.SameData(a, selected, k) && Adapter.SameData(selected, marked, k);
    forall key | key != k
      ensures Adapter.SameData(a, written, key)
    {
      Adapter.SameDataTransitive(a, selected, marked, key);
      Adapter.SameDataTransitive(a, marked, written, key);
    }
  }

  /** The three store calls of `updateScore` write the user's record and
      no other user's. */
  lemma WriteRecords(a: Adapter.Store, selected: Adapter.Store, marked: Adapter.Store, written: Adapter.Store, gameId: string, userId: string, score: int, now: int)
    requires Adapter.Base(marked).gameId == Keys.LeaderboardKey(gameId)
    requires Adapter.SameData(a, selected, Keys.LeaderboardKey(gameId)) && Adapter.SameData(selected, marked, Keys.LeaderboardKey(gameId))
    requires Adapter.RoundTrips(marked, score, now) ==> Adapter.Record(written, Keys.LeaderboardKey(gameId), userId) == Some(LocalAdapter.ScoreData(score, now))
    requires forall v | v != userId :: Adapter.Record(written, Keys.LeaderboardKey(gameId), v) == Adapter.Record(marked, Keys.LeaderboardKey(gameId), v)
    ensures Adapter.RoundTrips(a, score, now) ==> Adapter.Record(written, Keys.LeaderboardKey(gameId), userId) == Some(LocalAdapter.ScoreData(score, now))
    ensures forall v | v != userId :: Adapter.Record(written, Keys.LeaderboardKey(gameId), v) == Adapter.Record(a, Keys.LeaderboardKey(gameId), v)
  {
    Adapter.RecordFollowsData(a, selected, Keys.LeaderboardKey(gameId));
    Adapter.RecordFollowsData(selected, marked, Keys.LeaderboardKey(gameId));
  }

  /** `updateScore(eventData)` with the corrected invalidation pattern. */
  function UpdateScore(st: ServiceState, gameId: string, userId: string, score: int, now: int, invalidationFails: bool): (r: (ServiceState, (string, string, int)))
    requires Adapter.Valid(st.adapter)
    ensures Adapter.Users(r.0.adapter, Keys.LeaderboardKey(gameId)) == Adapter.Users(st.adapter, Keys.LeaderboardKey(gameId)) + {userId}
    ensures Adapter.RoundTrips(st.adapter, score, now) ==>
      Adapter.Record(r.0.adapter, Keys.LeaderboardKey(gameId), userId) == Some(LocalAdapter.ScoreData(score, now))
    ensures forall v | v != userId :: Adapter.Record(r.0.adapter, Keys.LeaderboardKey(gameId), v) == Adapter.Record(st.adapter, Keys.LeaderboardKey(gameId), v)
    ensures gameId in Adapter.Base(r.0.adapter).dirty
    ensures forall g :: Cache.IsPopularGame(r.0.kv, g) <==>
      Cache.IsPopularGame(st.kv, g) || (g == gameId && |Adapter.Users(r.0.adapter, Keys.LeaderboardKey(gameId))| >= Cache.PopularThreshold)
    ensures !invalidationFails ==> forall l :: Keys.BoardKey(gameId, l) !in r.0.kv
  {
    var r := UpdateScoreWith(st, GameBoardsPattern(gameId), gameId, userId, score, now, invalidationFails);
    FlagsSurviveInvalidation(gameId);
    r
  }

  /** The game's boards are matched by its pattern; popularity flags never are. */
  lemma FlagsSurviveInvalidation(gameId: string)
    ensures forall g :: !Glob.Matches(GameBoardsPattern(gameId), Keys.PopularGameIdentifierKey(g))
    ensures forall l :: Glob.Matches(GameBoardsPattern(gameId), Keys.BoardKey(gameId, l))
  {
    forall g
      ensures !Glob.IsPrefix(Keys.CachedPopularGameKey(gameId + ":"), Keys.PopularGameIdentifierKey(g))
    {
      assert Keys.PopularGameIdentifierKey(g)[0] == 'i';
    }
  }

  /** An update leaves the cache coherent (when the invalidation goes
      through): the updated game has no cached board left, and every other
      game's boards are still what the store answers, since their data did
      not change. */
  lemma UpdateScoreKeepsCoherent(st: ServiceState, gameId: string, userId: string, score: int, now: int)
    requires Coherent(st)
    ensures Coherent(UpdateScore(st, gameId, userId, score, now, false).0)
  {
    var r := UpdateScore(st, gameId, userId, score, now, false).0;
    var tracked := Cache.TrackGamePopularity(st.kv, gameId, |Adapter.Users(r.adapter, Keys.LeaderboardKey(gameId))|);
    forall g, l | Keys.BoardKey(g, l) in r.kv && r.kv[Keys.BoardKey(g, l)].Board?
      ensures r.kv[Keys.BoardKey(g, l)].rows == Adapter.Read(r.adapter, g, l)
    {
      var key := Keys.BoardKey(g, l);
      assert key in tracked && r.kv[key] == tracked[key];
      Cache.NotAFlagKey(g + ":" + Keys.Decimal.IntToString(l));
      assert key in st.kv && tracked[key] == st.kv[key];
      if g == gameId {
        assert false;
      }
      assert Keys.LeaderboardKey(g) != Keys.LeaderboardKey(gameId);
      Adapter.ReadFollowsData(st.adapter, r.adapter, g, l);
    }
  }

  /** `updateScore` as written: the unescaped pattern. */
  function UpdateScoreAsWritten(st: ServiceState, gameId: string, userId: string, score: int, now: int, invalidationFails: bool): (r: (ServiceState, (string, string, int)))
    requires Adapter.Valid(st.adapter)
    ensures !invalidationFails ==> forall k | k in r.0.kv :: !Glob.Matches(AsWrittenPattern(gameId), k)
  {
    assert |AsWrittenPattern(gameId)| > 0;
    UpdateScoreWith(st, AsWrittenPattern(gameId), gameId, userId, score, now, invalidationFails)
  }

  /** With game id `a\` the unescaped pattern reads `...:a\:*`: the backslash
      escapes the colon, so the pattern selects the boards of game `a` and
      misses the game's own. Starting from a coherent state holding an empty
      cached top-10 board for the game, one update leaves that board in place
      while the store now ranks the new user: the cache serves a stale
      leaderboard. */
  lemma AsWrittenUpdateLeavesStaleBoard()
    ensures var g := "a\\";
            var st := ServiceState(Adapter.New(true, map[]), map[Keys.PopularGameIdentifierKey(g) := Cache.Flag, Keys.BoardKey(g, 10) := Cache.Board([])]);
            && Coherent(st)
            && !Coherent(UpdateScoreAsWritten(st, g, "u", 5, 0, false).0)
  {
    var g := "a\\";
    var a := Adapter.New(true, map[]);
    var kv := map[Keys.PopularGameIdentifierKey(g) := Cache.Flag, Keys.BoardKey(g, 10) := Cache.Board([])];
    EmptyBoardCoherent(g);
    MissesOwnBoard();
    StaleAfterMiss(ServiceState(a, kv), g, "u", 5, 0);
  }

  /** On the Redis store, an update whose pattern misses a cached empty
      top-10 board of the game leaves the cache incoherent. */
  lemma StaleAfterMiss(st: ServiceState, g: string, userId: string, score: int, now: int)
    requires Adapter.Valid(st.adapter) && st.adapter.Redis?
    requires Keys.BoardKey(g, 10) in st.kv && st.kv[Keys.BoardKey(g, 10)] == Cache.Board([])
    requires !Glob.Matches(AsWrittenPattern(g), Keys.BoardKey(g, 10))
    ensures !Coherent(UpdateScoreAsWritten(st, g, userId, score, now, false).0)
  {
    var r := UpdateScoreAsWritten(st, g, userId, score, now, false).0;
    assert r.kv[Keys.BoardKey(g, 10)] == Cache.Board([]);
    var z := RedisAdapter.ZSetAt(r.adapter.redis, Keys.LeaderboardKey(g));
    assert userId in z.Keys;
    RedisAdapter.MembersCount(z, 10);
    assert Adapter.Read(r.adapter, g, 10) == RedisAdapter.Members(z, 10);
  }

  /** An empty Redis store with a popular game whose empty top-10 board is
      cached is coherent. */
  lemma EmptyBoardCoherent(g: string)
    ensures Coherent(ServiceState(Adapter.New(true, map[]), map[Keys.PopularGameIdentifierKey(g) := Cache.Flag, Keys.BoardKey(g, 10) := Cache.Board([])]))
  {
    var a := Adapter.New(true, map[]);
    var kv := map[Keys.PopularGameIdentifierKey(g) := Cache.Flag, Keys.BoardKey(g, 10) := Cache.Board([])];
    forall h, l | Keys.BoardKey(h, l) in kv && kv[Keys.BoardKey(h, l)].Board?
      ensures kv[Keys.BoardKey(h, l)].rows == Adapter.Read(a, h, l)
    {
      Cache.NotAFlagKey(h + ":" + Keys.Decimal.IntToString(l));
      Keys.BoardKeyInjective(h, l, g, 10);
      assert |Adapter.Read(a, h, l)| == 0;
    }
    Cache.NotBothPrefixes(Keys.PopularGameIdentifierKey(g));
  }

  /** The unescaped pattern of game `a\` does not match the game's own
      top-10 key. */
  lemma MissesOwnBoard()
    ensures !Glob.Matches(AsWrittenPattern("a\\"), Keys.BoardKey("a\\", 10))
  {
    var lit := Keys.CachePrefix + "a";
    assert forall i :: 0 <= i < |lit| ==> !Glob.IsMeta(lit[i]);
    assert Keys.Decimal.IntToString(10) == "10";
    assert AsWrittenPattern("a\\") == lit + "\\:*";
    assert Keys.BoardKey("a\\", 10) == lit + "\\:10";
    Glob.LiteralPrefixMatches(lit, "\\:*", "\\:10");
  }

  /** `getMembers(gameId, limit)`: an unpopular game is read from the store;
      a popular one is served from the cache when a board is there, and
      otherwise read from the store and the result cached. On a coherent
      state the answer is always what the store holds. */
  function GetMembers(st: ServiceState, gameId: string, limit: int): (r: (ServiceState, seq<ScoreEntry>))
    requires Adapter.Valid(st.adapter)
    ensures Adapter.Valid(r.0.adapter)
    ensures forall key :: Adapter.SameData(st.adapter, r.0.adapter, key)
    ensures Coherent(st) ==> Coherent(r.0) && r.1 == Adapter.Read(st.adapter, gameId, limit)
    ensures !Cache.IsPopularGame(st.kv, gameId) ==> r.0.kv == st.kv
    ensures Cache.IsPopularGame(st.kv, gameId) ==> Cache.GetCachedLeaderboard(r.0.kv, gameId, limit) == Some(r.1)
    ensures !Cache.IsPopularGame(st.kv, gameId) ==> r.1 == Adapter.Read(st.adapter, gameId, limit)
    ensures Cache.IsPopularGame(st.kv, gameId) && Cache.GetCachedLeaderboard(st.kv, gameId, limit).Some? ==>
      r == (st, Cache.GetCachedLeaderboard(st.kv, gameId, limit).value)
    ensures Cache.IsPopularGame(st.kv, gameId) && Cache.GetCachedLeaderboard(st.kv, gameId, limit).None? ==>
      r.1 == Adapter.Read(st.adapter, gameId, limit)
  {
    if !Cache.IsPopularGame(st.kv, gameId) then
      var (a, rows) := Adapter.SelectAndRead(st.adapter, gameId, limit);
      MissKeepsCoherent(st, a, st.kv);
      (ServiceState(a, st.kv), rows)
    else
      match Cache.GetCachedLeaderboard(st.kv, gameId, limit)
      case Some(rows) => (st, rows)
      case None =>
        var (a, rows) := Adapter.SelectAndRead(st.adapter, gameId, limit);
        var kv := Cache.CacheLeaderboard(st.kv, gameId, rows, limit);
        StoreKeepsCoherent(st, a, gameId, limit, rows);
        (ServiceState(a, kv), rows)
  }

  lemma MissKeepsCoherent(st: ServiceState, a: Adapter.Store, kv: Cache.Store)
    requires Adapter.Valid(a) && forall key :: Adapter.SameData(st.adapter, a, key)
    requires kv == st.kv
    ensures Coherent(st) ==> Coherent(ServiceState(a, kv))
  {
    if Coherent(st) {
      CoherentAcrossSameData(st.adapter, a, kv);
    }
  }

  /** Caching a freshly read board keeps the cache coherent. */
  lemma StoreKeepsCoherent(st: ServiceState, a: Adapter.Store, gameId: string, limit: int, rows: seq<ScoreEntry>)
    requires Adapter.Valid(st.adapter) && Adapter.Valid(a) && forall key :: Adapter.SameData(st.adapter, a, key)
    requires rows == Adapter.Read(st.adapter, gameId, limit)
    ensures Coherent(st) ==> Coherent(ServiceState(a, Cache.CacheLeaderboard(st.kv, gameId, rows, limit)))
  {
    if Coherent(st) {
      CoherentAcrossSameData(st.adapter, a, st.kv);
      var kv := Cache.CacheLeaderboard(st.kv, gameId, rows, limit);
      Adapter.ReadFollowsData(st.adapter, a, gameId, limit);
      forall g, l | Keys.BoardKey(g, l) in kv && kv[Keys.BoardKey(g, l)].Board?
        ensures kv[Keys.BoardKey(g, l)].rows == Adapter.Read(a, g, l)
      {
        if Keys.BoardKey(g, l) == Keys.BoardKey(gameId, limit) {
          Keys.BoardKeyInjective(g, l, gameId, limit);
        }
      }
    }
  }

  /** Reading a popular game twice: the second read is a cache hit that
      returns the same rows and changes nothing. */
  lemma SecondReadIsCached(st: ServiceState, gameId: string, limit: int)
    requires Adapter.Valid(st.adapter) && Cache.IsPopularGame(st.kv, gameId)
    ensures var first := GetMembers(st, gameId, limit);
            GetMembers(first.0, gameId, limit) == first
  {
  }

  /** `getGameSize(gameId)`: the number of users the game holds. */
  function GetGameSize(st: ServiceState, gameId: string): (r: (ServiceState, nat))
    ensures r.1 == |Adapter.Users(st.adapter, Keys.LeaderboardKey(gameId))|
    ensures r.0.kv == st.kv && forall key :: Adapter.SameData(st.adapter, r.0.adapter, key)
    ensures Coherent(st) ==> Coherent(r.0)
  {
    var a := Adapter.SetGameId(st.adapter, gameId);
    SelectKeepsCoherent(st, gameId);
    (ServiceState(a, st.kv), Adapter.GetMemberCount(a))
  }

  lemma SelectKeepsCoherent(st: ServiceState, gameId: string)
    ensures Coherent(st) ==> Coherent(ServiceState(Adapter.SetGameId(st.adapter, gameId), st.kv))
  {
    if Coherent(st) {
      CoherentAcrossSameData(st.adapter, Adapter.SetGameId(st.adapter, gameId), st.kv);
    }
  }

  /** `exportDataToDB()`: the store's export; the cache is not touched and
      stays coherent. */
  method ExportDataToDB(st: ServiceState, db: Database) returns (r: ServiceState, out: Database)
    requires Adapter.Valid(st.adapter)
    ensures r.kv == st.kv && |Adapter.Base(r.adapter).dirty| == 0
    ensures forall k :: k in out <==> k in db || k in ExportedKeys(Adapter.Base(st.adapter).dirty)
    ensures forall k | k in ExportedKeys(Adapter.Base(st.adapter).dirty) ::
      forall u :: Lists(out[k], u) <==> u in Adapter.Users(st.adapter, k)
    ensures forall k | k in ExportedKeys(Adapter.Base(st.adapter).dirty) ::
      DistinctUsers(out[k]) && ScoreDescending(out[k]) && Adapter.RowsMatchRecords(st.adapter, k, out[k])
    ensures forall k | k in db && k !in ExportedKeys(Adapter.Base(st.adapter).dirty) :: out[k] == db[k]
    ensures forall key :: Adapter.SameData(st.adapter, r.adapter, key)
    ensures Coherent(st) ==> Coherent(r)
  {
    var a;
    a, out := Adapter.ExportDataToDB(st.adapter, db);
    r := ServiceState(a, st.kv);
    if Coherent(st) {
      CoherentAcrossSameData(st.adapter, a, st.kv);
    }
  }
}
