/** `src/services/cache.service.js`: popularity flags and cached top-N
    leaderboards kept in the key-value side of Redis. Time-to-live values are
    not modelled: a key stays until it is deleted. */
module Cache {
  import opened Wrappers
  import opened BaseAdapter
  import Keys
  import Glob

  /** `config.POPULAR_THRESHOLD`, at its default. */
  const PopularThreshold: int := 100

  /** What the service stores: the string `'true'` under a popularity key,
      or a JSON-serialised leaderboard under a cache key. */
  datatype Value = Flag | Board(rows: seq<ScoreEntry>)

  type Store = map<string, Value>

  /** Flags live only in the popularity namespace and boards only in the
      cache namespace. */
  ghost predicate WellTyped(kv: Store) {
    forall k | k in kv ::
      && (kv[k].Flag? ==> Glob.IsPrefix(Keys.PopularPrefix, k))
      && (kv[k].Board? ==> Glob.IsPrefix(Keys.CachePrefix, k))
  }

  /** `a` and `b` hold the same keys with the same values, except maybe `key`. */
  ghost predicate AgreeOutside(a: Store, b: Store, key: string) {
    forall k | k != key :: (k in a <==> k in b) && (k in a ==> a[k] == b[k])
  }

  /** `isPopularGame(gameId)`: the game's popularity key exists. In a
      well-typed store that key can only hold a flag, so a game is popular
      exactly when its flag is set. */
  function IsPopularGame(kv: Store, gameId: string): (b: bool)
    ensures WellTyped(kv) ==> (b <==> Keys.PopularGameIdentifierKey(gameId) in kv && kv[Keys.PopularGameIdentifierKey(gameId)] == Flag)
  {
    NotBothPrefixes(Keys.PopularGameIdentifierKey(gameId));
    Keys.PopularGameIdentifierKey(gameId) in kv
  }

  /** `trackGamePopularity({gameId, userCount})`: flags the game once its
      user count reaches the threshold. It never clears a flag, and touches
      no other key. */
  function TrackGamePopularity(kv: Store, gameId: string, userCount: int): (r: Store)
    ensures forall g :: IsPopularGame(r, g) <==> IsPopularGame(kv, g) || (g == gameId && userCount >= PopularThreshold)
    ensures AgreeOutside(kv, r, Keys.PopularGameIdentifierKey(gameId))
    ensures WellTyped(kv) ==> WellTyped(r)
  {
    if userCount >= PopularThreshold then
      kv[Keys.PopularGameIdentifierKey(gameId) := Flag]
    else
      kv
  }

  /** `getCachedLeaderboard(gameId, limit)`: the board cached for this
      (game, limit) pair, if any. A hit returns the stored board itself, and
      in a well-typed store a hit is exactly the presence of the key. */
  function GetCachedLeaderboard(kv: Store, gameId: string, limit: int): (r: Option<seq<ScoreEntry>>)
    ensures r.Some? ==> Keys.BoardKey(gameId, limit) in kv && kv[Keys.BoardKey(gameId, limit)] == Board(r.value)
    ensures WellTyped(kv) ==> (r.Some? <==> Keys.BoardKey(gameId, limit) in kv)
  {
    var key := Keys.BoardKey(gameId, limit);
    NotBothPrefixes(key);
    if key in kv && kv[key].Board? then Some(kv[key].rows) else None
  }

  /** The two namespaces start with different characters. */
  lemma NotBothPrefixes(k: string)
    ensures !(Glob.IsPrefix(Keys.PopularPrefix, k) && Glob.IsPrefix(Keys.CachePrefix, k))
  {
    if Glob.IsPrefix(Keys.PopularPrefix, k) {
      assert k[0] == 'i';
    }
  }

  /** `cacheLeaderboard({gameId, scores, limit})`: stores the board only
      when the game is popular; a later `getCachedLeaderboard` for the same
      pair returns it. Nothing else changes. */
  function CacheLeaderboard(kv: Store, gameId: string, scores: seq<ScoreEntry>, limit: int): (r: Store)
    ensures !IsPopularGame(kv, gameId) ==> r == kv
    ensures IsPopularGame(kv, gameId) ==> GetCachedLeaderboard(r, gameId, limit) == Some(scores)
    ensures AgreeOutside(kv, r, Keys.BoardKey(gameId, limit))
    ensures forall g :: IsPopularGame(r, g) <==> IsPopularGame(kv, g)
    ensures WellTyped(kv) ==> WellTyped(r)
  {
    var key := Keys.BoardKey(gameId, limit);
    if !IsPopularGame(kv, gameId) then kv
    else
      NotAFlagKey(gameId + ":" + Keys.Decimal.IntToString(limit));
      kv[key := Board(scores)]
  }

  /** No cache key is a popularity key. */
  lemma NotAFlagKey(suffix: string)
    ensures forall g :: Keys.PopularGameIdentifierKey(g) != Keys.CachedPopularGameKey(suffix)
  {
    forall g
      ensures Keys.PopularGameIdentifierKey(g) != Keys.CachedPopularGameKey(suffix)
    {
      Keys.NamespacesDisjoint(g, suffix);
    }
  }

  /** Caching the board of one (game, limit) pair leaves what is cached for
      every other pair as it was. */
  lemma OtherPairsUntouched(kv: Store, gameId: string, scores: seq<ScoreEntry>, limit: int, other: string, otherLimit: int)
    requires other != gameId || otherLimit != limit
    ensures GetCachedLeaderboard(CacheLeaderboard(kv, gameId, scores, limit), other, otherLimit)
         == GetCachedLeaderboard(kv, other, otherLimit)
  {
    if Keys.BoardKey(other, otherLimit) == Keys.BoardKey(gameId, limit) {
      Keys.BoardKeyInjective(other, otherLimit, gameId, limit);
    }
  }

  /** `CacheService.invalidateCache(key)`. `None` is the default `null`;
      it and the empty pattern are falsy and flush everything. Otherwise the
      keys the pattern matches (`KEYS`) are deleted (`DEL`). A failing Redis
      call (`failed`) is caught and logged, and then the store is as it was. */
  function InvalidateCache(kv: Store, key: Option<string>, failed: bool): (r: Store)
    ensures failed ==> r == kv
    ensures !failed && (key.None? || key.value == "") ==> r == map[]
    ensures !failed && key.Some? && key.value != "" ==>
      forall k :: k in r <==> k in kv && !Glob.Matches(key.value, k)
    ensures forall k | k in r :: k in kv && r[k] == kv[k]
    ensures WellTyped(kv) ==> WellTyped(r)
  {
    if failed then kv
    else
      match key
      case None => map[]
      case Some(pattern) =>
        if pattern == "" then map[]
        else map k | k in kv && !Glob.Matches(pattern, k) :: kv[k]
  }

  /** Invalidating twice with the same pattern is the same as once. */
  lemma InvalidateIdempotent(kv: Store, key: Option<string>)
    ensures InvalidateCache(InvalidateCache(kv, key, false), key, false) == InvalidateCache(kv, key, false)
  {
  }
}
