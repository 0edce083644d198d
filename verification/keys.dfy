/** The key builders of `src/utils/common.js`: three string namespaces, one for
    each kind of stored object, plus the cache key of one (game, limit) pair
    that the cache service builds from them. */
module Keys {
  import Decimal
  import Glob

  const LeaderboardPrefix: string := "leaderboard:"
  const PopularPrefix: string := "is:popular:"
  const CachePrefix: string := "game:popular:limit:"

  /** The sorted-set / in-memory namespace of a game. */
  function LeaderboardKey(gameId: string): (k: string)
    ensures Glob.IsPrefix(LeaderboardPrefix, k) && k[|LeaderboardPrefix|..] == gameId
  {
    LeaderboardPrefix + gameId
  }

  /** The key whose presence flags a game as popular. */
  function PopularGameIdentifierKey(gameId: string): (k: string)
    ensures Glob.IsPrefix(PopularPrefix, k) && k[|PopularPrefix|..] == gameId
  {
    PopularPrefix + gameId
  }

  /** The cache namespace; the suffix is `gameId:limit` or a pattern. */
  function CachedPopularGameKey(suffix: string): (k: string)
    ensures Glob.IsPrefix(CachePrefix, k) && k[|CachePrefix|..] == suffix
  {
    CachePrefix + suffix
  }

  /** The key under which the top-`limit` leaderboard of a game is cached:
      the cache key of the game id, a colon and the limit in decimal. */
  function BoardKey(gameId: string, limit: int): (k: string)
    ensures Glob.IsPrefix(CachedPopularGameKey(gameId + ":"), k)
  {
    CachedPopularGameKey(gameId + ":" + Decimal.IntToString(limit))
  }

  lemma LeaderboardKeyInjective(a: string, b: string)
    requires LeaderboardKey(a) == LeaderboardKey(b)
    ensures a == b
  {
  }

  lemma PopularGameIdentifierKeyInjective(a: string, b: string)
    requires PopularGameIdentifierKey(a) == PopularGameIdentifierKey(b)
    ensures a == b
  {
  }

  lemma CachedPopularGameKeyInjective(a: string, b: string)
    requires CachedPopularGameKey(a) == CachedPopularGameKey(b)
    ensures a == b
  {
  }

  /** No key of one namespace is a key of another: the namespaces start with
      different characters. */
  lemma NamespacesDisjoint(a: string, b: string)
    ensures LeaderboardKey(a) != PopularGameIdentifierKey(b)
    ensures LeaderboardKey(a) != CachedPopularGameKey(b)
    ensures PopularGameIdentifierKey(a) != CachedPopularGameKey(b)
  {
    assert LeaderboardKey(a)[0] == 'l';
    assert PopularGameIdentifierKey(a)[0] == 'i' && PopularGameIdentifierKey(b)[0] == 'i';
    assert CachedPopularGameKey(b)[0] == 'g';
  }

  /** In `a:d` with no colon in `d`, the colon after `a` is the last one. */
  lemma LastColon(a: string, d: string)
    requires ':' !in d
    ensures (a + ":" + d)[|a|] == ':'
    ensures forall i :: |a| < i < |a + ":" + d| ==> (a + ":" + d)[i] != ':'
  {
    var x := a + ":" + d;
    forall i | |a| < i < |x|
      ensures x[i] != ':'
    {
      assert x[i] == d[i - |a| - 1];
    }
  }

  /** If `a:d == b:e` and neither `d` nor `e` holds a colon, both sides split
      at the same colon. */
  lemma SplitAtLastColon(a: string, d: string, b: string, e: string)
    requires a + ":" + d == b + ":" + e
    requires ':' !in d && ':' !in e
    ensures a == b && d == e
  {
    var x := a + ":" + d;
    LastColon(a, d);
    LastColon(b, e);
    assert |a| == |b|;
    assert a == x[..|a|] && b == (b + ":" + e)[..|b|];
    assert d == x[|a| + 1..] && e == (b + ":" + e)[|b| + 1..];
  }

  /** Distinct (game, limit) pairs are cached under distinct keys, even when
      game ids contain colons: the decimal form of the limit never does. */
  lemma BoardKeyInjective(g1: string, l1: int, g2: string, l2: int)
    requires BoardKey(g1, l1) == BoardKey(g2, l2)
    ensures g1 == g2 && l1 == l2
  {
    var d1 := Decimal.IntToString(l1);
    var d2 := Decimal.IntToString(l2);
    CachedPopularGameKeyInjective(g1 + ":" + d1, g2 + ":" + d2);
    NoColonInDecimal(l1);
    NoColonInDecimal(l2);
    SplitAtLastColon(g1, d1, g2, d2);
    Decimal.IntToStringInjective(l1, l2);
  }

  lemma NoColonInDecimal(n: int)
    ensures ':' !in Decimal.IntToString(n)
  {
  }
}
