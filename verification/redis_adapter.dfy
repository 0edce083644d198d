/** The sorted-set ranked store of `src/adapters/redis.adapter.js`. A score
    and its timestamp are packed into one composite number,
    `score * 10^13 + timestamp`, and handed to a sorted set (ZADD / ZREVRANGE
    / ZCARD). The sorted set is modelled as a map from member to composite;
    a read sorts the members the way ZREVRANGE does, renders the
    WITHSCORES reply and decodes it pair by pair. */
module RedisAdapter {
  import opened BaseAdapter
  import Seqs
  import Sorting
  import Keys
  import Decimal
  import Lex

  /** The packing factor, ten to the thirteenth: room for a millisecond
      timestamp below the score. */
  const Multiplier: int := 10000000000000

  /** The composite written for a score and its timestamp: the score scaled
      by the packing factor, plus the timestamp. With a timestamp in range
      the composite lies in the score's own band of width 10^13, and it is
      negative exactly when the score is. */
  function Encode(score: int, timestamp: int): (c: int)
    ensures 0 <= timestamp < Multiplier ==> score * Multiplier <= c < (score + 1) * Multiplier
    ensures 0 <= timestamp < Multiplier ==> (c < 0 <==> score < 0)
  {
    score * Multiplier + timestamp
  }

  /** The score part of a composite: the quotient rounded down, for negative
      composites too. */
  function FloorDiv(c: int): (q: int)
    ensures q * Multiplier <= c < (q + 1) * Multiplier
  {
    c / Multiplier
  }

  /** JS `a % multiplier`: the remainder has the sign of the dividend
      (truncating division), unlike the Euclidean `%` of mathematics. */
  function JsRem(a: int): (r: int)
    ensures -Multiplier < r < Multiplier
    ensures (a - r) % Multiplier == 0
    ensures a >= 0 ==> r >= 0
    ensures a < 0 ==> r <= 0
  {
    if a >= 0 then a % Multiplier else -((-a) % Multiplier)
  }

  /** One decoded row: the floor gives the score, the JS remainder the
      timestamp. The score is the band the composite lies in; for a
      non-negative composite score and timestamp add back up to it. */
  function DecodeEntry(member: string, c: int): (e: ScoreEntry)
    ensures e.userId == member
    ensures e.score * Multiplier <= c < (e.score + 1) * Multiplier
    ensures c >= 0 ==> e.score * Multiplier + e.timestamp == c && 0 <= e.timestamp < Multiplier
  {
    ScoreEntry(member, FloorDiv(c), JsRem(c))
  }

  lemma FloorDivUnique(c: int, q: int)
    requires q * Multiplier <= c < (q + 1) * Multiplier
    ensures FloorDiv(c) == q
  {
  }

  /** Decoding an encoded pair gives the score back whatever its sign, and
      the timestamp back exactly when the composite is not negative: for a
      negative score and a non-zero timestamp the JS remainder comes out
      negative. */
  lemma DecodeEncode(member: string, score: int, timestamp: int)
    requires 0 <= timestamp < Multiplier
    ensures DecodeEntry(member, Encode(score, timestamp)).score == score
    ensures DecodeEntry(member, Encode(score, timestamp)).timestamp == timestamp <==> score >= 0 || timestamp == 0
    ensures score < 0 && timestamp > 0 ==> DecodeEntry(member, Encode(score, timestamp)).timestamp == timestamp - Multiplier
  {
    var c := Encode(score, timestamp);
    assert (score + 1) * Multiplier == score * Multiplier + Multiplier;
    FloorDivUnique(c, score);
    if score >= 0 {
      assert c >= 0;
      assert c % Multiplier == timestamp;
    } else if timestamp > 0 {
      var n := -c;
      assert n == (-score - 1) * Multiplier + (Multiplier - timestamp);
      assert n % Multiplier == Multiplier - timestamp;
    } else {
      assert -c == (-score) * Multiplier;
      assert (-c) % Multiplier == 0;
    }
  }

  /** With timestamps in [0, 10^13) the composite orders by score first and
      breaks ties by the later timestamp. */
  lemma EncodeOrder(s1: int, t1: int, s2: int, t2: int)
    requires 0 <= t1 < Multiplier && 0 <= t2 < Multiplier
    ensures Encode(s1, t1) > Encode(s2, t2) <==> s1 > s2 || (s1 == s2 && t1 > t2)
    ensures Encode(s1, t1) == Encode(s2, t2) <==> s1 == s2 && t1 == t2
  {
    if s1 > s2 {
      assert s1 * Multiplier >= s2 * Multiplier + Multiplier by {
        assert (s1 - s2) * Multiplier >= Multiplier;
      }
    } else if s1 < s2 {
      assert s2 * Multiplier >= s1 * Multiplier + Multiplier by {
        assert (s2 - s1) * Multiplier >= Multiplier;
      }
    }
  }

  /** A larger composite never decodes to a smaller score. */
  lemma FloorDivMonotone(a: int, b: int)
    requires a >= b
    ensures FloorDiv(a) >= FloorDiv(b)
  {
  }

  /** One sorted set: member -> composite score. A member holds one score. */
  type ZSet = map<string, int>

  /** The (member, score) pairs of a sorted set. */
  function Pairs(z: ZSet): (r: set<(string, int)>)
    ensures forall p :: p in r <==> p.0 in z && z[p.0] == p.1
  {
    set m | m in z :: (m, z[m])
  }

  /** ZREVRANGE order: higher score first; equal scores in descending
      lexicographic order of the member. */
  function RevAbove(p: (string, int), q: (string, int)): bool {
    p.1 > q.1 || (p.1 == q.1 && Lex.Less(q.0, p.0))
  }

  lemma RevAboveStrictTotal(z: ZSet)
    ensures Sorting.StrictTotalOn(RevAbove, Pairs(z))
  {
    forall p | p in Pairs(z)
      ensures !RevAbove(p, p)
    {
      Lex.Irreflexive(p.0);
    }
    forall p, q | p in Pairs(z) && q in Pairs(z) && p != q
      ensures RevAbove(p, q) || RevAbove(q, p)
    {
      if p.1 == q.1 {
        Lex.Total(p.0, q.0);
      }
    }
    forall p, q, w | p in Pairs(z) && q in Pairs(z) && w in Pairs(z) && RevAbove(p, q) && RevAbove(q, w)
      ensures RevAbove(p, w)
    {
      if p.1 == q.1 && q.1 == w.1 {
        Lex.Transitive(w.0, q.0, p.0);
      }
    }
  }

  /** The whole set in ZREVRANGE order. */
  function RevSorted(z: ZSet): (r: seq<(string, int)>)
    ensures |r| == |z.Keys|
    ensures forall i | 0 <= i < |r| :: r[i].0 in z && z[r[i].0] == r[i].1
    ensures forall m | m in z :: exists i :: 0 <= i < |r| && r[i].0 == m
    ensures forall i, j | 0 <= i < j < |r| :: RevAbove(r[i], r[j])
  {
    RevAboveStrictTotal(z);
    var r := Sorting.SortBy(Pairs(z), RevAbove);
    SortedPairs(z, r);
    r
  }

  /** A sorting of the pairs lists every member once, with its score. */
  lemma SortedPairs(z: ZSet, r: seq<(string, int)>)
    requires |r| == |Pairs(z)| && (forall p :: p in r <==> p in Pairs(z))
    ensures |r| == |z.Keys|
    ensures forall i | 0 <= i < |r| :: r[i].0 in z && z[r[i].0] == r[i].1
    ensures forall m | m in z :: exists i :: 0 <= i < |r| && r[i].0 == m
  {
    PairsCount(z);
    forall i | 0 <= i < |r|
      ensures r[i].0 in z && z[r[i].0] == r[i].1
    {
      assert r[i] in Pairs(z);
    }
    forall m | m in z
      ensures exists i :: 0 <= i < |r| && r[i].0 == m
    {
      assert (m, z[m]) in r;
    }
  }

  lemma PairsCount(z: ZSet)
    ensures |Pairs(z)| == |z.Keys|
  {
    var ps := Pairs(z);
    var keys := set p | p in ps :: p.0;
    forall m | m in z
      ensures m in keys
    {
      assert (m, z[m]) in ps;
    }
    assert z.Keys == keys;
    PairsProjection(ps, z);
  }

  lemma {:induction false} PairsProjection(ps: set<(string, int)>, z: ZSet)
    requires forall p | p in ps :: p.0 in z && z[p.0] == p.1
    ensures |set p | p in ps :: p.0| == |ps|
    decreases |ps|
  {
    if p :| p in ps {
      var rest := ps - {p};
      PairsProjection(rest, z);
      var keys := set q | q in ps :: q.0;
      var restKeys := set q | q in rest :: q.0;
      assert p.0 !in restKeys;
      assert keys == restKeys + {p.0};
    }
  }

  /** How many entries `ZREVRANGE key 0 stop` returns from a set of `len`
      members: a negative stop counts from the end, and a stop before the
      start gives nothing. */
  function RangeCount(len: nat, stop: int): (n: nat)
    ensures n <= len
  {
    var last := if stop < 0 then len + stop else stop;
    if last < 0 then 0
    else if last >= len then len
    else last + 1
  }

  /** The flat WITHSCORES reply: member, score, member, score, ... */
  function WithScores(pairs: seq<(string, int)>): (reply: seq<string>)
    ensures |reply| == 2 * |pairs|
  {
    if |pairs| == 0 then []
    else [pairs[0].0, Decimal.IntToString(pairs[0].1)] + WithScores(pairs[1..])
  }

  /** Pair `i` of the reply is the `i`-th member and its score in decimal. */
  lemma {:induction false} WithScoresAt(pairs: seq<(string, int)>, i: nat)
    requires i < |pairs|
    ensures WithScores(pairs)[2 * i] == pairs[i].0
    ensures WithScores(pairs)[2 * i + 1] == Decimal.IntToString(pairs[i].1)
    decreases i
  {
    if i > 0 {
      WithScoresAt(pairs[1..], i - 1);
      var rest := WithScores(pairs[1..]);
      assert WithScores(pairs) == [pairs[0].0, Decimal.IntToString(pairs[0].1)] + rest;
      assert 2 * i == 2 * (i - 1) + 2;
    }
  }

  /** A reply in WITHSCORES shape: pairs of a member and a numeral. */
  predicate WellFormedReply(reply: seq<string>) {
    |reply| % 2 == 0 && forall i | 0 <= i < |reply| / 2 :: Decimal.IsNumeral(reply[2 * i + 1])
  }

  /** The decoding loop of `getMembers`: two reply fields per row, the
      second read as a number (`+range[i + 1]`). */
  function DecodeReply(reply: seq<string>): (rows: seq<ScoreEntry>)
    requires WellFormedReply(reply)
    ensures |rows| == |reply| / 2
    ensures forall i | 0 <= i < |rows| :: rows[i] == DecodeEntry(reply[2 * i], Decimal.ParseInt(reply[2 * i + 1]))
    decreases |reply|
  {
    if |reply| == 0 then []
    else
      assert Decimal.IsNumeral(reply[2 * 0 + 1]);
      var rest := reply[2..];
      ReplyTail(reply);
      [DecodeEntry(reply[0], Decimal.ParseInt(reply[1]))] + DecodeReply(rest)
  }

  /** Dropping the first pair of a reply leaves a reply whose pair `i` is
      pair `i + 1` of the original. */
  lemma ReplyTail(reply: seq<string>)
    requires WellFormedReply(reply) && |reply| >= 2
    ensures WellFormedReply(reply[2..])
    ensures forall i | 0 <= i < |reply| / 2 - 1 :: reply[2..][2 * i] == reply[2 * (i + 1)] && reply[2..][2 * i + 1] == reply[2 * (i + 1) + 1]
  {
    var rest := reply[2..];
    forall i | 0 <= i < |rest| / 2
      ensures Decimal.IsNumeral(rest[2 * i + 1])
    {
      assert rest[2 * i + 1] == reply[2 * (i + 1) + 1];
    }
  }

  /** Decoding a rendered reply gives one row per pair, in reply order, with
      the exact composite each pair carried. */
  lemma DecodeRenderedReply(pairs: seq<(string, int)>)
    ensures WellFormedReply(WithScores(pairs))
    ensures |DecodeReply(WithScores(pairs))| == |pairs|
    ensures forall i | 0 <= i < |pairs| :: DecodeReply(WithScores(pairs))[i] == DecodeEntry(pairs[i].0, pairs[i].1)
  {
    var reply := WithScores(pairs);
    assert |reply| / 2 == |pairs|;
    forall i | 0 <= i < |reply| / 2
      ensures Decimal.IsNumeral(reply[2 * i + 1])
    {
      WithScoresAt(pairs, i);
    }
    forall i | 0 <= i < |pairs|
      ensures reply[2 * i] == pairs[i].0 && Decimal.ParseInt(reply[2 * i + 1]) == pairs[i].1
    {
      WithScoresAt(pairs, i);
      Decimal.IntRoundTrip(pairs[i].1);
    }
  }

  /** `getMembers(limit)` on one sorted set: a reverse range from rank 0 to
      rank `limit - 1` with scores, decoded row by row. */
  function Members(z: ZSet, limit: int): (rows: seq<ScoreEntry>)
    ensures |rows| == RangeCount(|z.Keys|, limit - 1)
    ensures forall i | 0 <= i < |rows| :: rows[i].userId in z && rows[i] == DecodeEntry(rows[i].userId, z[rows[i].userId])
    ensures DistinctUsers(rows) && ScoreDescending(rows)
    ensures forall i, j | 0 <= i < j < |rows| :: z[rows[i].userId] >= z[rows[j].userId]
    ensures forall i, j | 0 <= i < j < |rows| :: RevAbove((rows[i].userId, z[rows[i].userId]), (rows[j].userId, z[rows[j].userId]))
    ensures forall m, i | m in z && !Lists(rows, m) && 0 <= i < |rows| :: RevAbove((rows[i].userId, z[rows[i].userId]), (m, z[m]))
    ensures |rows| == |z.Keys| ==> forall m :: Lists(rows, m) <==> m in z
  {
    var sorted := RevSorted(z);
    var picked := sorted[..RangeCount(|sorted|, limit - 1)];
    DecodeRenderedReply(picked);
    var rows := DecodeReply(WithScores(picked));
    ReadOfPrefix(z, sorted, picked, rows);
    rows
  }

  /** The rows decoded from a prefix of the ZREVRANGE order: distinct
      members, non-increasing composites and scores, and no left-out member
      above a listed one. */
  lemma ReadOfPrefix(z: ZSet, sorted: seq<(string, int)>, picked: seq<(string, int)>, rows: seq<ScoreEntry>)
    requires sorted == RevSorted(z) && |picked| <= |sorted| && picked == sorted[..|picked|]
    requires |rows| == |picked| && forall i | 0 <= i < |picked| :: rows[i] == DecodeEntry(picked[i].0, picked[i].1)
    ensures forall i | 0 <= i < |rows| :: rows[i].userId in z && rows[i] == DecodeEntry(rows[i].userId, z[rows[i].userId])
    ensures DistinctUsers(rows) && ScoreDescending(rows)
    ensures forall i, j | 0 <= i < j < |rows| :: z[rows[i].userId] >= z[rows[j].userId]
    ensures forall i, j | 0 <= i < j < |rows| :: RevAbove((rows[i].userId, z[rows[i].userId]), (rows[j].userId, z[rows[j].userId]))
    ensures forall m, i | m in z && !Lists(rows, m) && 0 <= i < |rows| :: RevAbove((rows[i].userId, z[rows[i].userId]), (m, z[m]))
    ensures |rows| == |z.Keys| ==> forall m :: Lists(rows, m) <==> m in z
  {
    forall i | 0 <= i < |rows|
      ensures rows[i] == DecodeEntry(sorted[i].0, sorted[i].1)
    {
      assert picked[i] == sorted[i];
    }
    RowsOrdered(z, sorted, rows);
    RowsTop(z, sorted, rows);
  }

  lemma RowsOrdered(z: ZSet, sorted: seq<(string, int)>, rows: seq<ScoreEntry>)
    requires sorted == RevSorted(z) && |rows| <= |sorted|
    requires forall i | 0 <= i < |rows| :: rows[i] == DecodeEntry(sorted[i].0, sorted[i].1)
    ensures forall i | 0 <= i < |rows| :: rows[i].userId in z && rows[i] == DecodeEntry(rows[i].userId, z[rows[i].userId])
    ensures forall i, j | 0 <= i < j < |rows| :: rows[i].userId != rows[j].userId && sorted[i].1 >= sorted[j].1
    ensures DistinctUsers(rows) && ScoreDescending(rows)
  {
    forall i, j | 0 <= i < j < |rows|
      ensures rows[i].userId != rows[j].userId && sorted[i].1 >= sorted[j].1
      ensures rows[i].score >= rows[j].score
    {
      assert RevAbove(sorted[i], sorted[j]);
      Lex.Irreflexive(sorted[i].0);
      FloorDivMonotone(sorted[i].1, sorted[j].1);
    }
  }

  lemma RowsTop(z: ZSet, sorted: seq<(string, int)>, rows: seq<ScoreEntry>)
    requires sorted == RevSorted(z) && |rows| <= |sorted|
    requires forall i | 0 <= i < |rows| :: rows[i].userId == sorted[i].0
    ensures forall i, j | 0 <= i < j < |rows| :: RevAbove((rows[i].userId, z[rows[i].userId]), (rows[j].userId, z[rows[j].userId]))
    ensures forall m, i | m in z && !Lists(rows, m) && 0 <= i < |rows| :: RevAbove((rows[i].userId, z[rows[i].userId]), (m, z[m]))
    ensures |rows| == |z.Keys| ==> forall m :: Lists(rows, m) <==> m in z
  {
    forall i, j | 0 <= i < j < |rows|
      ensures RevAbove((rows[i].userId, z[rows[i].userId]), (rows[j].userId, z[rows[j].userId]))
    {
      assert RevAbove(sorted[i], sorted[j]);
    }
    forall m, i | m in z && !Lists(rows, m) && 0 <= i < |rows|
      ensures RevAbove((rows[i].userId, z[rows[i].userId]), (m, z[m]))
    {
      var k :| 0 <= k < |sorted| && sorted[k].0 == m;
      assert k >= |rows|;
      assert RevAbove(sorted[i], sorted[k]);
    }
    if |rows| == |z.Keys| {
      forall m | m in z
        ensures Lists(rows, m)
      {
        var k :| 0 <= k < |sorted| && sorted[k].0 == m;
        assert rows[k].userId == m;
      }
    }
  }

  /** With a positive limit a read returns at most `limit` rows (all of
      them when fewer exist); a zero limit means stop = -1 and returns the
      whole set. */
  lemma MembersCount(z: ZSet, limit: int)
    ensures limit >= 1 ==> |Members(z, limit)| == if limit < |z.Keys| then limit else |z.Keys|
    ensures limit == 0 ==> |Members(z, limit)| == |z.Keys|
    ensures limit == 0 ==> forall m :: Lists(Members(z, limit), m) <==> m in z
  {
  }

  /** What an export must write for one game: every member exactly once,
      decoded from its composite, highest composite first. */
  ghost predicate IsFullSnapshot(z: ZSet, rows: seq<ScoreEntry>) {
    && DistinctUsers(rows) && ScoreDescending(rows)
    && (forall i | 0 <= i < |rows| :: rows[i].userId in z && rows[i] == DecodeEntry(rows[i].userId, z[rows[i].userId]))
    && (forall i, j | 0 <= i < j < |rows| :: z[rows[i].userId] >= z[rows[j].userId])
    && (forall m :: Lists(rows, m) <==> m in z)
  }

  /** `getMembers(0)`: stop = -1, the whole set. */
  function Snapshot(z: ZSet): (rows: seq<ScoreEntry>)
    ensures IsFullSnapshot(z, rows) && |rows| == |z.Keys|
  {
    MembersCount(z, 0);
    Members(z, 0)
  }

  /** The adapter object: the base fields plus the sorted sets, keyed by
      leaderboard key. */
  datatype RedisState = RedisState(base: BaseState, zsets: map<string, ZSet>)

  ghost predicate Valid(st: RedisState) {
    ValidBase(st.base)
  }

  /** `new RedisAdapter()`: a client of a server that may already hold
      sorted sets from earlier runs. Nothing is selected or dirty yet, and
      every set the server holds is visible as it is. */
  function New(server: map<string, ZSet>): (st: RedisState)
    ensures Valid(st) && |st.base.dirty| == 0
    ensures forall k | k in server :: ZSetAt(st, k) == server[k]
    ensures forall k | k !in server :: ZSetAt(st, k) == map[]
  {
    RedisState(NewBase(), server)
  }

  /** The sorted set at a key; a missing key reads as the empty set. */
  function ZSetAt(st: RedisState, key: string): ZSet {
    if key in st.zsets then st.zsets[key] else map[]
  }

  /** `setGameId(gameId)`: selects the game's leaderboard key. */
  function SetGameId(st: RedisState, gameId: string): (r: RedisState)
    ensures r.base.gameId == Keys.LeaderboardKey(gameId)
    ensures r.base.dirty == st.base.dirty && r.zsets == st.zsets
  {
    st.(base := st.base.(gameId := Keys.LeaderboardKey(gameId)))
  }

  function MarkDirty(st: RedisState, gameId: string): (r: RedisState)
    requires Valid(st)
    ensures Valid(r) && r.zsets == st.zsets
    ensures r.base == BaseAdapter.MarkDirty(st.base, gameId)
  {
    st.(base := BaseAdapter.MarkDirty(st.base, gameId))
  }

  /** `ZADD key composite member`: the member's score is replaced. */
  function ZAdd(z: ZSet, member: string, composite: int): (r: ZSet)
    ensures member in r && r[member] == composite
    ensures r.Keys == z.Keys + {member}
    ensures forall m | m in z && m != member :: r[m] == z[m]
  {
    z[member := composite]
  }

  /** `updateMemberScore({userId, score, timestamp})` on the selected game. */
  function UpdateMemberScore(st: RedisState, member: string, score: int, timestamp: int): (r: RedisState)
    ensures r.base == st.base
    ensures ZSetAt(r, st.base.gameId) == ZAdd(ZSetAt(st, st.base.gameId), member, Encode(score, timestamp))
    ensures forall k | k != st.base.gameId :: ZSetAt(r, k) == ZSetAt(st, k)
  {
    st.(zsets := st.zsets[st.base.gameId := ZAdd(ZSetAt(st, st.base.gameId), member, Encode(score, timestamp))])
  }

  /** After an update with a non-negative score and a timestamp in range,
      a read decodes exactly the stored score and timestamp. */
  lemma UpdateThenDecode(st: RedisState, member: string, score: int, timestamp: int)
    requires score >= 0 && 0 <= timestamp < Multiplier
    ensures var z := ZSetAt(UpdateMemberScore(st, member, score, timestamp), st.base.gameId);
            member in z && DecodeEntry(member, z[member]) == ScoreEntry(member, score, timestamp)
  {
    DecodeEncode(member, score, timestamp);
  }

  /** `getMembers(limit)` on the selected game. */
  function GetMembers(st: RedisState, limit: int): (rows: seq<ScoreEntry>)
    ensures rows == Members(ZSetAt(st, st.base.gameId), limit)
    ensures limit >= 1 ==> |rows| <= limit
    ensures forall i | 0 <= i < |rows| :: rows[i].userId in ZSetAt(st, st.base.gameId)
    ensures limit == 0 ==> rows == Snapshot(ZSetAt(st, st.base.gameId))
  {
    MembersCount(ZSetAt(st, st.base.gameId), limit);
    Members(ZSetAt(st, st.base.gameId), limit)
  }

  /** `getMemberCount()`: `ZCARD key`, 0 for a missing key. */
  function GetMemberCount(st: RedisState): (n: nat)
    ensures n == |ZSetAt(st, st.base.gameId).Keys|
  {
    |ZSetAt(st, st.base.gameId)|
  }

  /** A run of updates applied to one sorted set, in order. */
  function ApplyToZSet(z: ZSet, updates: seq<Update>): (r: ZSet)
    decreases |updates|
  {
    if |updates| == 0 then z
    else ApplyToZSet(ZAdd(z, updates[0].userId, Encode(updates[0].score, updates[0].timestamp)), updates[1..])
  }

  /** A run of updates to the selected game, in order. */
  function ApplyUpdates(st: RedisState, updates: seq<Update>): (r: RedisState)
    ensures r.base == st.base
    ensures ZSetAt(r, st.base.gameId) == ApplyToZSet(ZSetAt(st, st.base.gameId), updates)
    ensures forall k | k != st.base.gameId :: ZSetAt(r, k) == ZSetAt(st, k)
    decreases |updates|
  {
    if |updates| == 0 then st
    else ApplyUpdates(UpdateMemberScore(st, updates[0].userId, updates[0].score, updates[0].timestamp), updates[1..])
  }

  /** ZADD replaces, so the set's members are the earlier ones plus every
      member named in the run, each once. */
  lemma {:induction false} UpdatesAddMembers(z: ZSet, updates: seq<Update>)
    ensures ApplyToZSet(z, updates).Keys == z.Keys + UpdatedUsers(updates)
    decreases |updates|
  {
    if |updates| > 0 {
      var first := updates[0];
      UpdatesAddMembers(ZAdd(z, first.userId, Encode(first.score, first.timestamp)), updates[1..]);
      UpdatedUsersCons(updates);
    }
  }

  /** For a game the server holds no set for, `getMemberCount` is the
      number of distinct members ever updated in it. */
  lemma MemberCountIsDistinctUsers(server: map<string, ZSet>, gameId: string, updates: seq<Update>)
    requires Keys.LeaderboardKey(gameId) !in server
    ensures GetMemberCount(ApplyUpdates(SetGameId(New(server), gameId), updates)) == |UpdatedUsers(updates)|
  {
    UpdatesAddMembers(map[], updates);
  }

  /** Re-adding a member replaces its composite and keeps the count. */
  lemma ReAddReplaces(st: RedisState, member: string, s1: int, t1: int, s2: int, t2: int)
    ensures var once := UpdateMemberScore(st, member, s1, t1);
            var twice := UpdateMemberScore(once, member, s2, t2);
            && GetMemberCount(twice) == GetMemberCount(once)
            && ZSetAt(twice, st.base.gameId) == ZSetAt(st, st.base.gameId)[member := Encode(s2, t2)]
  {
    var once := UpdateMemberScore(st, member, s1, t1);
    var twice := UpdateMemberScore(once, member, s2, t2);
    assert ZSetAt(twice, st.base.gameId).Keys == ZSetAt(once, st.base.gameId).Keys;
  }

  /** `exportDataToDB()`: the dirty ids are copied and the set is cleared
      first; then each copied game is read whole (`getMembers(0)`) and
      upserted under its leaderboard key. */
  method ExportDataToDB(st: RedisState, db: Database) returns (r: RedisState, out: Database)
    requires Valid(st)
    ensures Valid(r) && |r.base.dirty| == 0 && r.zsets == st.zsets
    ensures forall k :: k in out <==> k in db || k in ExportedKeys(st.base.dirty)
    ensures forall k | k in ExportedKeys(st.base.dirty) :: IsFullSnapshot(ZSetAt(st, k), out[k])
    ensures forall k | k in db && k !in ExportedKeys(st.base.dirty) :: out[k] == db[k]
    ensures |st.base.dirty| > 0 ==> r.base.gameId == Keys.LeaderboardKey(st.base.dirty[|st.base.dirty| - 1])
  {
    var ids := st.base.dirty;
    r := st.(base := ResetDirty(st.base));
    out := db;
    var i := 0;
    while i < |ids|
      invariant 0 <= i <= |ids|
      invariant r.zsets == st.zsets
      invariant r.base == BaseState([], if i == 0 then st.base.gameId else Keys.LeaderboardKey(ids[i - 1]))
      invariant ExportedSoFar(st, db, ids[..i], out)
    {
      var before := out;
      r, out := ExportGame(r, out, ids[i]);
      ExportStep(st, db, ids, i, before, out);
      i := i + 1;
    }
    assert ids[..i] == ids;
  }

  /** One round of the export loop: select the game, read it whole with
      `getMembers(0)`, upsert the rows under its leaderboard key. */
  method ExportGame(st: RedisState, db: Database, gameId: string) returns (r: RedisState, out: Database)
    ensures r.zsets == st.zsets && r.base == st.base.(gameId := Keys.LeaderboardKey(gameId))
    ensures Keys.LeaderboardKey(gameId) in out && out == db[Keys.LeaderboardKey(gameId) := out[Keys.LeaderboardKey(gameId)]]
    ensures IsFullSnapshot(ZSetAt(st, Keys.LeaderboardKey(gameId)), out[Keys.LeaderboardKey(gameId)])
  {
    r := SetGameId(st, gameId);
    var scores := GetMembers(r, 0);
    out := db[r.base.gameId := scores];
  }

  /** The documents after exporting `ids`: one full snapshot per exported
      key, every other document as it was. */
  ghost predicate ExportedSoFar(st: RedisState, db: Database, ids: seq<string>, out: Database) {
    && (forall k :: k in out <==> k in db || k in ExportedKeys(ids))
    && (forall k | k in ExportedKeys(ids) :: IsFullSnapshot(ZSetAt(st, k), out[k]))
    && (forall k | k in db && k !in ExportedKeys(ids) :: out[k] == db[k])
  }

  /** The export loop's invariant survives one round. */
  lemma ExportStep(st: RedisState, db: Database, ids: seq<string>, i: nat, before: Database, after: Database)
    requires i < |ids| && ExportedSoFar(st, db, ids[..i], before)
    requires Keys.LeaderboardKey(ids[i]) in after && after == before[Keys.LeaderboardKey(ids[i]) := after[Keys.LeaderboardKey(ids[i])]]
    requires IsFullSnapshot(ZSetAt(st, Keys.LeaderboardKey(ids[i])), after[Keys.LeaderboardKey(ids[i])])
    ensures ExportedSoFar(st, db, ids[..i + 1], after)
  {
    ExportedKeysSnoc(ids, i);
  }
}
