/** The in-memory ranked store of `src/adapters/local.adapter.js`. Each game
    has two coupled maps: score -> users holding that score (a JS `Set`,
    insertion ordered) and user -> {score, timestamp}. A read sorts the
    distinct scores in descending order, keeps the first `limit` of them and
    emits every user of those buckets. */
module LocalAdapter {
  import opened BaseAdapter
  import Seqs
  import Sorting
  import Keys

  datatype ScoreData = ScoreData(score: int, timestamp: int)

  /** One game's `scoreMap` and `userMap`. */
  datatype Table = Table(scoreMap: map<int, seq<string>>, userMap: map<string, ScoreData>)

  const EmptyTable: Table := Table(map[], map[])

  /** The bucket invariant: every bucket is non-empty and duplicate-free,
      every user of a bucket holds that bucket's score, and every user with a
      record sits in the bucket of its recorded score. A user is therefore in
      exactly one bucket. */
  ghost predicate Coupled(t: Table) {
    && (forall s | s in t.scoreMap :: |t.scoreMap[s]| > 0 && Seqs.NoDup(t.scoreMap[s]))
    && (forall s, u | s in t.scoreMap && u in t.scoreMap[s] :: u in t.userMap && t.userMap[u].score == s)
    && (forall u | u in t.userMap :: t.userMap[u].score in t.scoreMap && u in t.scoreMap[t.userMap[u].score])
  }

  /** Deletes the user from the bucket of its old score, and drops the
      bucket once it is empty. */
  function RemoveFromBucket(scoreMap: map<int, seq<string>>, score: int, userId: string): (r: map<int, seq<string>>)
    requires score in scoreMap
    ensures forall s :: s in r <==> s in scoreMap && (s != score || |Seqs.Without(scoreMap[score], userId)| > 0)
    ensures forall s | s in r :: r[s] == if s == score then Seqs.Without(scoreMap[score], userId) else scoreMap[s]
  {
    var bucket := Seqs.Without(scoreMap[score], userId);
    if |bucket| == 0 then scoreMap - {score} else scoreMap[score := bucket]
  }

  /** The bucket invariant with `userId` taken out of every bucket: what
      holds between the removal from the old bucket and the insertion into
      the new one. */
  ghost predicate CoupledWithout(scoreMap: map<int, seq<string>>, userMap: map<string, ScoreData>, userId: string) {
    && (forall s | s in scoreMap :: |scoreMap[s]| > 0 && Seqs.NoDup(scoreMap[s]))
    && (forall s | s in scoreMap :: userId !in scoreMap[s])
    && (forall s, v | s in scoreMap && v in scoreMap[s] :: v in userMap && userMap[v].score == s)
    && (forall v | v in userMap && v != userId :: userMap[v].score in scoreMap && v in scoreMap[userMap[v].score])
  }

  /** Buckets without `userId`: the old bucket loses it, nothing else moves. */
  function Detach(t: Table, userId: string): (r: map<int, seq<string>>)
    requires Coupled(t)
    ensures CoupledWithout(r, t.userMap, userId)
    ensures forall s, v | v != userId :: (s in r && v in r[s]) <==> (s in t.scoreMap && v in t.scoreMap[s])
  {
    if userId in t.userMap then
      var oldScore := t.userMap[userId].score;
      var r := RemoveFromBucket(t.scoreMap, oldScore, userId);
      assert forall s | s in t.scoreMap && s != oldScore :: userId !in t.scoreMap[s];
      r
    else
      t.scoreMap
  }

  /** Adds the user to the bucket of its new score, creating the bucket if
      needed. */
  function Attach(scoreMap: map<int, seq<string>>, userId: string, score: int): (r: map<int, seq<string>>)
    ensures score in r && userId in r[score]
    ensures forall s | s != score :: (s in r <==> s in scoreMap) && (s in r ==> r[s] == scoreMap[s])
    ensures score in scoreMap && userId !in scoreMap[score] ==> r[score] == scoreMap[score] + [userId]
    ensures score !in scoreMap ==> r[score] == [userId]
  {
    var bucket := if score in scoreMap then scoreMap[score] else [];
    scoreMap[score := Seqs.Add(bucket, userId)]
  }

  lemma AttachRestoresCoupling(scoreMap: map<int, seq<string>>, userMap: map<string, ScoreData>, userId: string, score: int, timestamp: int)
    requires CoupledWithout(scoreMap, userMap, userId)
    ensures Coupled(Table(Attach(scoreMap, userId, score), userMap[userId := ScoreData(score, timestamp)]))
  {
  }

  /** `updateMemberScore` on one game's maps: the user leaves its old bucket
      (which is dropped once empty), joins the end of its new one, and its
      record is overwritten. */
  function UpdateTable(t: Table, userId: string, score: int, timestamp: int): (r: Table)
    requires Coupled(t)
    ensures Coupled(r)
    ensures r.userMap == t.userMap[userId := ScoreData(score, timestamp)]
    ensures score in r.scoreMap && userId in r.scoreMap[score]
    ensures r.scoreMap[score][|r.scoreMap[score]| - 1] == userId
  {
    var detached := Detach(t, userId);
    AttachRestoresCoupling(detached, t.userMap, userId, score, timestamp);
    Table(Attach(detached, userId, score), t.userMap[userId := ScoreData(score, timestamp)])
  }

  /** An update moves no other user: every other user is in exactly the
      buckets it was in before. */
  lemma UpdateTableKeepsOthers(t: Table, userId: string, score: int, timestamp: int)
    requires Coupled(t)
    ensures var r := UpdateTable(t, userId, score, timestamp);
            forall s, v | v != userId :: (s in r.scoreMap && v in r.scoreMap[s]) <==> (s in t.scoreMap && v in t.scoreMap[s])
  {
    var detached := Detach(t, userId);
    var r := UpdateTable(t, userId, score, timestamp);
    assert r.scoreMap == Attach(detached, userId, score);
    forall s, v | v != userId
      ensures (s in r.scoreMap && v in r.scoreMap[s]) <==> (s in detached && v in detached[s])
    {
      if s == score && s in detached && userId !in detached[s] {
        assert r.scoreMap[s] == detached[s] + [userId];
      }
    }
  }

  /** The descending numeric comparator of the read: `a` sorts before `b`
      when it is larger. */
  function Greater(a: int, b: int): bool {
    a > b
  }

  lemma GreaterIsStrictTotal(s: set<int>)
    ensures Sorting.StrictTotalOn(Greater, s)
  {
  }

  /** The game's distinct scores, highest first. */
  function SortedScores(t: Table): (r: seq<int>)
    ensures |r| == |t.scoreMap.Keys|
    ensures forall s :: s in r <==> s in t.scoreMap
    ensures forall i, j :: 0 <= i < j < |r| ==> r[i] > r[j]
  {
    GreaterIsStrictTotal(t.scoreMap.Keys);
    var r := Sorting.SortBy(t.scoreMap.Keys, Greater);
    assert forall i, j :: 0 <= i < j < |r| ==> Greater(r[i], r[j]);
    r
  }

  /** How many entries `xs.slice(0, end)` keeps of `n`: a negative `end`
      counts back from the end. */
  function SliceEnd(n: nat, end: int): (k: nat)
    ensures k <= n
    ensures end >= 0 ==> k == if end < n then end else n
  {
    if end < 0 then (if n + end < 0 then 0 else n + end)
    else if end < n then end
    else n
  }

  /** The distinct scores strictly above `score`. */
  function ScoresAbove(t: Table, score: int): (r: set<int>)
    ensures forall s :: s in r <==> s in t.scoreMap && s > score
  {
    set s | s in t.scoreMap && s > score
  }

  /** The number of distinct scores strictly above `score`. */
  function Rank(t: Table, score: int): nat {
    |ScoresAbove(t, score)|
  }

  /** The rows of one bucket, in the bucket's insertion order. */
  function BucketEntries(t: Table, score: int, users: seq<string>): (r: seq<ScoreEntry>)
    requires forall u | u in users :: u in t.userMap && t.userMap[u].score == score
    ensures |r| == |users|
    ensures forall i | 0 <= i < |r| :: r[i] == ScoreEntry(users[i], score, t.userMap[users[i]].timestamp)
  {
    if |users| == 0 then []
    else [ScoreEntry(users[0], score, t.userMap[users[0]].timestamp)] + BucketEntries(t, score, users[1..])
  }

  lemma BucketEntriesLists(t: Table, score: int, users: seq<string>)
    requires forall u | u in users :: u in t.userMap && t.userMap[u].score == score
    ensures forall u :: Lists(BucketEntries(t, score, users), u) <==> u in users
    ensures Seqs.NoDup(users) ==> DistinctUsers(BucketEntries(t, score, users))
    ensures ScoreDescending(BucketEntries(t, score, users))
  {
    var r := BucketEntries(t, score, users);
    forall u | u in users
      ensures Lists(r, u)
    {
      var k :| 0 <= k < |users| && users[k] == u;
      assert r[k].userId == u;
    }
  }

  /** The rows of the listed buckets, highest score first. */
  function Emit(t: Table, scores: seq<int>): (r: seq<ScoreEntry>)
    requires Coupled(t)
    requires forall s | s in scores :: s in t.scoreMap
    requires forall i, j :: 0 <= i < j < |scores| ==> scores[i] > scores[j]
    ensures ScoreDescending(r) && DistinctUsers(r)
    ensures forall i | 0 <= i < |r| :: r[i].userId in t.userMap && t.userMap[r[i].userId] == ScoreData(r[i].score, r[i].timestamp)
    ensures forall i | 0 <= i < |r| :: r[i].score in scores
    ensures forall u :: Lists(r, u) <==> u in t.userMap && t.userMap[u].score in scores
  {
    if |scores| == 0 then []
    else
      var top := scores[0];
      var head := BucketEntries(t, top, t.scoreMap[top]);
      var rest := Emit(t, scores[1..]);
      EmitStep(t, scores, head, rest);
      head + rest
  }

  lemma EmitStep(t: Table, scores: seq<int>, head: seq<ScoreEntry>, rest: seq<ScoreEntry>)
    requires Coupled(t) && |scores| > 0
    requires forall s | s in scores :: s in t.scoreMap
    requires forall i, j :: 0 <= i < j < |scores| ==> scores[i] > scores[j]
    requires head == BucketEntries(t, scores[0], t.scoreMap[scores[0]])
    requires ScoreDescending(rest) && DistinctUsers(rest)
    requires forall i | 0 <= i < |rest| :: rest[i].score in scores[1..]
    requires forall u :: Lists(rest, u) <==> u in t.userMap && t.userMap[u].score in scores[1..]
    ensures ScoreDescending(head + rest) && DistinctUsers(head + rest)
    ensures forall u :: Lists(head + rest, u) <==> u in t.userMap && t.userMap[u].score in scores
  {
    var top := scores[0];
    BucketEntriesLists(t, top, t.scoreMap[top]);
    ListsAppend(head, rest);
    assert forall s | s in scores[1..] :: top > s;
    DistinctAppend(head, rest);
    DescendingAppend(head, rest);
  }

  /** `getMembers(limit)` on one game's maps: the users of the `limit` highest
      distinct scores (ties can give more than `limit` rows). */
  function Members(t: Table, limit: int): (r: seq<ScoreEntry>)
    requires Coupled(t)
    ensures ScoreDescending(r) && DistinctUsers(r)
    ensures forall i | 0 <= i < |r| :: r[i].userId in t.userMap && t.userMap[r[i].userId] == ScoreData(r[i].score, r[i].timestamp)
    ensures forall u :: Lists(r, u) <==> u in t.userMap && Rank(t, t.userMap[u].score) < SliceEnd(|t.scoreMap.Keys|, limit)
  {
    var sorted := SortedScores(t);
    var top := sorted[..SliceEnd(|sorted|, limit)];
    TopIsRankBelow(t, sorted, SliceEnd(|sorted|, limit));
    Emit(t, top)
  }

  /** The score at position `i` of the sorted keys has exactly `i` distinct
      scores above it. */
  lemma RankOfPosition(t: Table, sorted: seq<int>, i: int)
    requires sorted == SortedScores(t) && 0 <= i < |sorted|
    ensures Rank(t, sorted[i]) == i
  {
    var keys := t.scoreMap.Keys;
    var v := sorted[i];
    var above: (int, int) -> bool := Greater;
    GreaterIsStrictTotal(keys);
    assert Sorting.SortedBy(above, sorted) by {
      forall a, b | 0 <= a < b < |sorted|
        ensures above(sorted[a], sorted[b])
      {
        assert sorted[a] > sorted[b];
      }
    }
    assert forall x :: x in sorted <==> x in keys;
    Sorting.RankOfSorted(above, keys, sorted, i);
    var lhs := Sorting.AboveIn(above, keys, v);
    assert lhs == ScoresAbove(t, v) by {
      forall x
        ensures x in lhs <==> x in ScoresAbove(t, v)
      {
        assert above(x, v) == Greater(x, v);
      }
    }
  }

  /** A score is among the first `n` of the sorted keys exactly when fewer
      than `n` distinct scores lie above it. */
  lemma TopIsRankBelow(t: Table, sorted: seq<int>, n: nat)
    requires sorted == SortedScores(t) && n <= |sorted|
    ensures forall s :: s in sorted[..n] <==> s in t.scoreMap && Rank(t, s) < n
  {
    forall s | s in t.scoreMap
      ensures s in sorted[..n] <==> Rank(t, s) < n
    {
      var i :| 0 <= i < |sorted| && sorted[i] == s;
      RankOfPosition(t, sorted, i);
      if i < n {
        assert sorted[..n][i] == s;
      } else {
        assert s !in sorted[..n];
      }
    }
  }

  /** The scores recorded in a user map. */
  function ScoresHeld(userMap: map<string, ScoreData>): (r: set<int>)
    ensures forall s :: s in r <==> exists u :: u in userMap && userMap[u].score == s
  {
    set u | u in userMap :: userMap[u].score
  }

  lemma {:induction false} ScoresHeldAtMostUsers(userMap: map<string, ScoreData>)
    ensures |ScoresHeld(userMap)| <= |userMap.Keys|
    decreases |userMap.Keys|
  {
    if u :| u in userMap {
      var rest := userMap - {u};
      ScoresHeldAtMostUsers(rest);
      var bigger := ScoresHeld(rest) + {userMap[u].score};
      forall s | s in ScoresHeld(userMap)
        ensures s in bigger
      {
        var w :| w in userMap && userMap[w].score == s;
        if w != u {
          assert w in rest;
        }
      }
      var held := ScoresHeld(userMap);
      assert bigger == held + (bigger - held) && held !! (bigger - held);
      assert userMap.Keys == rest.Keys + {u};
    } else {
      assert ScoresHeld(userMap) == {};
    }
  }

  /** The number of distinct scores never exceeds the number of users: each
      score is held by some user. */
  lemma ScoresAtMostUsers(t: Table)
    requires Coupled(t)
    ensures |t.scoreMap.Keys| <= |t.userMap.Keys|
  {
    BucketsFollowRecords(t);
    ScoresHeldAtMostUsers(t.userMap);
  }

  /** Every user is listed once the cap reaches the number of distinct scores. */
  lemma FullReadListsEveryone(t: Table, limit: int)
    requires Coupled(t) && limit >= |t.scoreMap.Keys|
    ensures forall u :: Lists(Members(t, limit), u) <==> u in t.userMap
  {
    forall u | u in t.userMap
      ensures Rank(t, t.userMap[u].score) < |t.scoreMap.Keys|
    {
      var s := t.userMap[u].score;
      var above := ScoresAbove(t, s);
      var rest := t.scoreMap.Keys - above;
      assert s in rest;
      assert t.scoreMap.Keys == above + rest && above !! rest;
    }
  }

  /** What an export must write for one game: every recorded user exactly
      once, with its recorded score and timestamp, highest score first. */
  ghost predicate IsFullSnapshot(t: Table, rows: seq<ScoreEntry>) {
    && ScoreDescending(rows) && DistinctUsers(rows)
    && (forall i | 0 <= i < |rows| :: rows[i].userId in t.userMap && t.userMap[rows[i].userId] == ScoreData(rows[i].score, rows[i].timestamp))
    && (forall u :: Lists(rows, u) <==> u in t.userMap)
  }

  /** A full snapshot has one row per recorded user. */
  lemma FullSnapshotCount(t: Table, rows: seq<ScoreEntry>)
    requires IsFullSnapshot(t, rows)
    ensures |rows| == |t.userMap.Keys|
  {
    var ids := seq(|rows|, i requires 0 <= i < |rows| => rows[i].userId);
    assert Seqs.NoDup(ids);
    Seqs.NoDupCard(ids);
    var listed := set x | x in ids;
    assert listed == t.userMap.Keys by {
      forall u | u in t.userMap
        ensures u in listed
      {
        assert Lists(rows, u);
        var k :| 0 <= k < |rows| && rows[k].userId == u;
        assert ids[k] == u;
      }
    }
  }

  /** The adapter object: the base fields plus one table per leaderboard key
      (the source keeps the two maps of a game in two top-level maps that are
      always created together). */
  datatype LocalState = LocalState(base: BaseState, tables: map<string, Table>)

  ghost predicate Valid(st: LocalState) {
    ValidBase(st.base) && forall k | k in st.tables :: Coupled(st.tables[k])
  }

  /** `new LocalAdapter()`. */
  function New(): (st: LocalState)
    ensures Valid(st) && |st.base.dirty| == 0
    ensures forall k :: TableAt(st, k) == EmptyTable
  {
    LocalState(NewBase(), map[])
  }

  /** The maps of a leaderboard key; a game never written reads as empty. */
  function TableAt(st: LocalState, key: string): Table {
    if key in st.tables then st.tables[key] else EmptyTable
  }

  /** `setGameId(gameId)`: selects the game's leaderboard key. */
  function SetGameId(st: LocalState, gameId: string): (r: LocalState)
    ensures r.base.gameId == Keys.LeaderboardKey(gameId)
    ensures r.base.dirty == st.base.dirty && r.tables == st.tables
  {
    st.(base := st.base.(gameId := Keys.LeaderboardKey(gameId)))
  }

  function MarkDirty(st: LocalState, gameId: string): (r: LocalState)
    requires Valid(st)
    ensures Valid(r) && r.tables == st.tables
    ensures r.base == BaseAdapter.MarkDirty(st.base, gameId)
  {
    st.(base := BaseAdapter.MarkDirty(st.base, gameId))
  }

  /** `getGameLeaderboard()`: the selected game's maps, created empty on
      first use. Creating them changes nothing a read can see. */
  function GetGameLeaderboard(st: LocalState): (r: (LocalState, Table))
    requires Valid(st)
    ensures Valid(r.0) && r.0.base == st.base
    ensures st.base.gameId in r.0.tables && r.0.tables[st.base.gameId] == r.1
    ensures r.1 == TableAt(st, st.base.gameId)
    ensures forall k :: TableAt(r.0, k) == TableAt(st, k)
    ensures forall k | k in st.tables :: k in r.0.tables
  {
    if st.base.gameId in st.tables then (st, st.tables[st.base.gameId])
    else (st.(tables := st.tables[st.base.gameId := EmptyTable]), EmptyTable)
  }

  /** `updateMemberScore({userId, score, timestamp})` on the selected game:
      the user's record becomes (score, timestamp), the user sits in that
      score's bucket, and no other game changes. */
  function UpdateMemberScore(st: LocalState, userId: string, score: int, timestamp: int): (r: LocalState)
    requires Valid(st)
    ensures Valid(r) && r.base == st.base
    ensures TableAt(r, st.base.gameId).userMap == TableAt(st, st.base.gameId).userMap[userId := ScoreData(score, timestamp)]
    ensures Coupled(TableAt(st, st.base.gameId)) && TableAt(r, st.base.gameId) == UpdateTable(TableAt(st, st.base.gameId), userId, score, timestamp)
    ensures forall k | k != st.base.gameId :: TableAt(r, k) == TableAt(st, k)
  {
    var (created, table) := GetGameLeaderboard(st);
    created.(tables := created.tables[st.base.gameId := UpdateTable(table, userId, score, timestamp)])
  }

  /** `getMembers(limit)` on the selected game. */
  function GetMembers(st: LocalState, limit: int): (r: (LocalState, seq<ScoreEntry>))
    requires Valid(st)
    ensures Valid(r.0) && r.0.base == st.base
    ensures forall k :: TableAt(r.0, k) == TableAt(st, k)
    ensures r.1 == Members(TableAt(st, st.base.gameId), limit)
  {
    var (created, table) := GetGameLeaderboard(st);
    (created, Members(table, limit))
  }

  /** `getMemberCount()`: the size of the selected game's user map, 0 when
      the game has none. */
  function GetMemberCount(st: LocalState): (n: nat)
    ensures n == |TableAt(st, st.base.gameId).userMap.Keys|
  {
    if st.base.gameId in st.tables then |st.tables[st.base.gameId].userMap| else 0
  }

  /** A run of updates applied to one game's maps, in order. Updates
      overwrite rather than accumulate: the game's users are the earlier
      ones plus every user named in the run, each once. */
  function ApplyToTable(t: Table, updates: seq<Update>): (r: Table)
    requires Coupled(t)
    ensures Coupled(r)
    ensures r.userMap.Keys == t.userMap.Keys + UpdatedUsers(updates)
    decreases |updates|
  {
    if |updates| == 0 then t
    else
      var first := updates[0];
      var next := UpdateTable(t, first.userId, first.score, first.timestamp);
      UpdatedUsersCons(updates);
      ApplyToTable(next, updates[1..])
  }

  /** A run of updates to the selected game, in order: that game's maps go
      through the same run, every other game is untouched. */
  function ApplyUpdates(st: LocalState, updates: seq<Update>): (r: LocalState)
    requires Valid(st)
    ensures Valid(r) && r.base == st.base
    ensures TableAt(r, st.base.gameId) == ApplyToTable(TableAt(st, st.base.gameId), updates)
    ensures forall k | k != st.base.gameId :: TableAt(r, k) == TableAt(st, k)
    decreases |updates|
  {
    if |updates| == 0 then st
    else ApplyUpdates(UpdateMemberScore(st, updates[0].userId, updates[0].score, updates[0].timestamp), updates[1..])
  }

  /** From a fresh adapter, `getMemberCount` is the number of distinct users
      ever updated in the selected game, and 0 for every other game. */
  lemma MemberCountIsDistinctUsers(gameId: string, updates: seq<Update>)
    ensures GetMemberCount(ApplyUpdates(SetGameId(New(), gameId), updates)) == |UpdatedUsers(updates)|
    ensures forall other | other != gameId ::
      GetMemberCount(SetGameId(ApplyUpdates(SetGameId(New(), gameId), updates), other)) == 0
  {
    var st := SetGameId(New(), gameId);
    var r := ApplyUpdates(st, updates);
    forall other | other != gameId
      ensures GetMemberCount(SetGameId(r, other)) == 0
    {
      var key := Keys.LeaderboardKey(other);
      if key == Keys.LeaderboardKey(gameId) {
        Keys.LeaderboardKeyInjective(other, gameId);
      }
      assert TableAt(r, key) == TableAt(st, key) == EmptyTable;
    }
  }

  /** In a coupled table a user sits in a bucket exactly when its record
      holds that bucket's score, and the buckets are exactly the recorded
      scores. */
  lemma BucketsFollowRecords(t: Table)
    requires Coupled(t)
    ensures forall s, v | s in t.scoreMap :: v in t.scoreMap[s] <==> v in t.userMap && t.userMap[v].score == s
    ensures t.scoreMap.Keys == ScoresHeld(t.userMap)
  {
    forall s | s in t.scoreMap
      ensures s in ScoresHeld(t.userMap)
    {
      var u := t.scoreMap[s][0];
      assert u in t.scoreMap[s];
      assert u in t.userMap && t.userMap[u].score == s;
    }
  }

  /** Two coupled tables with the same records have the same buckets, up to
      the order inside each bucket. */
  lemma SameRecordsSameBuckets(a: Table, b: Table)
    requires Coupled(a) && Coupled(b) && a.userMap == b.userMap
    ensures a.scoreMap.Keys == b.scoreMap.Keys
    ensures forall s, v | s in a.scoreMap :: v in a.scoreMap[s] <==> v in b.scoreMap[s]
  {
    BucketsFollowRecords(a);
    BucketsFollowRecords(b);
    forall s, v | s in a.scoreMap
      ensures v in a.scoreMap[s] <==> v in b.scoreMap[s]
    {
      assert s in b.scoreMap;
      InBucketIff(a, s, v);
      InBucketIff(b, s, v);
    }
  }

  lemma InBucketIff(t: Table, s: int, v: string)
    requires Coupled(t) && s in t.scoreMap
    ensures v in t.scoreMap[s] <==> v in t.userMap && t.userMap[v].score == s
  {
  }

  lemma RewriteSameRecord(userMap: map<string, ScoreData>, userId: string, d: ScoreData)
    requires userId in userMap && userMap[userId] == d
    ensures userMap[userId := d] == userMap
  {
  }

  /** Repeating an update with the same score and timestamp changes
      nothing: the user is already last in its bucket, so taking it out and
      appending it again gives back the same bucket. A repeated identical
      event therefore leaves every later read as it was. */
  lemma RepeatedUpdateIsStable(t: Table, userId: string, score: int, timestamp: int)
    requires Coupled(t)
    ensures var once := UpdateTable(t, userId, score, timestamp);
            UpdateTable(once, userId, score, timestamp) == once
  {
    var once := UpdateTable(t, userId, score, timestamp);
    RewriteSameRecord(once.userMap, userId, ScoreData(score, timestamp));
    assert Detach(once, userId) == RemoveFromBucket(once.scoreMap, score, userId);
    ReAttachLast(once.scoreMap, userId, score);
  }

  /** Taking the last user out of a bucket and appending it again gives back
      the same buckets. */
  lemma ReAttachLast(scoreMap: map<int, seq<string>>, userId: string, score: int)
    requires score in scoreMap && |scoreMap[score]| > 0 && Seqs.NoDup(scoreMap[score])
    requires scoreMap[score][|scoreMap[score]| - 1] == userId
    ensures Attach(RemoveFromBucket(scoreMap, score, userId), userId, score) == scoreMap
  {
    var bucket := scoreMap[score];
    var last := |bucket| - 1;
    var pre := bucket[..last];
    assert Seqs.Without(bucket, userId) == pre && userId !in pre && bucket == pre + [userId] by {
      Seqs.WithoutRemovesAt(bucket, last);
      Seqs.OccursOnce(bucket, last);
      assert bucket[last + 1..] == [];
    }
    var detached := RemoveFromBucket(scoreMap, score, userId);
    if |pre| == 0 {
      assert score !in detached;
    } else {
      assert score in detached && detached[score] == pre;
    }
    var r := Attach(detached, userId, score);
    assert r[score] == bucket;
    assert forall s :: s in r <==> s in scoreMap;
    assert forall s | s in r :: r[s] == scoreMap[s];
  }

  /** `exportDataToDB()`: the dirty ids are copied and the set is cleared
      first; then each copied game is selected, read in full and upserted
      under its leaderboard key. Documents of other games are untouched and
      no game's maps change. */
  method ExportDataToDB(st: LocalState, db: Database) returns (r: LocalState, out: Database)
    requires Valid(st)
    ensures Valid(r) && |r.base.dirty| == 0
    ensures forall k :: TableAt(r, k) == TableAt(st, k)
    ensures forall k :: k in out <==> k in db || k in ExportedKeys(st.base.dirty)
    ensures forall k | k in ExportedKeys(st.base.dirty) :: IsFullSnapshot(TableAt(st, k), out[k])
    ensures forall k | k in db && k !in ExportedKeys(st.base.dirty) :: out[k] == db[k]
    ensures |st.base.dirty| > 0 ==> r.base.gameId == Keys.LeaderboardKey(st.base.dirty[|st.base.dirty| - 1])
  {
    var ids := st.base.dirty;
    r := st.(base := ResetDirty(st.base));
    out := db;
    var i := 0;
    while i < |ids|
      invariant 0 <= i <= |ids|
      invariant Valid(r) && forall k :: TableAt(r, k) == TableAt(st, k)
      invariant r.base == BaseState([], if i == 0 then st.base.gameId else Keys.LeaderboardKey(ids[i - 1]))
      invariant ExportedSoFar(st, db, ids[..i], out)
    {
      var before := out;
      r, out := ExportGame(r, out, ids[i]);
      ExportStep(st, db, ids, i, before, out);
      i := i + 1;
    }
    assert ids[..i] == ids;
  }

  /** One round of the export loop: select the game, read as many score
      levels as it has members (`getMembers(getMemberCount())`), upsert the
      rows under its leaderboard key. */
  method ExportGame(st: LocalState, db: Database, gameId: string) returns (r: LocalState, out: Database)
    requires Valid(st)
    ensures Valid(r) && forall k :: TableAt(r, k) == TableAt(st, k)
    ensures r.base == st.base.(gameId := Keys.LeaderboardKey(gameId))
    ensures Keys.LeaderboardKey(gameId) in out && out == db[Keys.LeaderboardKey(gameId) := out[Keys.LeaderboardKey(gameId)]]
    ensures IsFullSnapshot(TableAt(st, Keys.LeaderboardKey(gameId)), out[Keys.LeaderboardKey(gameId)])
  {
    r := SetGameId(st, gameId);
    var size := GetMemberCount(r);
    var read := GetMembers(r, size);
    FullRead(TableAt(st, r.base.gameId), size, read.1);
    r := read.0;
    out := db[r.base.gameId := read.1];
  }

  /** `getMembers(getMemberCount())`: the member count is never below the
      number of distinct scores, so this read is the whole game, one row per
      member. */
  lemma FullRead(t: Table, size: int, rows: seq<ScoreEntry>)
    requires Coupled(t) && size == |t.userMap.Keys| && rows == Members(t, size)
    ensures IsFullSnapshot(t, rows) && |rows| == size
  {
    ScoresAtMostUsers(t);
    FullReadListsEveryone(t, size);
    FullSnapshotCount(t, rows);
  }

  /** The documents after exporting `ids`: one full snapshot per exported
      key, every other document as it was. */
  ghost predicate ExportedSoFar(st: LocalState, db: Database, ids: seq<string>, out: Database) {
    && (forall k :: k in out <==> k in db || k in ExportedKeys(ids))
    && (forall k | k in ExportedKeys(ids) :: IsFullSnapshot(TableAt(st, k), out[k]))
    && (forall k | k in db && k !in ExportedKeys(ids) :: out[k] == db[k])
  }

  /** The export loop's invariant survives one round. */
  lemma ExportStep(st: LocalState, db: Database, ids: seq<string>, i: nat, before: Database, after: Database)
    requires i < |ids| && ExportedSoFar(st, db, ids[..i], before)
    requires Keys.LeaderboardKey(ids[i]) in after && after == before[Keys.LeaderboardKey(ids[i]) := after[Keys.LeaderboardKey(ids[i])]]
    requires IsFullSnapshot(TableAt(st, Keys.LeaderboardKey(ids[i])), after[Keys.LeaderboardKey(ids[i])])
    ensures ExportedSoFar(st, db, ids[..i + 1], after)
  {
    ExportedKeysSnoc(ids, i);
  }
}
