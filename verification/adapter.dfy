/** The store the service talks to: the Redis store when the configuration
    names it, the in-memory store otherwise. Each operation dispatches on the
    variant; the rest of the model only needs what both variants promise:
    which game is selected, which users a game holds, and that an operation
    on one game leaves every other game's data alone. */
module Adapter {
  import opened Wrappers
  import opened BaseAdapter
  import LocalAdapter
  import RedisAdapter
  import Keys

  datatype Store = Local(local: LocalAdapter.LocalState) | Redis(redis: RedisAdapter.RedisState)

  ghost predicate Valid(a: Store) {
    match a
    case Local(st) => LocalAdapter.Valid(st)
    case Redis(st) => RedisAdapter.Valid(st)
  }

  function Base(a: Store): BaseState {
    match a
    case Local(st) => st.base
    case Redis(st) => st.base
  }

  /** The users recorded under a leaderboard key. */
  function Users(a: Store, key: string): set<string> {
    match a
    case Local(st) => LocalAdapter.TableAt(st, key).userMap.Keys
    case Redis(st) => RedisAdapter.ZSetAt(st, key).Keys
  }

  /** The score and timestamp recorded for a user under a leaderboard key,
      as a read reports them: the local record, or the decoded composite. */
  function Record(a: Store, key: string, userId: string): Option<LocalAdapter.ScoreData> {
    match a
    case Local(st) =>
      var t := LocalAdapter.TableAt(st, key);
      if userId in t.userMap then Some(t.userMap[userId]) else None
    case Redis(st) =>
      var z := RedisAdapter.ZSetAt(st, key);
      if userId in z then
        var e := RedisAdapter.DecodeEntry(userId, z[userId]);
        Some(LocalAdapter.ScoreData(e.score, e.timestamp))
      else None
  }

  /** Whether a write of (score, timestamp) can be read back unchanged: always
      in memory; in Redis when the score is not negative and the timestamp
      fits below the packing factor, as every validated event stamped with
      the current time does. */
  predicate RoundTrips(a: Store, score: int, timestamp: int) {
    a.Local? || (score >= 0 && 0 <= timestamp < RedisAdapter.Multiplier)
  }

  /** Every row carries the record its user holds under `key`. */
  predicate RowsMatchRecords(a: Store, key: string, rows: seq<ScoreEntry>) {
    forall i | 0 <= i < |rows| :: Record(a, key, rows[i].userId) == Some(LocalAdapter.ScoreData(rows[i].score, rows[i].timestamp))
  }

  /** `a` and `b` are the same kind of store and hold the same data under `key`. */
  predicate SameData(a: Store, b: Store, key: string) {
    match a
    case Local(x) => b.Local? && LocalAdapter.TableAt(x, key) == LocalAdapter.TableAt(b.local, key)
    case Redis(x) => b.Redis? && RedisAdapter.ZSetAt(x, key) == RedisAdapter.ZSetAt(b.redis, key)
  }

  /** The adapter as constructed, of the configured kind. The in-memory
      store starts empty; the Redis store sees whatever sorted sets the
      server already holds. */
  function New(useRedis: bool, server: map<string, RedisAdapter.ZSet>): (a: Store)
    ensures Valid(a) && |Base(a).dirty| == 0
    ensures a.Redis? <==> useRedis
    ensures !useRedis ==> forall key :: Users(a, key) == {}
    ensures useRedis ==> forall key | key in server :: Users(a, key) == server[key].Keys
    ensures forall key | key !in server :: Users(a, key) == {}
  {
    if useRedis then Redis(RedisAdapter.New(server)) else Local(LocalAdapter.New())
  }

  function SetGameId(a: Store, gameId: string): (r: Store)
    ensures Base(r) == Base(a).(gameId := Keys.LeaderboardKey(gameId))
    ensures Valid(a) ==> Valid(r)
    ensures forall key :: SameData(a, r, key)
  {
    match a
    case Local(st) => Local(LocalAdapter.SetGameId(st, gameId))
    case Redis(st) => Redis(RedisAdapter.SetGameId(st, gameId))
  }

  function MarkDirty(a: Store, gameId: string): (r: Store)
    requires Valid(a)
    ensures Valid(r) && Base(r) == BaseAdapter.MarkDirty(Base(a), gameId)
    ensures forall key :: SameData(a, r, key)
  {
    match a
    case Local(st) => Local(LocalAdapter.MarkDirty(st, gameId))
    case Redis(st) => Redis(RedisAdapter.MarkDirty(st, gameId))
  }

  /** `updateMemberScore`: the user joins the selected game (or keeps its
      place in the user set) with the new score and timestamp, no other
      user's record and no other game's data changes. */
  function UpdateMemberScore(a: Store, userId: string, score: int, timestamp: int): (r: Store)
    requires Valid(a)
    ensures Valid(r) && Base(r) == Base(a)
    ensures Users(r, Base(a).gameId) == Users(a, Base(a).gameId) + {userId}
    ensures RoundTrips(a, score, timestamp) ==> Record(r, Base(a).gameId, userId) == Some(LocalAdapter.ScoreData(score, timestamp))
    ensures forall v | v != userId :: Record(r, Base(a).gameId, v) == Record(a, Base(a).gameId, v)
    ensures forall key | key != Base(a).gameId :: SameData(a, r, key)
  {
    match a
    case Local(st) =>
      LocalWriteRecords(st, userId, score, timestamp);
      Local(LocalAdapter.UpdateMemberScore(st, userId, score, timestamp))
    case Redis(st) =>
      RedisWriteRecords(st, userId, score, timestamp);
      Redis(RedisAdapter.UpdateMemberScore(st, userId, score, timestamp))
  }

  /** A local update writes the user's record and no other. */
  lemma LocalWriteRecords(st: LocalAdapter.LocalState, userId: string, score: int, timestamp: int)
    requires LocalAdapter.Valid(st)
    ensures var r := Local(LocalAdapter.UpdateMemberScore(st, userId, score, timestamp));
            && Record(r, st.base.gameId, userId) == Some(LocalAdapter.ScoreData(score, timestamp))
            && forall v | v != userId :: Record(r, st.base.gameId, v) == Record(Local(st), st.base.gameId, v)
  {
    var r := Local(LocalAdapter.UpdateMemberScore(st, userId, score, timestamp));
    RecordsOfUserMap(Local(st), r, st.base.gameId, userId, LocalAdapter.ScoreData(score, timestamp));
  }

  /** Replacing one entry of a local game's user map changes that user's
      record and no other. */
  lemma RecordsOfUserMap(a: Store, b: Store, key: string, userId: string, d: LocalAdapter.ScoreData)
    requires a.Local? && b.Local?
    requires LocalAdapter.TableAt(b.local, key).userMap == LocalAdapter.TableAt(a.local, key).userMap[userId := d]
    ensures Record(b, key, userId) == Some(d)
    ensures forall v | v != userId :: Record(b, key, v) == Record(a, key, v)
  {
  }

  /** A Redis update writes the user's record, which decodes back when the
      score and timestamp are in range, and no other. */
  lemma RedisWriteRecords(st: RedisAdapter.RedisState, userId: string, score: int, timestamp: int)
    ensures var r := Redis(RedisAdapter.UpdateMemberScore(st, userId, score, timestamp));
            && (RoundTrips(Redis(st), score, timestamp) ==> Record(r, st.base.gameId, userId) == Some(LocalAdapter.ScoreData(score, timestamp)))
            && forall v | v != userId :: Record(r, st.base.gameId, v) == Record(Redis(st), st.base.gameId, v)
  {
    if score >= 0 && 0 <= timestamp < RedisAdapter.Multiplier {
      RedisAdapter.UpdateThenDecode(st, userId, score, timestamp);
    }
    var r := Redis(RedisAdapter.UpdateMemberScore(st, userId, score, timestamp));
    forall v | v != userId
      ensures Record(r, st.base.gameId, v) == Record(Redis(st), st.base.gameId, v)
    {
    }
  }

  /** `getMembers(limit)` on the selected game. The local store may create
      the game's empty maps on the way, which changes no data. */
  function GetMembers(a: Store, limit: int): (r: (Store, seq<ScoreEntry>))
    requires Valid(a)
    ensures Valid(r.0) && Base(r.0) == Base(a)
    ensures forall key :: SameData(a, r.0, key)
    ensures a.Local? ==> r.1 == LocalAdapter.Members(LocalAdapter.TableAt(a.local, Base(a).gameId), limit)
    ensures a.Redis? ==> r.1 == RedisAdapter.Members(RedisAdapter.ZSetAt(a.redis, Base(a).gameId), limit)
    ensures forall i | 0 <= i < |r.1| :: r.1[i].userId in Users(a, Base(a).gameId)
    ensures RowsMatchRecords(a, Base(a).gameId, r.1)
    ensures DistinctUsers(r.1) && ScoreDescending(r.1)
  {
    match a
    case Local(st) =>
      var (next, rows) := LocalAdapter.GetMembers(st, limit);
      (Local(next), rows)
    case Redis(st) => (a, RedisAdapter.GetMembers(st, limit))
  }

  /** `getMemberCount()`: the number of users of the selected game. */
  function GetMemberCount(a: Store): (n: nat)
    ensures n == |Users(a, Base(a).gameId)|
  {
    match a
    case Local(st) => LocalAdapter.GetMemberCount(st)
    case Redis(st) => RedisAdapter.GetMemberCount(st)
  }

  /** `setGameId(gameId).getMembers(limit)`: the read the service issues. */
  function SelectAndRead(a: Store, gameId: string, limit: int): (r: (Store, seq<ScoreEntry>))
    requires Valid(a)
    ensures Valid(r.0) && Base(r.0) == Base(a).(gameId := Keys.LeaderboardKey(gameId))
    ensures forall key :: SameData(a, r.0, key)
    ensures a.Local? ==> r.1 == LocalAdapter.Members(LocalAdapter.TableAt(a.local, Keys.LeaderboardKey(gameId)), limit)
    ensures a.Redis? ==> r.1 == RedisAdapter.Members(RedisAdapter.ZSetAt(a.redis, Keys.LeaderboardKey(gameId)), limit)
    ensures forall i | 0 <= i < |r.1| :: r.1[i].userId in Users(a, Keys.LeaderboardKey(gameId))
    ensures RowsMatchRecords(a, Keys.LeaderboardKey(gameId), r.1)
    ensures DistinctUsers(r.1) && ScoreDescending(r.1)
  {
    var selected := SetGameId(a, gameId);
    var r := GetMembers(selected, limit);
    SameDataChain(a, selected, r.0);
    r
  }

  /** What `getMembers(limit)` returns for `gameId` once that game is selected. */
  function Read(a: Store, gameId: string, limit: int): seq<ScoreEntry>
    requires Valid(a)
  {
    SelectAndRead(a, gameId, limit).1
  }

  /** A read depends on nothing but the game's own data: two stores that hold
      the same data for a game answer every read of it alike, whatever else
      differs between them. */
  lemma ReadFollowsData(a: Store, b: Store, gameId: string, limit: int)
    requires Valid(a) && Valid(b) && SameData(a, b, Keys.LeaderboardKey(gameId))
    ensures Read(a, gameId, limit) == Read(b, gameId, limit)
  {
  }

  /** A game's size depends on nothing but the game's own data. */
  lemma CountFollowsData(a: Store, b: Store, gameId: string)
    requires SameData(a, b, Keys.LeaderboardKey(gameId))
    ensures GetMemberCount(SetGameId(a, gameId)) == GetMemberCount(SetGameId(b, gameId))
  {
  }

  /** Records under a key depend on nothing but the data under it. */
  lemma RecordFollowsData(a: Store, b: Store, key: string)
    requires SameData(a, b, key)
    ensures a.Local? == b.Local?
    ensures forall v :: Record(a, key, v) == Record(b, key, v)
  {
  }

  /** `SameData` chains. */
  lemma SameDataTransitive(a: Store, b: Store, c: Store, key: string)
    requires SameData(a, b, key) && SameData(b, c, key)
    ensures SameData(a, c, key)
  {
  }

  lemma SameDataChain(a: Store, b: Store, c: Store)
    requires forall key :: SameData(a, b, key)
    requires forall key :: SameData(b, c, key)
    ensures forall key :: SameData(a, c, key)
  {
    forall key
      ensures SameData(a, c, key)
    {
      SameDataTransitive(a, b, c, key);
    }
  }

  /** `exportDataToDB()`: every dirty game's full leaderboard is upserted
      under its key, other documents are kept, the dirty set is emptied and
      no game's data changes. */
  method ExportDataToDB(a: Store, db: Database) returns (r: Store, out: Database)
    requires Valid(a)
    ensures Valid(r) && |Base(r).dirty| == 0
    ensures forall key :: SameData(a, r, key)
    ensures forall k :: k in out <==> k in db || k in ExportedKeys(Base(a).dirty)
    ensures forall k | k in ExportedKeys(Base(a).dirty) :: (forall u :: Lists(out[k], u) <==> u in Users(a, k))
    ensures forall k | k in ExportedKeys(Base(a).dirty) :: DistinctUsers(out[k]) && ScoreDescending(out[k])
    ensures forall k | k in ExportedKeys(Base(a).dirty) :: RowsMatchRecords(a, k, out[k])
    ensures forall k | k in db && k !in ExportedKeys(Base(a).dirty) :: out[k] == db[k]
  {
    match a
    case Local(st) =>
      var next;
      next, out := LocalAdapter.ExportDataToDB(st, db);
      r := Local(next);
    case Redis(st) =>
      var next;
      next, out := RedisAdapter.ExportDataToDB(st, db);
      r := Redis(next);
  }
}
