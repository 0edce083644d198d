/** What `src/adapters/base.adapter.js` gives every ranked store: the set of
    dirty game ids (games written since the last export, kept in insertion
    order like a JS `Set`), the currently selected game key, the entry type
    both stores return, and the abstract operations that throw until a
    subclass overrides them. */
module BaseAdapter {
  import opened Wrappers
  import Seqs
  import Keys

  /** One leaderboard row as both stores return it. Timestamps are
      milliseconds; the ISO-string rendering of the source is not modelled. */
  datatype ScoreEntry = ScoreEntry(userId: string, score: int, timestamp: int)

  /** Some row of `entries` belongs to `userId`. */
  ghost predicate Lists(entries: seq<ScoreEntry>, userId: string) {
    exists i :: 0 <= i < |entries| && entries[i].userId == userId
  }

  /** No user appears in two rows. */
  ghost predicate DistinctUsers(entries: seq<ScoreEntry>) {
    forall i, j :: 0 <= i < j < |entries| ==> entries[i].userId != entries[j].userId
  }

  /** Rows are in non-increasing score order. */
  ghost predicate ScoreDescending(entries: seq<ScoreEntry>) {
    forall i, j :: 0 <= i < j < |entries| ==> entries[i].score >= entries[j].score
  }

  lemma ListsAppend(a: seq<ScoreEntry>, b: seq<ScoreEntry>)
    ensures forall u :: Lists(a + b, u) <==> Lists(a, u) || Lists(b, u)
  {
    forall u | Lists(a, u)
      ensures Lists(a + b, u)
    {
      var k :| 0 <= k < |a| && a[k].userId == u;
      assert (a + b)[k].userId == u;
    }
    forall u | Lists(b, u)
      ensures Lists(a + b, u)
    {
      var k :| 0 <= k < |b| && b[k].userId == u;
      assert (a + b)[|a| + k].userId == u;
    }
    forall u | Lists(a + b, u)
      ensures Lists(a, u) || Lists(b, u)
    {
      var k :| 0 <= k < |a + b| && (a + b)[k].userId == u;
      if k >= |a| {
        assert b[k - |a|].userId == u;
      } else {
        assert a[k].userId == u;
      }
    }
  }

  lemma DistinctAppend(a: seq<ScoreEntry>, b: seq<ScoreEntry>)
    requires DistinctUsers(a) && DistinctUsers(b)
    requires forall u :: Lists(a, u) ==> !Lists(b, u)
    ensures DistinctUsers(a + b)
  {
    forall i, j | 0 <= i < j < |a + b|
      ensures (a + b)[i].userId != (a + b)[j].userId
    {
      if i < |a| && j >= |a| {
        assert Lists(a, a[i].userId);
        assert Lists(b, b[j - |a|].userId);
      }
    }
  }

  lemma DescendingAppend(a: seq<ScoreEntry>, b: seq<ScoreEntry>)
    requires ScoreDescending(a) && ScoreDescending(b)
    requires forall i, j | 0 <= i < |a| && 0 <= j < |b| :: a[i].score >= b[j].score
    ensures ScoreDescending(a + b)
  {
    forall i, j | 0 <= i < j < |a + b|
      ensures (a + b)[i].score >= (a + b)[j].score
    {
      if i < |a| && j >= |a| {
        assert (a + b)[j] == b[j - |a|];
      }
    }
  }

  /** One `updateMemberScore` call's arguments. */
  datatype Update = Update(userId: string, score: int, timestamp: int)

  /** The users named in a run of updates. */
  function UpdatedUsers(updates: seq<Update>): (r: set<string>)
    ensures forall u :: u in r <==> exists i :: 0 <= i < |updates| && updates[i].userId == u
  {
    set i | 0 <= i < |updates| :: updates[i].userId
  }

  lemma UpdatedUsersCons(updates: seq<Update>)
    requires |updates| > 0
    ensures UpdatedUsers(updates) == {updates[0].userId} + UpdatedUsers(updates[1..])
  {
    forall u | u in UpdatedUsers(updates) && u != updates[0].userId
      ensures u in UpdatedUsers(updates[1..])
    {
      var i :| 0 <= i < |updates| && updates[i].userId == u;
      assert updates[1..][i - 1].userId == u;
    }
    forall u | u in UpdatedUsers(updates[1..])
      ensures u in UpdatedUsers(updates)
    {
      var i :| 0 <= i < |updates[1..]| && updates[1..][i].userId == u;
      assert updates[i + 1].userId == u;
    }
  }

  /** The durable store: one document per leaderboard key, replaced whole by
      an upsert that sets the document's scores, creating it if missing. */
  type Database = map<string, seq<ScoreEntry>>

  /** The documents an export of `ids` writes: one per leaderboard key. */
  function ExportedKeys(ids: seq<string>): (r: set<string>)
    ensures forall k :: k in r <==> exists g :: g in ids && k == Keys.LeaderboardKey(g)
  {
    set g | g in ids :: Keys.LeaderboardKey(g)
  }

  lemma ExportedKeysSnoc(ids: seq<string>, i: nat)
    requires i < |ids|
    ensures ExportedKeys(ids[..i + 1]) == ExportedKeys(ids[..i]) + {Keys.LeaderboardKey(ids[i])}
  {
    assert ids[..i + 1] == ids[..i] + [ids[i]];
  }

  /** The fields of the base class: `dirty` and `gameId`. */
  datatype BaseState = BaseState(dirty: seq<string>, gameId: string)

  ghost predicate ValidBase(st: BaseState) {
    Seqs.NoDup(st.dirty)
  }

  /** A freshly constructed adapter: nothing is dirty, no game selected. */
  function NewBase(): (st: BaseState)
    ensures |st.dirty| == 0 && ValidBase(st)
  {
    BaseState([], "")
  }

  /** `markDirty(gameId)`: adds the id, keeps every id already there. */
  function MarkDirty(st: BaseState, gameId: string): (r: BaseState)
    ensures gameId in r.dirty
    ensures forall g :: g in r.dirty <==> g in st.dirty || g == gameId
    ensures ValidBase(st) ==> ValidBase(r)
    ensures r.gameId == st.gameId
  {
    st.(dirty := Seqs.Add(st.dirty, gameId))
  }

  /** Marking the same game twice is the same as marking it once. */
  lemma MarkDirtyIdempotent(st: BaseState, gameId: string)
    ensures MarkDirty(MarkDirty(st, gameId), gameId) == MarkDirty(st, gameId)
  {
  }

  /** `resetDirty()`: the set becomes empty and nothing else changes. */
  function ResetDirty(st: BaseState): (r: BaseState)
    ensures |r.dirty| == 0 && ValidBase(r)
    ensures r.gameId == st.gameId
  {
    st.(dirty := [])
  }

  /** The operations a subclass must provide. */
  datatype AbstractOperation =
    | SetGameId(gameId: string)
    | UpdateMemberScore(userId: string, score: int, timestamp: int)
    | GetMembers(limit: int)
    | GetMemberCount
    | ExportDataToDB

  const NotImplemented: string := "Method not implemented."

  /** Calling any abstract operation on the base class itself throws
      `Error('Method not implemented.')`, whatever the state and arguments. */
  function CallUnimplemented(st: BaseState, op: AbstractOperation): (r: Outcome<string>)
    ensures r.Fail? && r.error == NotImplemented
  {
    Fail(NotImplemented)
  }
}
