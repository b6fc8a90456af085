/** The `chat_sessions` table of the FAQ chatbot (server/models/ChatSession.js):
    one row per question counter, with an optional expiry. Nothing in the
    model makes `session_id` unique, so a table may hold an expired row and
    a fresh row under the same id. A `SELECT` without `ORDER BY` is taken
    to return rows in table order. Times are milliseconds. */
module ChatSessionStore {
  import opened Common

  /** A new session expires 24 hours after it is created. */
  const DayMillis: int := 24 * 60 * 60 * 1000
  /** `hasReachedLimit`'s default limit. */
  const DefaultLimit: int := 5

  datatype Session = Session(sessionId: string, messageCount: nat, expiresAt: Option<int>)

  /** `session_id = ? AND (expires_at IS NULL OR expires_at > NOW())`. */
  predicate LiveAt(s: Session, id: string, now: int)
  {
    s.sessionId == id && (s.expiresAt.None? || s.expiresAt.value > now)
  }

  /** The first row of `SELECT * ... WHERE session_id = ? AND (... > NOW())`. */
  function FirstLive(rows: seq<Session>, id: string, now: int): (r: Option<Session>)
    ensures r.Some? ==> r.value in rows && LiveAt(r.value, id, now)
    ensures r.None? <==> forall i :: 0 <= i < |rows| ==> !LiveAt(rows[i], id, now)
  {
    if rows == [] then None
    else if LiveAt(rows[0], id, now) then Some(rows[0])
    else FirstLive(rows[1..], id, now)
  }

  /** The first row of `SELECT * ... WHERE session_id = ?`, live or not. */
  function FirstWithId(rows: seq<Session>, id: string): (r: Option<Session>)
    ensures r.Some? ==> r.value in rows && r.value.sessionId == id
    ensures r.None? <==> forall i :: 0 <= i < |rows| ==> rows[i].sessionId != id
  {
    if rows == [] then None
    else if rows[0].sessionId == id then Some(rows[0])
    else FirstWithId(rows[1..], id)
  }

  /** The row `getOrCreate` inserts at `now`. */
  function FreshSession(id: string, now: int): Session
  {
    Session(id, 0, Some(now + DayMillis))
  }

  // ---------------------------------------------------------------------------
  // getOrCreate

  /** `getOrCreate(sessionId)` at `now`, as written: the first live row if
      there is one; otherwise insert a fresh row and return the first row of
      the re-select by id, which is an older, expired row whenever the table
      still holds one. */
  function GetOrCreate(rows: seq<Session>, id: string, now: int): (r: (seq<Session>, Session))
    ensures r.1.sessionId == id
  {
    match FirstLive(rows, id, now)
    case Some(s) => (rows, s)
    case None =>
      var next := rows + [FreshSession(id, now)];
      assert next[|rows|].sessionId == id;
      (next, FirstWithId(next, id).value)
  }

  /** What `getOrCreate` writes and returns. An existing live session is
      returned unmodified and nothing is written. Otherwise exactly one row is
      appended, with count 0 and an expiry 24 hours ahead; the row returned is
      the appended one only when the id is new, and otherwise the table's
      first row of that id, which is not live. */
  lemma GetOrCreateSpec(rows: seq<Session>, id: string, now: int)
    ensures var r := GetOrCreate(rows, id, now);
      && (FirstLive(rows, id, now).Some? ==> r.0 == rows && r.1 == FirstLive(rows, id, now).value)
      && (FirstLive(rows, id, now).None? ==>
            && r.0 == rows + [FreshSession(id, now)]
            && (FirstWithId(rows, id).None? ==> r.1 == FreshSession(id, now))
            && (FirstWithId(rows, id).Some? ==> r.1 == FirstWithId(rows, id).value && !LiveAt(r.1, id, now)))
  {
    FirstWithIdAppend(rows, FreshSession(id, now), id);
  }

  /** A session that expired without being cleaned up comes back from the
      re-select with its old count, so it stays at its limit: the row of
      `s` used up and expired at time 0 is returned at time 1. */
  lemma AsWrittenReturnsExpired()
    ensures var rows := [Session("s", 5, Some(0))];
      var r := GetOrCreate(rows, "s", 1);
      && r.0 == rows + [FreshSession("s", 1)]
      && r.1 == rows[0] && !LiveAt(r.1, "s", 1) && r.1.messageCount >= DefaultLimit
  {
    var rows := [Session("s", 5, Some(0))];
    assert FirstLive(rows, "s", 1).None?;
    var next := rows + [FreshSession("s", 1)];
    assert FirstWithId(next, "s") == Some(rows[0]);
  }

  /** `getOrCreate` as intended: the first live row if there is one,
      otherwise the fresh row it inserts. */
  function GetOrCreateIntended(rows: seq<Session>, id: string, now: int): (r: (seq<Session>, Session))
  {
    match FirstLive(rows, id, now)
    case Some(s) => (rows, s)
    case None => (rows + [FreshSession(id, now)], FreshSession(id, now))
  }

  /** As intended, the session returned is live and has that id. An existing
      live session is returned unmodified without writing; otherwise exactly
      one row is appended, with count 0 and an expiry 24 hours ahead, and it
      is the one returned. */
  lemma GetOrCreateIntendedSpec(rows: seq<Session>, id: string, now: int)
    ensures var r := GetOrCreateIntended(rows, id, now);
      && LiveAt(r.1, id, now)
      && (FirstLive(rows, id, now).Some? ==> r.0 == rows && r.1 in rows)
      && (FirstLive(rows, id, now).None? ==>
            r.0 == rows + [r.1] && r.1.messageCount == 0 && r.1.expiresAt == Some(now + DayMillis))
  {
  }

  /** As intended, a second `getOrCreate` at the same time returns the same
      session and writes nothing. */
  lemma GetOrCreateIntendedStable(rows: seq<Session>, id: string, now: int)
    ensures var r := GetOrCreateIntended(rows, id, now);
      GetOrCreateIntended(r.0, id, now) == r
  {
    if FirstLive(rows, id, now).None? {
      FirstLiveAppend(rows, FreshSession(id, now), id, now);
    }
  }

  /** The code as written writes exactly what the intended code writes, and
      returns the same session exactly when a live one exists or the id is new. */
  lemma AsWrittenAgainstIntended(rows: seq<Session>, id: string, now: int)
    ensures GetOrCreate(rows, id, now).0 == GetOrCreateIntended(rows, id, now).0
    ensures GetOrCreate(rows, id, now).1 == GetOrCreateIntended(rows, id, now).1 <==>
      FirstLive(rows, id, now).Some? || FirstWithId(rows, id).None?
  {
    GetOrCreateSpec(rows, id, now);
  }

  /** The re-select on a table with one more row: the first row of the id if
      there was one, else the new row when it carries the id. */
  lemma {:induction false} FirstWithIdAppend(rows: seq<Session>, s: Session, id: string)
    ensures FirstWithId(rows, id).Some? ==> FirstWithId(rows + [s], id) == FirstWithId(rows, id)
    ensures FirstWithId(rows, id).None? && s.sessionId == id ==> FirstWithId(rows + [s], id) == Some(s)
  {
    if rows != [] {
      assert (rows + [s])[1..] == rows[1..] + [s];
      FirstWithIdAppend(rows[1..], s, id);
    } else {
      assert rows + [s] == [s];
    }
  }

  lemma {:induction false} FirstLiveAppend(rows: seq<Session>, s: Session, id: string, now: int)
    requires FirstLive(rows, id, now).None? && LiveAt(s, id, now)
    ensures FirstLive(rows + [s], id, now) == Some(s)
  {
    if rows != [] {
      assert (rows + [s])[1..] == rows[1..] + [s];
      FirstLiveAppend(rows[1..], s, id, now);
    } else {
      assert rows + [s] == [s];
    }
  }

  /** After `getOrCreate` the table holds a live session of the id, the one
      the intended code returns. A second call at the same time writes
      nothing and returns that session, which is the one the first call
      returned exactly when that one was live. */
  lemma GetOrCreateStable(rows: seq<Session>, id: string, now: int)
    ensures var r := GetOrCreate(rows, id, now);
      var live := GetOrCreateIntended(rows, id, now).1;
      && FirstLive(r.0, id, now) == Some(live)
      && GetOrCreate(r.0, id, now) == (r.0, live)
      && (live == r.1 <==> LiveAt(r.1, id, now))
  {
    GetOrCreateSpec(rows, id, now);
    if FirstLive(rows, id, now).None? {
      FirstLiveAppend(rows, FreshSession(id, now), id, now);
    }
  }

  // ---------------------------------------------------------------------------
  // incrementMessageCount, hasReachedLimit, cleanExpired

  /** `UPDATE chat_sessions SET message_count = message_count + 1 WHERE session_id = ?`. */
  function Incremented(rows: seq<Session>, id: string): (r: seq<Session>)
    ensures |r| == |rows|
    ensures forall i :: 0 <= i < |rows| ==>
      r[i] == if rows[i].sessionId == id then Bumped(rows[i]) else rows[i]
  {
    if rows == [] then []
    else
      var head := if rows[0].sessionId == id then Bumped(rows[0]) else rows[0];
      [head] + Incremented(rows[1..], id)
  }

  /** A session with one more question counted. */
  function Bumped(s: Session): Session
  {
    s.(messageCount := s.messageCount + 1)
  }

  /** The live session of that id is found again after the update, with
      exactly one more question counted. */
  lemma {:induction false} IncrementedLive(rows: seq<Session>, id: string, now: int)
    ensures FirstLive(rows, id, now).None? ==> FirstLive(Incremented(rows, id), id, now).None?
    ensures FirstLive(rows, id, now).Some? ==>
      FirstLive(Incremented(rows, id), id, now) == Some(Bumped(FirstLive(rows, id, now).value))
  {
    if rows != [] {
      assert Incremented(rows, id)[1..] == Incremented(rows[1..], id);
      IncrementedLive(rows[1..], id, now);
    }
  }

  /** `hasReachedLimit(sessionId, limit)`: `getOrCreate`, then `count >= limit`.
      It writes what `getOrCreate` writes, and it judges the live session
      when there is one, else the table's first row of the id, however old,
      and a new id only against a limit of at most 0. */
  function HasReachedLimit(rows: seq<Session>, id: string, now: int, limit: int): (r: (seq<Session>, bool))
    ensures r.0 == GetOrCreateIntended(rows, id, now).0
    ensures FirstLive(rows, id, now).Some? ==> (r.1 <==> FirstLive(rows, id, now).value.messageCount >= limit)
    ensures FirstLive(rows, id, now).None? && FirstWithId(rows, id).Some? ==>
      (r.1 <==> FirstWithId(rows, id).value.messageCount >= limit)
    ensures FirstWithId(rows, id).None? ==> (r.1 <==> limit <= 0)
  {
    GetOrCreateSpec(rows, id, now);
    AsWrittenAgainstIntended(rows, id, now);
    FirstLiveHasId(rows, id, now);
    var r := GetOrCreate(rows, id, now);
    (r.0, r.1.messageCount >= limit)
  }

  /** A live row of the id is a row of the id. */
  lemma FirstLiveHasId(rows: seq<Session>, id: string, now: int)
    ensures FirstWithId(rows, id).None? ==> FirstLive(rows, id, now).None?
  {
  }

  /** As intended, a session created by the check itself never starts out
      at a positive limit. */
  lemma FreshNotLimited(rows: seq<Session>, id: string, now: int, limit: int)
    requires FirstLive(rows, id, now).None? && limit > 0
    ensures GetOrCreateIntended(rows, id, now).1.messageCount < limit
  {
  }

  /** `expires_at < NOW()`; a row without expiry never expires. */
  predicate ExpiredAt(s: Session, now: int)
  {
    s.expiresAt.Some? && s.expiresAt.value < now
  }

  function KeptAt(now: int): Session -> bool
  {
    (s: Session) => !ExpiredAt(s, now)
  }

  /** `DELETE FROM chat_sessions WHERE expires_at < NOW()`: the rows kept. */
  function Cleaned(rows: seq<Session>, now: int): (r: seq<Session>)
    ensures forall i :: 0 <= i < |r| ==> r[i] in rows && !ExpiredAt(r[i], now)
    ensures forall i :: 0 <= i < |rows| && !ExpiredAt(rows[i], now) ==> rows[i] in r
  {
    Filter(rows, KeptAt(now))
  }

  /** Cleaning never changes which session a lookup at the same time finds. */
  lemma {:induction false} CleanedKeepsLive(rows: seq<Session>, id: string, now: int)
    ensures FirstLive(Cleaned(rows, now), id, now) == FirstLive(rows, id, now)
  {
    if rows != [] {
      var tail := Cleaned(rows[1..], now);
      if ExpiredAt(rows[0], now) {
        assert Cleaned(rows, now) == tail;
      } else {
        assert Cleaned(rows, now) == [rows[0]] + tail;
        assert ([rows[0]] + tail)[1..] == tail;
      }
      CleanedKeepsLive(rows[1..], id, now);
    }
  }

  /** A row that expires exactly now is no longer live, yet `expires_at < NOW()`
      does not delete it. */
  lemma ExpiringNowSurvivesClean(s: Session, now: int)
    requires s.expiresAt == Some(now)
    ensures !LiveAt(s, s.sessionId, now)
    ensures Cleaned([s], now) == [s]
  {
  }

  // ---------------------------------------------------------------------------
  // the table

  class SessionTable {
    var rows: seq<Session>

    constructor ()
      ensures rows == []
    {
      rows := [];
    }

    /** `ChatSession.getOrCreate(sessionId)` at `now`: the session returned
        carries the id, and afterwards the table holds a live one. */
    method GetOrCreateSession(id: string, now: int) returns (s: Session)
      modifies this
      ensures (rows, s) == GetOrCreate(old(rows), id, now)
      ensures s.sessionId == id && FirstLive(rows, id, now).Some?
    {
      GetOrCreateStable(rows, id, now);
      var found := FirstLive(rows, id, now);
      if found.Some? {
        return found.value;
      }
      rows := rows + [FreshSession(id, now)];
      assert rows[|rows| - 1].sessionId == id;
      var again := FirstWithId(rows, id);
      s := again.value;
    }

    /** `ChatSession.incrementMessageCount(sessionId)`: returns the first row
        of that id after the update. */
    method IncrementMessageCount(id: string) returns (s: Option<Session>)
      modifies this
      ensures rows == Incremented(old(rows), id)
      ensures s == FirstWithId(rows, id)
    {
      rows := Incremented(rows, id);
      s := FirstWithId(rows, id);
    }

    /** `ChatSession.hasReachedLimit(sessionId, limit)` at `now`. */
    method HasReachedLimitAt(id: string, now: int, limit: int) returns (reached: bool)
      modifies this
      ensures (rows, reached) == HasReachedLimit(old(rows), id, now, limit)
    {
      var s := GetOrCreateSession(id, now);
      reached := s.messageCount >= limit;
    }

    /** `ChatSession.cleanExpired()` at `now`: returns the number of rows deleted. */
    method CleanExpired(now: int) returns (affected: nat)
      modifies this
      ensures rows == Cleaned(old(rows), now)
      ensures affected == |old(rows)| - |rows|
    {
      var kept := Cleaned(rows, now);
      affected := |rows| - |kept|;
      rows := kept;
    }
  }
}
