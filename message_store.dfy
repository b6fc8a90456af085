/** The `messages` table of the group chat (server/models/Message.js): its
    rows, the read queries as functions over the table, and the writes as
    methods of a class that owns the table. Timestamps are whole seconds, the
    resolution of the `created_at` column. */
module MessageStore {
  import opened Common

  /** `getRecent`'s default `LIMIT`. */
  const DefaultRecentLimit: nat := 100
  /** `getUnanalyzedRecent` looks back this many seconds (`INTERVAL 1 MINUTE`). */
  const UnanalyzedWindow: int := 60

  /** One row of `messages`. `mediaType` is the stored string (`'none'`,
      `'image'`, `'audio'`, `'video'`). */
  datatype Row = Row(
    id: nat,
    userName: string,
    userColonia: string,
    messageText: string,
    mediaType: string,
    mediaUrl: Option<string>,
    mediaFilename: Option<string>,
    mediaAnalysis: Option<string>,
    replyToId: Option<nat>,
    isBot: bool,
    analyzedByBot: bool,
    createdAt: int)

  /** The argument object of `Message.create`. */
  datatype NewMessage = NewMessage(
    userName: string,
    userColonia: string,
    messageText: string,
    mediaType: string,
    mediaUrl: Option<string>,
    mediaFilename: Option<string>,
    mediaAnalysis: Option<string>,
    replyToId: Option<nat>,
    isBot: bool)

  /** The `reply_to_*` columns of the LEFT JOIN. */
  datatype ReplyPreview = ReplyPreview(userName: string, messageText: string, mediaType: string)

  /** A row of `messages m LEFT JOIN messages r ON m.reply_to_id = r.id`. */
  datatype Joined = Joined(row: Row, replyTo: Option<ReplyPreview>)

  function CreatedAt(r: Row): int { r.createdAt }

  /** The primary key is strictly increasing in table order (AUTO_INCREMENT). */
  predicate IdsIncreasing(rows: seq<Row>)
  {
    forall i, j :: 0 <= i < j < |rows| ==> rows[i].id < rows[j].id
  }

  // ---------------------------------------------------------------------------
  // queries

  /** `getById`: the row with that id, or `undefined`. */
  function GetById(rows: seq<Row>, id: nat): (r: Option<Row>)
    ensures r.Some? ==> r.value in rows && r.value.id == id
    ensures r.None? <==> forall i :: 0 <= i < |rows| ==> rows[i].id != id
  {
    if rows == [] then None
    else if rows[0].id == id then Some(rows[0])
    else GetById(rows[1..], id)
  }

  /** With a strictly increasing key, the row found for an id is the one stored under it. */
  lemma {:induction false} GetByIdAt(rows: seq<Row>, k: nat)
    requires IdsIncreasing(rows) && k < |rows|
    ensures GetById(rows, rows[k].id) == Some(rows[k])
  {
    if k > 0 {
      assert rows[0].id < rows[k].id;
      assert rows[1..][k - 1] == rows[k];
      GetByIdAt(rows[1..], k - 1);
    }
  }

  /** One row of the LEFT JOIN: the row, and the name, text and media type of
      the row it replies to, or nothing when it replies to no existing row. */
  function Annotate(rows: seq<Row>, m: Row): (j: Joined)
    ensures j.row == m
    ensures j.replyTo.None? <==> m.replyToId.None? || GetById(rows, m.replyToId.value).None?
    ensures j.replyTo.Some? ==>
      exists i :: 0 <= i < |rows| && rows[i].id == m.replyToId.value
        && j.replyTo.value == ReplyPreview(rows[i].userName, rows[i].messageText, rows[i].mediaType)
  {
    match m.replyToId
    case None => Joined(m, None)
    case Some(rid) =>
      match GetById(rows, rid)
      case None => Joined(m, None)
      case Some(r) => Joined(m, Some(ReplyPreview(r.userName, r.messageText, r.mediaType)))
  }

  function AnnotateAll(rows: seq<Row>, s: seq<Row>): (r: seq<Joined>)
    ensures |r| == |s|
    ensures forall i :: 0 <= i < |s| ==> r[i] == Annotate(rows, s[i])
  {
    seq(|s|, i requires 0 <= i < |s| => Annotate(rows, s[i]))
  }

  /** `ORDER BY created_at ASC`. */
  function ByCreated(s: seq<Row>): (r: seq<Row>)
    ensures |r| == |s| && multiset(r) == multiset(s)
    ensures SortedBy(r, CreatedAt)
    ensures forall x :: x in r <==> x in s
  {
    var r := SortBy(s, CreatedAt);
    forall x ensures x in r <==> x in s { SortByMembers(s, CreatedAt, x); }
    r
  }

  /** `getRecent(limit)`: the first `limit` rows in ascending `created_at`,
      that is the OLDEST rows of the table, each with its reply preview. The
      method's doc comment speaks of the latest ones; this follows the query. */
  function GetRecent(rows: seq<Row>, limit: nat): (r: seq<Joined>)
    ensures |r| == if limit < |rows| then limit else |rows|
    ensures forall i :: 0 <= i < |r| ==> r[i] == Annotate(rows, ByCreated(rows)[i])
  {
    var sorted := ByCreated(rows);
    AnnotateAll(rows, sorted[..if limit < |rows| then limit else |rows|])
  }

  /** Past the limit, every row it leaves out is at least as new as every row it returns. */
  lemma GetRecentKeepsOldest(rows: seq<Row>, limit: nat, i: nat, j: nat)
    requires limit < |rows| && i < limit <= j < |rows|
    ensures GetRecent(rows, limit)[i].row.createdAt <= ByCreated(rows)[j].createdAt
  {
  }

  /** `getSince`'s filter: the ISO timestamp is cut to whole seconds
      (`toISOString().slice(0, 19)`), and the comparison is strict. */
  predicate After(r: Row, sinceMillis: int)
  {
    r.createdAt > sinceMillis / 1000
  }

  /** `getSince(timestamp)`: every row created strictly after the timestamp's
      second, in ascending `created_at`, each with its reply preview. */
  function GetSince(rows: seq<Row>, sinceMillis: int): (r: seq<Joined>)
    ensures SortedBy(seq(|r|, i requires 0 <= i < |r| => r[i].row), CreatedAt)
    ensures forall i :: 0 <= i < |r| ==> r[i].row in rows && After(r[i].row, sinceMillis)
    ensures forall i :: 0 <= i < |r| ==> r[i] == Annotate(rows, r[i].row)
    ensures forall x :: x in rows && After(x, sinceMillis) ==>
      exists i :: 0 <= i < |r| && r[i].row == x
    ensures |r| == |Filter(rows, (x: Row) => After(x, sinceMillis))|
  {
    var f := Filter(rows, (x: Row) => After(x, sinceMillis));
    var sel := ByCreated(f);
    var r := AnnotateAll(rows, sel);
    forall i | 0 <= i < |r| ensures r[i].row in rows && After(r[i].row, sinceMillis) {
      assert sel[i] in f;
      var k :| 0 <= k < |f| && f[k] == sel[i];
    }
    assert seq(|r|, i requires 0 <= i < |r| => r[i].row) == sel;
    forall x | x in rows && After(x, sinceMillis)
      ensures exists i :: 0 <= i < |r| && r[i].row == x
    {
      var k :| 0 <= k < |rows| && rows[k] == x;
      assert x in sel;
      var i :| 0 <= i < |sel| && sel[i] == x;
      assert r[i].row == x;
    }
    r
  }

  /** A message stored in the same second as the polling cursor is never
      returned: the cursor's milliseconds are discarded and `>` is strict. */
  lemma SinceSkipsCursorSecond(rows: seq<Row>, sinceMillis: int, x: Row)
    requires x in rows && x.createdAt == sinceMillis / 1000
    ensures forall i :: 0 <= i < |GetSince(rows, sinceMillis)| ==> GetSince(rows, sinceMillis)[i].row != x
  {
  }

  /** Eligible for the bot: not analyzed, not written by the bot, and at most
      `UnanalyzedWindow` seconds old (`created_at >= NOW() - 1 minute`). */
  predicate UnanalyzedRecentAt(r: Row, now: int)
  {
    !r.analyzedByBot && !r.isBot && r.createdAt >= now - UnanalyzedWindow
  }

  /** `getUnanalyzedRecent()` at time `now`: exactly the eligible rows, oldest first. */
  function GetUnanalyzedRecent(rows: seq<Row>, now: int): (r: seq<Row>)
    ensures SortedBy(r, CreatedAt)
    ensures forall x :: x in r <==> x in rows && UnanalyzedRecentAt(x, now)
    ensures multiset(r) == multiset(Filter(rows, (x: Row) => UnanalyzedRecentAt(x, now)))
  {
    var f := Filter(rows, (x: Row) => UnanalyzedRecentAt(x, now));
    assert forall x :: x in f <==> x in rows && UnanalyzedRecentAt(x, now) by {
      forall x ensures x in f <==> x in rows && UnanalyzedRecentAt(x, now) {
        if x in rows && UnanalyzedRecentAt(x, now) {
          var k :| 0 <= k < |rows| && rows[k] == x;
        }
      }
    }
    ByCreated(f)
  }

  // ---------------------------------------------------------------------------
  // writes, as functions of the table

  /** The row `create` inserts: exactly the eight listed columns, plus the id
      and `created_at` the database assigns; `mediaAnalysis` is never written. */
  function NewRow(m: NewMessage, id: nat, now: int): (r: Row)
    ensures r.id == id && r.createdAt == now
    ensures r.mediaAnalysis.None? && !r.analyzedByBot
  {
    Row(id, m.userName, m.userColonia, m.messageText, m.mediaType, m.mediaUrl,
        m.mediaFilename, None, m.replyToId, m.isBot, false, now)
  }

  /** The row with its `analyzed_by_bot` flag set to `flag`. */
  function WithFlag(r: Row, flag: bool): Row
  {
    r.(analyzedByBot := flag)
  }

  /** The row with its `media_analysis` set to `m`. */
  function WithAnalysis(r: Row, m: Option<string>): Row
  {
    r.(mediaAnalysis := m)
  }

  /** `UPDATE messages SET analyzed_by_bot = TRUE WHERE id IN (ids)`. */
  function MarkAnalyzed(rows: seq<Row>, ids: seq<nat>): (r: seq<Row>)
    ensures |r| == |rows|
    ensures forall i :: 0 <= i < |rows| ==>
      r[i] == if rows[i].id in ids then WithFlag(rows[i], true) else rows[i]
  {
    seq(|rows|, i requires 0 <= i < |rows| => if rows[i].id in ids then WithFlag(rows[i], true) else rows[i])
  }

  /** Marking is idempotent. */
  lemma MarkAnalyzedIdempotent(rows: seq<Row>, ids: seq<nat>)
    ensures MarkAnalyzed(MarkAnalyzed(rows, ids), ids) == MarkAnalyzed(rows, ids)
  {
  }

  /** After marking, a listed id is no longer eligible at any time, and an unlisted row is untouched. */
  lemma MarkAnalyzedRemovesFromEligible(rows: seq<Row>, ids: seq<nat>, now: int)
    ensures forall x :: x in GetUnanalyzedRecent(MarkAnalyzed(rows, ids), now) ==> x.id !in ids
    ensures forall x :: x in GetUnanalyzedRecent(rows, now) && x.id !in ids ==>
      x in GetUnanalyzedRecent(MarkAnalyzed(rows, ids), now)
  {
    var m := MarkAnalyzed(rows, ids);
    forall x | x in GetUnanalyzedRecent(rows, now) && x.id !in ids
      ensures x in GetUnanalyzedRecent(m, now)
    {
      var k :| 0 <= k < |rows| && rows[k] == x;
      assert m[k] == x;
    }
  }

  /** `UPDATE messages SET media_analysis = ? WHERE id = ?`. */
  function SetAnalysis(rows: seq<Row>, id: nat, text: string): (r: seq<Row>)
    ensures |r| == |rows|
    ensures forall i :: 0 <= i < |rows| ==>
      r[i] == if rows[i].id == id then WithAnalysis(rows[i], Some(text)) else rows[i]
  {
    seq(|rows|, i requires 0 <= i < |rows| => if rows[i].id == id then WithAnalysis(rows[i], Some(text)) else rows[i])
  }

  /** A row appended under a fresh, larger id is found by `getById`, and every
      earlier lookup is unchanged. */
  lemma {:induction false} AppendThenGetById(rows: seq<Row>, r: Row, id: nat)
    requires forall i :: 0 <= i < |rows| ==> rows[i].id < r.id
    ensures GetById(rows + [r], r.id) == Some(r)
    ensures id != r.id ==> GetById(rows + [r], id) == GetById(rows, id)
  {
    if rows != [] {
      assert (rows + [r])[1..] == rows[1..] + [r];
      AppendThenGetById(rows[1..], r, id);
    }
  }

  // ---------------------------------------------------------------------------
  // the table

  class MessageTable {
    var rows: seq<Row>
    /** The next AUTO_INCREMENT value. */
    var nextId: nat

    ghost predicate Valid()
      reads this
    {
      && nextId >= 1
      && (forall i :: 0 <= i < |rows| ==> 1 <= rows[i].id < nextId)
      && IdsIncreasing(rows)
    }

    constructor ()
      ensures Valid() && rows == [] && nextId == 1
    {
      rows := [];
      nextId := 1;
    }

    /** `Message.create(m)` at time `now`: appends one row and returns its id. */
    method Create(m: NewMessage, now: int) returns (id: nat)
      requires Valid()
      modifies this
      ensures Valid()
      ensures id == old(nextId) && nextId == id + 1
      ensures rows == old(rows) + [NewRow(m, id, now)]
      ensures GetById(rows, id) == Some(NewRow(m, id, now))
    {
      id := nextId;
      AppendThenGetById(rows, NewRow(m, id, now), id);
      rows := rows + [NewRow(m, id, now)];
      nextId := nextId + 1;
    }

    /** `Message.markAsAnalyzed(ids)`: a missing or empty list changes nothing;
        otherwise exactly the listed ids are flagged, bot rows included. */
    method MarkAsAnalyzed(ids: Option<seq<nat>>)
      requires Valid()
      modifies this
      ensures Valid() && nextId == old(nextId)
      ensures rows == if ids.None? || ids.value == [] then old(rows) else MarkAnalyzed(old(rows), ids.value)
    {
      if ids.None? || ids.value == [] {
        return;
      }
      rows := MarkAnalyzed(rows, ids.value);
    }

    /** The backfill's `UPDATE ... SET media_analysis = ? WHERE id = ?`. */
    method SetMediaAnalysis(id: nat, text: string)
      requires Valid()
      modifies this
      ensures Valid() && nextId == old(nextId)
      ensures rows == SetAnalysis(old(rows), id, text)
    {
      rows := SetAnalysis(rows, id, text);
    }
  }
}
