/** The `comments` table of the public comment board (server/models/Comment.js):
    its rows, the read queries as functions over the table, and the writes as
    methods of a class that owns the table. `created_at` is the database's
    `CURRENT_TIMESTAMP` at insertion, passed in as `now`. */
module CommentStore {
  import opened Common

  /** `getAll`'s default `LIMIT`. */
  const DefaultLimit: nat := 50

  /** One row of `comments`. */
  datatype Comment = Comment(id: nat, nombre: string, colonia: string, comentario: string, likes: nat, createdAt: int)

  /** The object `create` returns: the inserted id and fields, without `created_at`. */
  datatype Created = Created(id: nat, nombre: string, colonia: string, comentario: string, likes: nat)

  /** The primary key is strictly increasing in table order (AUTO_INCREMENT). */
  predicate IdsIncreasing(rows: seq<Comment>)
  {
    forall i, j :: 0 <= i < j < |rows| ==> rows[i].id < rows[j].id
  }

  // ---------------------------------------------------------------------------
  // queries

  /** `getById(id)`: the first row of `SELECT * ... WHERE id = ?`, or `undefined`. */
  function GetById(rows: seq<Comment>, id: nat): (r: Option<Comment>)
    ensures r.Some? ==> r.value in rows && r.value.id == id
    ensures r.None? <==> forall i :: 0 <= i < |rows| ==> rows[i].id != id
  {
    if rows == [] then None
    else if rows[0].id == id then Some(rows[0])
    else GetById(rows[1..], id)
  }

  /** With a strictly increasing key, the row found for an id is the one stored under it. */
  lemma {:induction false} GetByIdAt(rows: seq<Comment>, k: nat)
    requires IdsIncreasing(rows) && k < |rows|
    ensures GetById(rows, rows[k].id) == Some(rows[k])
  {
    if k > 0 {
      assert rows[0].id < rows[k].id;
      assert rows[1..][k - 1] == rows[k];
      GetByIdAt(rows[1..], k - 1);
    }
  }

  /** The sort key of `ORDER BY created_at DESC`. */
  function Age(c: Comment): int { -c.createdAt }

  /** `ORDER BY created_at DESC`: every row, newest first; rows created at the
      same time keep table order. */
  function Newest(rows: seq<Comment>): (r: seq<Comment>)
    ensures |r| == |rows| && multiset(r) == multiset(rows)
    ensures forall i, j :: 0 <= i < j < |r| ==> r[i].createdAt >= r[j].createdAt
    ensures forall x :: x in r <==> x in rows
  {
    var r := SortBy(rows, Age);
    assert SortedBy(r, Age);
    forall x ensures x in r <==> x in rows { SortByMembers(rows, Age, x); }
    r
  }

  /** `getAll(limit, offset)`: `ORDER BY created_at DESC LIMIT limit OFFSET offset`. */
  function GetAll(rows: seq<Comment>, limit: nat, offset: nat): (r: seq<Comment>)
    ensures |r| == if offset >= |rows| then 0 else if limit < |rows| - offset then limit else |rows| - offset
    ensures forall i :: 0 <= i < |r| ==> r[i] == Newest(rows)[offset + i]
  {
    var sorted := Newest(rows);
    if offset >= |rows| then []
    else
      var rest := sorted[offset..];
      rest[..if limit < |rest| then limit else |rest|]
  }

  /** A page holds only rows of the table, newest first. */
  lemma GetAllNewestFirst(rows: seq<Comment>, limit: nat, offset: nat)
    ensures var r := GetAll(rows, limit, offset);
      && (forall i :: 0 <= i < |r| ==> r[i] in rows)
      && (forall i, j :: 0 <= i < j < |r| ==> r[i].createdAt >= r[j].createdAt)
  {
    var r := GetAll(rows, limit, offset);
    var sorted := Newest(rows);
    forall i | 0 <= i < |r| ensures r[i] in rows {
      assert r[i] == sorted[offset + i];
      assert sorted[offset + i] in sorted;
    }
  }

  /** Consecutive pages neither skip nor repeat a row: the page of `a` rows at
      `offset` followed by the page of `b` rows right after it is the page of
      `a + b` rows at `offset`. */
  lemma GetAllPages(rows: seq<Comment>, a: nat, b: nat, offset: nat)
    ensures GetAll(rows, a, offset) + GetAll(rows, b, offset + a) == GetAll(rows, a + b, offset)
  {
    var p := GetAll(rows, a, offset);
    var q := GetAll(rows, b, offset + a);
    var whole := GetAll(rows, a + b, offset);
    var sorted := Newest(rows);
    assert q != [] ==> |p| == a;
    assert |p + q| == |whole|;
    forall i | 0 <= i < |whole| ensures (p + q)[i] == whole[i] {
      assert whole[i] == sorted[offset + i];
      if i < |p| {
        assert (p + q)[i] == p[i];
      } else {
        assert (p + q)[i] == q[i - a];
      }
    }
  }

  /** A comment created strictly after every other row heads the first page. */
  lemma {:induction false} LatestHeadsFirstPage(rows: seq<Comment>, c: Comment, limit: nat)
    requires limit >= 1
    requires forall i :: 0 <= i < |rows| ==> rows[i].createdAt < c.createdAt
    ensures GetAll(rows + [c], limit, 0)[0] == c
  {
    var all := rows + [c];
    var sorted := Newest(all);
    assert c in all;
    assert c in sorted;
    var k :| 0 <= k < |sorted| && sorted[k] == c;
    assert sorted[0] in all;
  }

  // ---------------------------------------------------------------------------
  // writes, as functions of the table

  /** The row `INSERT INTO comments (nombre, colonia, comentario)` adds: the
      given fields, the id, no likes, and the insertion time. */
  function NewRow(id: nat, nombre: string, colonia: string, comentario: string, now: int): Comment
  {
    Comment(id, nombre, colonia, comentario, 0, now)
  }

  /** A comment with one more like. */
  function Liked(c: Comment): Comment
  {
    c.(likes := c.likes + 1)
  }

  /** `UPDATE comments SET likes = likes + 1 WHERE id = ?`. */
  function LikesIncremented(rows: seq<Comment>, id: nat): (r: seq<Comment>)
    ensures |r| == |rows|
  {
    if rows == [] then []
    else
      var head := if rows[0].id == id then Liked(rows[0]) else rows[0];
      [head] + LikesIncremented(rows[1..], id)
  }

  /** Every row with that id has one more like, and every other row is unchanged. */
  lemma {:induction false} LikesIncrementedRows(rows: seq<Comment>, id: nat)
    ensures forall i :: 0 <= i < |rows| ==>
      LikesIncremented(rows, id)[i] == if rows[i].id == id then Liked(rows[i]) else rows[i]
  {
    if rows != [] {
      LikesIncrementedRows(rows[1..], id);
      var r := LikesIncremented(rows, id);
      forall i | 1 <= i < |rows|
        ensures r[i] == if rows[i].id == id then Liked(rows[i]) else rows[i]
      {
        assert r[i] == LikesIncremented(rows[1..], id)[i - 1];
        assert rows[i] == rows[1..][i - 1];
      }
    }
  }

  /** The like keeps every id where it was. */
  lemma LikeKeepsIds(rows: seq<Comment>, id: nat)
    ensures forall i :: 0 <= i < |rows| ==> LikesIncremented(rows, id)[i].id == rows[i].id
    ensures IdsIncreasing(rows) ==> IdsIncreasing(LikesIncremented(rows, id))
  {
    LikesIncrementedRows(rows, id);
  }

  /** On an unknown id the like changes nothing. */
  lemma LikeUnknown(rows: seq<Comment>, id: nat)
    requires GetById(rows, id).None?
    ensures LikesIncremented(rows, id) == rows
  {
    LikesIncrementedRows(rows, id);
  }

  /** The like raises the count of that comment by one, and the re-read finds it. */
  lemma {:induction false} LikeFound(rows: seq<Comment>, id: nat)
    requires GetById(rows, id).Some?
    ensures GetById(LikesIncremented(rows, id), id) == Some(Liked(GetById(rows, id).value))
  {
    if rows[0].id != id {
      assert LikesIncremented(rows, id)[1..] == LikesIncremented(rows[1..], id);
      LikeFound(rows[1..], id);
    }
  }

  /** Every other comment is left as it was. */
  lemma {:induction false} LikeOthersUnchanged(rows: seq<Comment>, id: nat, other: nat)
    requires other != id
    ensures GetById(LikesIncremented(rows, id), other) == GetById(rows, other)
  {
    var after := LikesIncremented(rows, id);
    if rows != [] && rows[0].id != other {
      assert after[0].id == rows[0].id;
      assert after[1..] == LikesIncremented(rows[1..], id);
      LikeOthersUnchanged(rows[1..], id, other);
    }
  }

  /** A row appended under a fresh, larger id is found by `getById`. */
  lemma {:induction false} AppendThenGetById(rows: seq<Comment>, r: Comment)
    requires forall i :: 0 <= i < |rows| ==> rows[i].id < r.id
    ensures GetById(rows + [r], r.id) == Some(r)
  {
    if rows != [] {
      assert (rows + [r])[1..] == rows[1..] + [r];
      AppendThenGetById(rows[1..], r);
    }
  }

  // ---------------------------------------------------------------------------
  // the table

  class CommentTable {
    var rows: seq<Comment>
    /** The next AUTO_INCREMENT value. */
    var nextId: nat

    ghost predicate Valid()
      reads this
    {
      && nextId >= 1
      && (forall i :: 0 <= i < |rows| ==> 1 <= rows[i].id < nextId)
      && IdsIncreasing(rows)
    }

    constructor ()
      ensures Valid() && rows == [] && nextId == 1
    {
      rows := [];
      nextId := 1;
    }

    /** `Comment.create(nombre, colonia, comentario)` at `now`: appends one row
        and returns its fields with `likes: 0`. */
    method Create(nombre: string, colonia: string, comentario: string, now: int) returns (c: Created)
      requires Valid()
      modifies this
      ensures Valid()
      ensures c == Created(old(nextId), nombre, colonia, comentario, 0)
      ensures rows == old(rows) + [NewRow(c.id, nombre, colonia, comentario, now)]
      ensures GetById(rows, c.id) == Some(NewRow(c.id, nombre, colonia, comentario, now))
    {
      var id := nextId;
      AppendThenGetById(rows, NewRow(id, nombre, colonia, comentario, now));
      rows := rows + [NewRow(id, nombre, colonia, comentario, now)];
      nextId := nextId + 1;
      c := Created(id, nombre, colonia, comentario, 0);
    }

    /** `Comment.getCount()`. */
    method GetCount() returns (total: nat)
      ensures total == |rows|
    {
      total := |rows|;
    }

    /** `Comment.incrementLikes(id)`: the update, then the row re-read by id. */
    method IncrementLikes(id: nat) returns (updated: Option<Comment>)
      requires Valid()
      modifies this
      ensures Valid() && nextId == old(nextId)
      ensures rows == LikesIncremented(old(rows), id)
      ensures updated == GetById(rows, id)
    {
      LikeKeepsIds(rows, id);
      rows := LikesIncremented(rows, id);
      updated := GetById(rows, id);
    }
  }
}
