/** The start-up backfill (server/services/ensureMultimediaAnalysis.js):
    every media message still lacking an analysis is sent through the
    analyzer, oldest first, and each result is written into its row. Whether
    the selecting query and each row's `UPDATE` succeed are parameters. */
module MultimediaBackfill {
  import opened Common
  import opened MessageStore
  import opened MultimediaAnalyzer

  /** The `WHERE` clause: media present, analysis `NULL` or `''`. */
  predicate NeedsAnalysis(r: Row)
  {
    r.mediaType != "none" && (r.mediaAnalysis.None? || r.mediaAnalysis == Some(""))
  }

  function RowId(r: Row): nat { r.id }

  /** The selected rows, in ascending `created_at`. */
  function Pending(rows: seq<Row>): seq<Row>
  {
    ByCreated(Filter(rows, NeedsAnalysis))
  }

  /** The selection is exactly the rows needing analysis, oldest first, with
      no id twice. */
  lemma PendingSpec(rows: seq<Row>)
    ensures SortedBy(Pending(rows), CreatedAt)
    ensures forall x :: x in Pending(rows) <==> x in rows && NeedsAnalysis(x)
    ensures IdsIncreasing(rows) ==> DistinctBy(Pending(rows), RowId)
  {
    var f := Filter(rows, NeedsAnalysis);
    forall x | x in f ensures x in rows && NeedsAnalysis(x) {
      var i :| 0 <= i < |f| && f[i] == x;
    }
    if IdsIncreasing(rows) {
      assert DistinctBy(rows, RowId);
      FilterDistinctBy(rows, NeedsAnalysis, RowId);
      DistinctBySorted(f, CreatedAt, RowId);
    }
  }

  /** `row.media_filename || row.media_url`. */
  function FileToAnalyze(r: Row): (f: Option<string>)
    ensures Truthy(r.mediaFilename) ==> f == r.mediaFilename
    ensures !Truthy(r.mediaFilename) ==> f == r.mediaUrl
  {
    OrElse(r.mediaFilename, r.mediaUrl)
  }

  function AnalysisFor(r: Row, fileExists: MediaFile -> bool, gemini: GeminiRequest -> Option<string>): string
  {
    AnalyzeMultimedia(FileToAnalyze(r), r.mediaType, fileExists, gemini)
  }

  /** The table after processing `pending` in order; a row whose update
      fails is skipped and the loop goes on. */
  function Backfilled(rows: seq<Row>, pending: seq<Row>, updateOk: nat -> bool,
                      fileExists: MediaFile -> bool, gemini: GeminiRequest -> Option<string>): (r: seq<Row>)
    ensures |r| == |rows|
    decreases |pending|
  {
    if pending == [] then rows
    else
      var p := pending[0];
      var next := if updateOk(p.id) then SetAnalysis(rows, p.id, AnalysisFor(p, fileExists, gemini)) else rows;
      Backfilled(next, pending[1..], updateOk, fileExists, gemini)
  }

  /** Only `media_analysis` is ever written, and a row whose id is not among
      the processed ones is left exactly as it was. */
  lemma {:induction false} BackfilledFrame(rows: seq<Row>, pending: seq<Row>, updateOk: nat -> bool,
                                           fileExists: MediaFile -> bool, gemini: GeminiRequest -> Option<string>)
    ensures var r := Backfilled(rows, pending, updateOk, fileExists, gemini);
      && |r| == |rows|
      && (forall i :: 0 <= i < |rows| ==> r[i] == WithAnalysis(rows[i], r[i].mediaAnalysis))
      && (forall i :: 0 <= i < |rows| && (forall k :: 0 <= k < |pending| ==> pending[k].id != rows[i].id) ==> r[i] == rows[i])
    decreases |pending|
  {
    if pending != [] {
      var p := pending[0];
      var next := if updateOk(p.id) then SetAnalysis(rows, p.id, AnalysisFor(p, fileExists, gemini)) else rows;
      BackfilledFrame(next, pending[1..], updateOk, fileExists, gemini);
      var r := Backfilled(rows, pending, updateOk, fileExists, gemini);
      forall i | 0 <= i < |rows| && (forall k :: 0 <= k < |pending| ==> pending[k].id != rows[i].id)
        ensures r[i] == rows[i]
      {
        assert pending[0].id != rows[i].id;
        forall k | 0 <= k < |pending[1..]| ensures pending[1..][k].id != next[i].id {
          assert pending[1..][k] == pending[k + 1];
        }
      }
    }
  }

  /** A processed row ends up holding the analyzer's answer for it when its
      update succeeded, and its old analysis otherwise. */
  lemma {:induction false} BackfilledAt(rows: seq<Row>, pending: seq<Row>, updateOk: nat -> bool,
                                        fileExists: MediaFile -> bool, gemini: GeminiRequest -> Option<string>,
                                        i: nat, k: nat)
    requires DistinctBy(pending, RowId)
    requires i < |rows| && k < |pending| && pending[k].id == rows[i].id
    ensures Backfilled(rows, pending, updateOk, fileExists, gemini)[i].mediaAnalysis ==
      if updateOk(rows[i].id) then Some(AnalysisFor(pending[k], fileExists, gemini)) else rows[i].mediaAnalysis
    decreases |pending|
  {
    BackfilledFrame(rows, pending, updateOk, fileExists, gemini);
    var p := pending[0];
    var next := if updateOk(p.id) then SetAnalysis(rows, p.id, AnalysisFor(p, fileExists, gemini)) else rows;
    var tail := pending[1..];
    BackfilledFrame(next, tail, updateOk, fileExists, gemini);
    if k == 0 {
      forall t | 0 <= t < |tail| ensures tail[t].id != next[i].id {
        assert tail[t] == pending[t + 1];
        assert RowId(pending[0]) != RowId(pending[t + 1]);
      }
    } else {
      assert p.id != rows[i].id by {
        assert RowId(pending[0]) != RowId(pending[k]);
      }
      assert DistinctBy(tail, RowId) by {
        forall a, b | 0 <= a < b < |tail| ensures RowId(tail[a]) != RowId(tail[b]) {
          assert tail[a] == pending[a + 1] && tail[b] == pending[b + 1];
        }
      }
      assert tail[k - 1] == pending[k];
      BackfilledAt(next, tail, updateOk, fileExists, gemini, i, k - 1);
    }
  }

  /** With nothing selected the table is unchanged. */
  lemma NothingPendingNothingWritten(rows: seq<Row>, updateOk: nat -> bool,
                                     fileExists: MediaFile -> bool, gemini: GeminiRequest -> Option<string>)
    requires forall i :: 0 <= i < |rows| ==> !NeedsAnalysis(rows[i])
    ensures Backfilled(rows, Pending(rows), updateOk, fileExists, gemini) == rows
  {
    FilterNone(rows, NeedsAnalysis);
    assert |Pending(rows)| == 0;
  }

  /** After a backfill in which every update succeeded, every selected row
      holds the analyzer's answer for its own file. */
  lemma BackfillClearsPending(rows: seq<Row>, fileExists: MediaFile -> bool, gemini: GeminiRequest -> Option<string>, i: nat)
    requires IdsIncreasing(rows) && i < |rows| && NeedsAnalysis(rows[i])
    ensures var r := Backfilled(rows, Pending(rows), _ => true, fileExists, gemini);
      r[i].mediaAnalysis == Some(AnalysisFor(rows[i], fileExists, gemini))
  {
    var pending := Pending(rows);
    PendingSpec(rows);
    assert rows[i] in pending;
    var k :| 0 <= k < |pending| && pending[k] == rows[i];
    BackfilledAt(rows, pending, _ => true, fileExists, gemini, i, k);
  }

  /** One iteration of the loop: process the row at `i`, then the rest. */
  lemma BackfillStep(rows: seq<Row>, pending: seq<Row>, i: nat, updateOk: nat -> bool,
                     fileExists: MediaFile -> bool, gemini: GeminiRequest -> Option<string>)
    requires i < |pending|
    ensures var p := pending[i];
      var next := if updateOk(p.id) then SetAnalysis(rows, p.id, AnalyzeMultimedia(OrElse(p.mediaFilename, p.mediaUrl), p.mediaType, fileExists, gemini)) else rows;
      Backfilled(next, pending[i + 1..], updateOk, fileExists, gemini) == Backfilled(rows, pending[i..], updateOk, fileExists, gemini)
  {
    assert pending[i..][1..] == pending[i + 1..];
  }

  /** `ensureMultimediaAnalysis` over the message table. `selectOk` says
      whether the selecting query succeeds (its failure is logged and
      swallowed), `updateOk` whether the `UPDATE` for a given row does. */
  method EnsureMultimediaAnalysis(table: MessageTable, selectOk: bool, updateOk: nat -> bool,
                                  fileExists: MediaFile -> bool, gemini: GeminiRequest -> Option<string>)
    requires table.Valid()
    modifies table
    ensures table.Valid() && table.nextId == old(table.nextId)
    ensures table.rows == if selectOk then Backfilled(old(table.rows), Pending(old(table.rows)), updateOk, fileExists, gemini)
                          else old(table.rows)
  {
    if !selectOk {
      return;
    }
    var pending := Pending(table.rows);
    if |pending| == 0 {
      return;
    }
    ghost var goal := Backfilled(table.rows, pending, updateOk, fileExists, gemini);
    assert pending[0..] == pending;
    var i := 0;
    while i < |pending|
      invariant 0 <= i <= |pending|
      invariant table.Valid() && table.nextId == old(table.nextId)
      invariant Backfilled(table.rows, pending[i..], updateOk, fileExists, gemini) == goal
    {
      BackfillStep(table.rows, pending, i, updateOk, fileExists, gemini);
      ProcessRow(table, pending[i], updateOk, fileExists, gemini);
      i := i + 1;
    }
  }

  /** The body of the loop for one selected row: analyze its file, then write
      the answer, which fails when `updateOk` says so. */
  method ProcessRow(table: MessageTable, row: Row, updateOk: nat -> bool,
                    fileExists: MediaFile -> bool, gemini: GeminiRequest -> Option<string>)
    requires table.Valid()
    modifies table
    ensures table.Valid() && table.nextId == old(table.nextId)
    ensures table.rows == if updateOk(row.id) then SetAnalysis(old(table.rows), row.id, AnalysisFor(row, fileExists, gemini))
                          else old(table.rows)
  {
    var fileName := OrElse(row.mediaFilename, row.mediaUrl);
    var analysis := AnalyzeMultimedia(fileName, row.mediaType, fileExists, gemini);
    if updateOk(row.id) {
      table.SetMediaAnalysis(row.id, analysis);
    }
  }
}
