/** The PozoBot moderation cycle (server/services/botAnalyzer.js). Each
    cycle is one atomic step over the message table. The module-level busy
    flag, the 3-second reset timers the cycle schedules and the 30-second
    interval are fields of a class. The language model is a function from the
    cycle's message summary to a reply or an error. Clock times are
    milliseconds; the table's `NOW()` is the same instant in whole seconds. */
module BotAnalyzer {
  import opened Common
  import opened MessageStore

  /** Delay of the timer that clears the busy flag after a cycle. */
  const ResetDelay: int := 3000
  /** Period of `setInterval(analyzeRecentMessages, ...)`. */
  const CycleInterval: int := 30000
  /** The reply with which the model declines to answer. */
  const NoRespond: string := "NO_RESPONDER"
  const BotName: string := "PozoBot"
  const BotColonia: string := "Sistema"
  /** Stands in for the text of a message that only carries a file. */
  const MediaOnly: string := "[archivo multimedia]"

  /** What the chat-completion call gives back. `Err` covers a rejected
      request and a reply without content (whose `trim()` throws). */
  datatype Reply = Ok(content: string) | Err

  // ---------------------------------------------------------------------------
  // the summary sent to the model

  /** One summary line: `[name (colonia)]: text`, or the media placeholder
      for a message without text. */
  function SummaryLine(m: Row): string
  {
    "[" + m.userName + " (" + m.userColonia + ")]: " + (if m.messageText != "" then m.messageText else MediaOnly)
  }

  function SummaryLines(ms: seq<Row>): (r: seq<string>)
    ensures |r| == |ms|
    ensures forall i :: 0 <= i < |ms| ==> r[i] == SummaryLine(ms[i])
  {
    seq(|ms|, i requires 0 <= i < |ms| => SummaryLine(ms[i]))
  }

  /** `messages.map(...).join('\n')`. */
  function Summary(ms: seq<Row>): string
  {
    Join(SummaryLines(ms), '\n')
  }

  /** A message whose name, colonia and text hold no line break. */
  predicate SingleLine(m: Row)
  {
    '\n' !in m.userName && '\n' !in m.userColonia && '\n' !in m.messageText
  }

  /** The summary has exactly one line per message, in the order fetched,
      as long as no message spans several lines. */
  lemma SummaryOneLinePerMessage(ms: seq<Row>)
    requires ms != []
    requires forall i :: 0 <= i < |ms| ==> SingleLine(ms[i])
    ensures Split(Summary(ms), '\n') == SummaryLines(ms)
    ensures |Split(Summary(ms), '\n')| == |ms|
  {
    var lines := SummaryLines(ms);
    forall i | 0 <= i < |lines| ensures '\n' !in lines[i] {
      var m := ms[i];
      var t := if m.messageText != "" then m.messageText else MediaOnly;
      assert '\n' !in MediaOnly;
      assert lines[i] == "[" + m.userName + " (" + m.userColonia + ")]: " + t;
    }
    SplitJoin(lines, '\n');
  }

  // ---------------------------------------------------------------------------
  // one cycle, as a function of the state

  /** The text the bot posts for a reply, if it posts one: the trimmed
      content, unless it is empty or the `NO_RESPONDER` sentinel. */
  function BotText(reply: Reply): (r: Option<string>)
    ensures r.Some? <==> reply.Ok? && Trim(reply.content) != "" && Trim(reply.content) != NoRespond
    ensures r.Some? ==> r.value == Trim(reply.content) && IsTrimmed(r.value)
  {
    if reply.Err? then None
    else
      var text := Trim(reply.content);
      if text != NoRespond && |text| > 0 then Some(text) else None
  }

  /** The message the bot posts. */
  function BotMessage(text: string): NewMessage
  {
    NewMessage(BotName, BotColonia, text, "none", None, None, None, None, true)
  }

  /** How a cycle ends. */
  datatype Step =
    | Skipped                                   // busy: the cycle returned at once
    | NothingNew                                // no eligible message
    | ProviderFailed(fetched: seq<Row>)          // the model call threw
    | Answered(fetched: seq<Row>, text: Option<string>)  // marked; `text` is what was posted

  /** One `analyzeRecentMessages()` call at `nowMillis` on a table holding `rows`. */
  function Decide(busy: bool, rows: seq<Row>, nowMillis: int, provider: string -> Reply): (s: Step)
    ensures s.Skipped? <==> busy
    ensures s.NothingNew? <==> !busy && GetUnanalyzedRecent(rows, nowMillis / 1000) == []
    ensures (s.ProviderFailed? || s.Answered?) ==> s.fetched == GetUnanalyzedRecent(rows, nowMillis / 1000) && s.fetched != []
    ensures s.ProviderFailed? <==> !busy && s != NothingNew && provider(Summary(GetUnanalyzedRecent(rows, nowMillis / 1000))).Err?
    ensures s.Answered? ==> s.text == BotText(provider(Summary(s.fetched)))
  {
    if busy then Skipped
    else
      var fetched := GetUnanalyzedRecent(rows, nowMillis / 1000);
      if fetched == [] then NothingNew
      else
        var reply := provider(Summary(fetched));
        if reply.Err? then ProviderFailed(fetched) else Answered(fetched, BotText(reply))
  }

  function Ids(ms: seq<Row>): (r: seq<nat>)
    ensures |r| == |ms|
    ensures forall i :: 0 <= i < |ms| ==> r[i] == ms[i].id
  {
    seq(|ms|, i requires 0 <= i < |ms| => ms[i].id)
  }

  /** The table after a cycle that ended in `s`, when the next id is `nextId`. */
  function RowsAfter(rows: seq<Row>, nextId: nat, nowMillis: int, s: Step): seq<Row>
  {
    match s
    case Answered(fetched, text) =>
      var marked := MarkAnalyzed(rows, Ids(fetched));
      if text.Some? then marked + [NewRow(BotMessage(text.value), nextId, nowMillis / 1000)] else marked
    case _ => rows
  }

  /** A cycle that is skipped, finds nothing or whose model call fails writes nothing. */
  lemma NoAnswerNoWrite(rows: seq<Row>, nextId: nat, nowMillis: int, provider: string -> Reply, busy: bool)
    requires !Decide(busy, rows, nowMillis, provider).Answered?
    ensures RowsAfter(rows, nextId, nowMillis, Decide(busy, rows, nowMillis, provider)) == rows
  {
  }

  /** A cycle adds at most one row, and adds one exactly when the model's
      trimmed reply is neither empty nor `NO_RESPONDER`. */
  lemma AtMostOneMessage(rows: seq<Row>, nextId: nat, nowMillis: int, provider: string -> Reply, busy: bool)
    ensures var s := Decide(busy, rows, nowMillis, provider);
      var after := RowsAfter(rows, nextId, nowMillis, s);
      && |rows| <= |after| <= |rows| + 1
      && (|after| == |rows| + 1 <==>
            !busy && GetUnanalyzedRecent(rows, nowMillis / 1000) != []
            && BotText(provider(Summary(GetUnanalyzedRecent(rows, nowMillis / 1000)))).Some?)
  {
  }

  /** The row a cycle posts: PozoBot of `Sistema`, no media, no reply target,
      flagged as the bot's, with the trimmed reply as its text. */
  lemma PostedMessage(rows: seq<Row>, nextId: nat, nowMillis: int, provider: string -> Reply, busy: bool)
    requires var s := Decide(busy, rows, nowMillis, provider); s.Answered? && s.text.Some?
    ensures var s := Decide(busy, rows, nowMillis, provider);
      var r := RowsAfter(rows, nextId, nowMillis, s)[|rows|];
      && r.userName == BotName && r.userColonia == BotColonia
      && r.mediaType == "none" && r.mediaUrl.None? && r.mediaFilename.None?
      && r.replyToId.None? && r.isBot && !r.analyzedByBot
      && r.messageText == Trim(provider(Summary(s.fetched)).content)
      && r.messageText != "" && r.messageText != NoRespond
      && r.id == nextId && r.createdAt == nowMillis / 1000
  {
  }

  /** After an answered cycle, an old row is flagged exactly when it was
      fetched (or already flagged), and nothing else about it changes. */
  lemma MarksExactlyFetched(rows: seq<Row>, nextId: nat, nowMillis: int, provider: string -> Reply, busy: bool, i: nat)
    requires Decide(busy, rows, nowMillis, provider).Answered? && i < |rows|
    ensures var s := Decide(busy, rows, nowMillis, provider);
      var after := RowsAfter(rows, nextId, nowMillis, s);
      && after[i] == WithFlag(rows[i], after[i].analyzedByBot)
      && (after[i].analyzedByBot <==> rows[i].analyzedByBot || rows[i].id in Ids(s.fetched))
  {
  }

  /** After an answered cycle, no later cycle fetches the same messages again,
      nor the message the bot posted. */
  lemma AnsweredNotRefetched(rows: seq<Row>, nextId: nat, nowMillis: int, provider: string -> Reply, busy: bool, later: int)
    requires Decide(busy, rows, nowMillis, provider).Answered?
    ensures var s := Decide(busy, rows, nowMillis, provider);
      forall x :: x in GetUnanalyzedRecent(RowsAfter(rows, nextId, nowMillis, s), later) ==>
        x.id !in Ids(s.fetched) && x in rows
  {
    AnsweredStepNotRefetched(rows, nextId, nowMillis, Decide(busy, rows, nowMillis, provider), later);
  }

  lemma AnsweredStepNotRefetched(rows: seq<Row>, nextId: nat, nowMillis: int, s: Step, later: int)
    requires s.Answered?
    ensures forall x :: x in GetUnanalyzedRecent(RowsAfter(rows, nextId, nowMillis, s), later) ==>
      x.id !in Ids(s.fetched) && x in rows
  {
    var posted := if s.text.Some? then [NewRow(BotMessage(s.text.value), nextId, nowMillis / 1000)] else [];
    assert RowsAfter(rows, nextId, nowMillis, s) == MarkAnalyzed(rows, Ids(s.fetched)) + posted;
    MarkedNotRefetched(rows, Ids(s.fetched), posted, later);
  }

  /** Once the fetched ids are marked, only rows of the table that were not
      fetched are eligible again, whatever bot rows are added. */
  lemma MarkedNotRefetched(rows: seq<Row>, ids: seq<nat>, posted: seq<Row>, later: int)
    requires forall i :: 0 <= i < |posted| ==> posted[i].isBot
    ensures forall x :: x in GetUnanalyzedRecent(MarkAnalyzed(rows, ids) + posted, later) ==>
      x.id !in ids && x in rows
  {
    var marked := MarkAnalyzed(rows, ids);
    MarkAnalyzedRemovesFromEligible(rows, ids, later);
    forall x | x in GetUnanalyzedRecent(marked + posted, later)
      ensures x.id !in ids && x in rows
    {
      assert x in marked + posted && UnanalyzedRecentAt(x, later);
      assert x in marked;
      UnflaggedWasThere(rows, ids, x);
      assert x in GetUnanalyzedRecent(marked, later);
    }
  }

  /** A row that marking left unflagged is a row of the table before it. */
  lemma UnflaggedWasThere(rows: seq<Row>, ids: seq<nat>, x: Row)
    requires x in MarkAnalyzed(rows, ids) && !x.analyzedByBot
    ensures x in rows
  {
    var m := MarkAnalyzed(rows, ids);
    var k :| 0 <= k < |m| && m[k] == x;
    assert x == rows[k];
  }

  /** When the model call fails nothing is marked, so a fetched message is
      fetched again by any later cycle that still has it inside the window. */
  lemma FailedStaysEligible(rows: seq<Row>, nextId: nat, nowMillis: int, provider: string -> Reply, x: Row, later: int)
    requires Decide(false, rows, nowMillis, provider).ProviderFailed?
    requires x in Decide(false, rows, nowMillis, provider).fetched
    requires x.createdAt >= later / 1000 - UnanalyzedWindow
    ensures x in GetUnanalyzedRecent(RowsAfter(rows, nextId, nowMillis, Decide(false, rows, nowMillis, provider)), later / 1000)
  {
  }

  // ---------------------------------------------------------------------------
  // the reset timers and the interval

  predicate NotDue(now: int, due: int) { due > now }
  function NotDueAt(now: int): int -> bool { (due: int) => NotDue(now, due) }

  /** The resets still pending at `now`. */
  function Pending(resets: seq<int>, now: int): (r: seq<int>)
    ensures forall i :: 0 <= i < |r| ==> r[i] > now
    ensures forall i :: 0 <= i < |resets| && resets[i] > now ==> resets[i] in r
  {
    Filter(resets, NotDueAt(now))
  }

  /** The flag after the clock reaches `now`: cleared once any reset is due. */
  predicate FlagAt(busy: bool, resets: seq<int>, now: int)
  {
    busy && forall i :: 0 <= i < |resets| ==> resets[i] > now
  }

  /** A cycle that got past the busy check clears the flag 3000 ms after it ran. */
  lemma ResetClearsFlag(busy: bool, resets: seq<int>, t: int, now: int)
    requires now >= t + ResetDelay
    ensures !FlagAt(busy, resets + [t + ResetDelay], now)
  {
    assert (resets + [t + ResetDelay])[|resets|] == t + ResetDelay;
  }

  /** The times of the first `n` cycles after `startBotAnalyzer()` at `start`. */
  function CycleTimes(start: int, n: nat): (r: seq<int>)
    ensures |r| == n
  {
    if n == 0 then [] else CycleTimes(start, n - 1) + [start + (n - 1) * CycleInterval]
  }

  /** The first cycle runs at once, and each later one 30000 ms after the previous. */
  lemma {:induction false} CycleTimesSpaced(start: int, n: nat)
    ensures n >= 1 ==> CycleTimes(start, n)[0] == start
    ensures forall k :: 0 <= k < n - 1 ==> CycleTimes(start, n)[k + 1] == CycleTimes(start, n)[k] + CycleInterval
  {
    if n >= 2 {
      CycleTimesSpaced(start, n - 1);
      var p := CycleTimes(start, n - 1);
      assert CycleTimes(start, n) == p + [start + (n - 1) * CycleInterval];
      assert p[n - 2] == start + (n - 2) * CycleInterval by {
        CycleTimesAt(start, n - 1, n - 2);
      }
    }
  }

  lemma {:induction false} CycleTimesAt(start: int, n: nat, k: nat)
    requires k < n
    ensures CycleTimes(start, n)[k] == start + k * CycleInterval
  {
    if k < n - 1 {
      CycleTimesAt(start, n - 1, k);
    }
  }

  // ---------------------------------------------------------------------------
  // the analyzer's state

  class Analyzer {
    /** `isAnalyzing`. */
    var isAnalyzing: bool
    /** Due times of the `setTimeout(..., 3000)` resets not yet fired. */
    var resets: seq<int>
    /** When `setInterval` fires next. */
    var nextCycleAt: int
    /** When `startBotAnalyzer()` ran, and the times of the cycles since. */
    ghost var startedAt: int
    ghost var cycles: seq<int>

    /** A set flag always has a reset pending, so it never stays set. */
    ghost predicate Valid()
      reads this
    {
      isAnalyzing ==> resets != []
    }

    /** The cycles so far are the first ones of the schedule that starts at
        `startedAt`, and the interval fires next at the one after them. */
    ghost predicate OnSchedule()
      reads this
    {
      cycles == CycleTimes(startedAt, |cycles|) && nextCycleAt == startedAt + |cycles| * CycleInterval
    }

    constructor ()
      ensures Valid() && !isAnalyzing && resets == [] && cycles == []
    {
      isAnalyzing := false;
      resets := [];
      nextCycleAt := 0;
      startedAt := 0;
      cycles := [];
    }

    /** `isBotTyping()`. */
    function IsBotTyping(): (b: bool)
      reads this
      ensures b == isAnalyzing
    {
      isAnalyzing
    }

    /** Lets the clock reach `now`: every reset due by then fires. */
    method AdvanceTo(now: int)
      requires Valid()
      modifies this
      ensures Valid()
      ensures isAnalyzing == FlagAt(old(isAnalyzing), old(resets), now)
      ensures resets == Pending(old(resets), now) && nextCycleAt == old(nextCycleAt)
      ensures startedAt == old(startedAt) && cycles == old(cycles)
    {
      var left := Pending(resets, now);
      isAnalyzing := FlagAt(isAnalyzing, resets, now);
      resets := left;
    }

    /** `analyzeRecentMessages()` at `nowMillis`. */
    method AnalyzeRecentMessages(table: MessageTable, nowMillis: int, provider: string -> Reply)
      returns (step: Step)
      requires Valid() && table.Valid()
      modifies this, table
      ensures Valid() && table.Valid()
      ensures step == Decide(old(isAnalyzing), old(table.rows), nowMillis, provider)
      ensures isAnalyzing == (old(isAnalyzing) || step.ProviderFailed? || step.Answered?)
      ensures resets == old(resets) + (if step.Skipped? then [] else [nowMillis + ResetDelay])
      ensures table.rows == RowsAfter(old(table.rows), old(table.nextId), nowMillis, step)
      ensures step.Answered? && step.text.Some? ==> table.nextId == old(table.nextId) + 1
      ensures !(step.Answered? && step.text.Some?) ==> table.nextId == old(table.nextId)
      ensures nextCycleAt == old(nextCycleAt) && startedAt == old(startedAt) && cycles == old(cycles)
    {
      if isAnalyzing {
        return Skipped;
      }
      var messages := GetUnanalyzedRecent(table.rows, nowMillis / 1000);
      if messages == [] {
        step := NothingNew;
      } else {
        isAnalyzing := true;
        var reply := provider(Summary(messages));
        if reply.Err? {
          step := ProviderFailed(messages);
        } else {
          table.MarkAsAnalyzed(Some(Ids(messages)));
          var text := BotText(reply);
          if text.Some? {
            var _ := table.Create(BotMessage(text.value), nowMillis / 1000);
          }
          step := Answered(messages, text);
        }
      }
      resets := resets + [nowMillis + ResetDelay];
    }

    /** `startBotAnalyzer()` at `now`: one cycle at once, then the interval. */
    method Start(table: MessageTable, now: int, provider: string -> Reply) returns (step: Step)
      requires Valid() && table.Valid()
      modifies this, table
      ensures Valid() && table.Valid()
      ensures step == Decide(old(isAnalyzing), old(table.rows), now, provider)
      ensures table.rows == RowsAfter(old(table.rows), old(table.nextId), now, step)
      ensures nextCycleAt == now + CycleInterval
      ensures startedAt == now && cycles == [now] && OnSchedule()
    {
      step := AnalyzeRecentMessages(table, now, provider);
      nextCycleAt := now + CycleInterval;
      startedAt := now;
      cycles := [now];
    }

    /** The interval fires at `nextCycleAt`: due resets first, then a cycle. */
    method IntervalTick(table: MessageTable, provider: string -> Reply) returns (step: Step)
      requires Valid() && table.Valid() && OnSchedule()
      modifies this, table
      ensures Valid() && table.Valid() && OnSchedule()
      ensures startedAt == old(startedAt) && cycles == old(cycles) + [old(nextCycleAt)]
      ensures forall k :: 0 <= k < |cycles| ==> cycles[k] == startedAt + k * CycleInterval
      ensures step == Decide(FlagAt(old(isAnalyzing), old(resets), old(nextCycleAt)), old(table.rows), old(nextCycleAt), provider)
      ensures table.rows == RowsAfter(old(table.rows), old(table.nextId), old(nextCycleAt), step)
      ensures nextCycleAt == old(nextCycleAt) + CycleInterval
    {
      var now := nextCycleAt;
      AdvanceTo(now);
      step := AnalyzeRecentMessages(table, now, provider);
      nextCycleAt := now + CycleInterval;
      cycles := cycles + [now];
      forall k | 0 <= k < |cycles| ensures cycles[k] == startedAt + k * CycleInterval {
        CycleTimesAt(startedAt, |cycles|, k);
      }
    }
  }
}
