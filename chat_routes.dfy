/** The FAQ chatbot routes (server/routes/chat.js): request validation, the
    per-session question limit, the counter increment before the model is
    asked, and the remaining-questions arithmetic of the answer and of the
    status route. The model call is a function of the question. */
module ChatRoutes {
  import opened Common
  import opened ChatSessionStore

  /** `CHAT_MESSAGE_LIMIT` when it is unset or not a number. */
  const FallbackLimit: int := 5
  /** A question must have at least this many characters. */
  const MinQuestionLength: nat := 3

  /** `parseInt(process.env.CHAT_MESSAGE_LIMIT) || 5`: `parsed` is the value of
      `parseInt`, `None` for `NaN`; `NaN` and `0` both fall back to 5. */
  function MessageLimit(parsed: Option<int>): (limit: int)
    ensures limit != 0
    ensures parsed.Some? && parsed.value != 0 ==> limit == parsed.value
    ensures parsed.None? || parsed.value == 0 ==> limit == FallbackLimit
  {
    if parsed.None? || parsed.value == 0 then FallbackLimit else parsed.value
  }

  /** What the chat-completion call gives back: the first choice's message
      content (`None` for `null`, which the route passes on as it is), or an
      error with the HTTP status the route passes on (500 when the error has
      no response). */
  datatype ProviderReply = Completed(content: Option<string>) | Failed(status: nat)

  datatype ChatResponse =
    | Answered(response: Option<string>, messagesRemaining: int)   // `response: null` is `None`
    | BadRequest(message: string)
    | LimitReached(limit: int)          // 429, `limitReached: true`
    | ProviderError(status: nat)

  /** The two 400 checks, in order. */
  function Validate(message: Option<string>, sessionId: Option<string>): (r: Option<string>)
    ensures r.None? <==> Truthy(message) && Truthy(sessionId) && |message.value| >= MinQuestionLength
  {
    if !Truthy(message) || !Truthy(sessionId) then Some("Se requiere mensaje y sessionId")
    else if |message.value| < MinQuestionLength then Some("El mensaje es demasiado corto")
    else None
  }

  /** `POST /api/chat` at `now` on a table holding `rows`: the new table and the reply. */
  function Chat(rows: seq<Session>, message: Option<string>, sessionId: Option<string>, limit: int, now: int,
                provider: string -> ProviderReply): (seq<Session>, ChatResponse)
  {
    match Validate(message, sessionId)
    case Some(m) => (rows, BadRequest(m))
    case None =>
      var id := sessionId.value;
      var check := HasReachedLimit(rows, id, now, limit);
      if check.1 then (check.0, LimitReached(limit))
      else Counted(Incremented(check.0, id), id, now, limit, provider(message.value))
  }

  /** The rest of a request that passed the limit check, on the table after
      the increment, once the model has replied. */
  function Counted(counted: seq<Session>, id: string, now: int, limit: int, reply: ProviderReply): (seq<Session>, ChatResponse)
  {
    match reply
    case Failed(status) => (counted, ProviderError(status))
    case Completed(content) =>
      var r := GetOrCreate(counted, id, now);
      (r.0, Answered(content, limit - r.1.messageCount))
  }

  /** An invalid request is answered 400 and touches no counter. */
  lemma InvalidChangesNothing(rows: seq<Session>, message: Option<string>, sessionId: Option<string>, limit: int, now: int,
                              provider: string -> ProviderReply)
    requires Validate(message, sessionId).Some?
    ensures Chat(rows, message, sessionId, limit, now, provider) == (rows, BadRequest(Validate(message, sessionId).value))
  {
  }

  /** A valid request is answered 429 exactly when the session `getOrCreate`
      returned is at the limit; then no count is raised: the table keeps its
      rows and gains at most the fresh row of the check. */
  lemma OverLimitNotCounted(rows: seq<Session>, message: Option<string>, sessionId: Option<string>, limit: int, now: int,
                            provider: string -> ProviderReply)
    requires Validate(message, sessionId).None?
    ensures var r := Chat(rows, message, sessionId, limit, now, provider);
      var c := GetOrCreate(rows, sessionId.value, now);
      && (r.1.LimitReached? <==> c.1.messageCount >= limit)
      && (r.1.LimitReached? ==> r.0 == c.0 && |rows| <= |r.0| <= |rows| + 1 && r.0[..|rows|] == rows)
  {
    GetOrCreateSpec(rows, sessionId.value, now);
  }

  /** Past the limit check the question counts exactly once, before the model
      is asked, so a failing model call still uses up a question: every row
      of the id goes up by one, and the live session, which the check left in
      the table, is found one question further on. */
  lemma CountedOnce(rows: seq<Session>, message: Option<string>, sessionId: Option<string>, limit: int, now: int,
                    provider: string -> ProviderReply)
    requires Validate(message, sessionId).None?
    requires !HasReachedLimit(rows, sessionId.value, now, limit).1
    ensures var r := Chat(rows, message, sessionId, limit, now, provider);
      var id := sessionId.value;
      && r.0 == Incremented(GetOrCreate(rows, id, now).0, id)
      && FirstLive(r.0, id, now) == Some(Bumped(GetOrCreateIntended(rows, id, now).1))
  {
    var id := sessionId.value;
    IncrementedFound(rows, id, now);
    var counted := Incremented(GetOrCreate(rows, id, now).0, id);
    assert Chat(rows, message, sessionId, limit, now, provider) == Counted(counted, id, now, limit, provider(message.value));
  }

  /** Past the limit check, a failed model call is answered with the status
      the route passes on, and any completion, `null` content included, is
      answered 200 with that content as it is. */
  lemma ReplyPassedOn(rows: seq<Session>, message: Option<string>, sessionId: Option<string>, limit: int, now: int,
                      provider: string -> ProviderReply)
    requires Validate(message, sessionId).None?
    requires !HasReachedLimit(rows, sessionId.value, now, limit).1
    ensures var r := Chat(rows, message, sessionId, limit, now, provider).1;
      var reply := provider(message.value);
      && (reply.Failed? ==> r == ProviderError(reply.status))
      && (reply.Completed? ==> r.Answered? && r.response == reply.content)
  {
  }

  /** After the check and the increment, the re-read finds the live session
      the check left in the table, one question further on, and writes nothing. */
  lemma IncrementedFound(rows: seq<Session>, id: string, now: int)
    ensures var counted := Incremented(GetOrCreate(rows, id, now).0, id);
      var live := GetOrCreateIntended(rows, id, now).1;
      && FirstLive(counted, id, now) == Some(Bumped(live))
      && GetOrCreate(counted, id, now) == (counted, Bumped(live))
  {
    var c := GetOrCreate(rows, id, now);
    GetOrCreateStable(rows, id, now);
    IncrementedLive(c.0, id, now);
  }

  /** The answer reports the limit minus the live session's count after the
      increment, which lies between 0 and the limit: one less than what the
      check saw when the check saw the live session, and the limit minus one
      when the check saw an expired row and a fresh row took its place. */
  lemma RemainingAfterIncrement(rows: seq<Session>, message: Option<string>, sessionId: Option<string>, limit: int, now: int,
                                provider: string -> ProviderReply)
    requires Validate(message, sessionId).None?
    requires Chat(rows, message, sessionId, limit, now, provider).1.Answered?
    ensures var id := sessionId.value;
      var live := GetOrCreateIntended(rows, id, now).1;
      var checked := GetOrCreate(rows, id, now).1;
      var rem := Chat(rows, message, sessionId, limit, now, provider).1.messagesRemaining;
      && rem == limit - (live.messageCount + 1)
      && 0 <= rem < limit
      && (LiveAt(checked, id, now) ==> rem == limit - (checked.messageCount + 1))
      && (!LiveAt(checked, id, now) ==> rem == limit - 1)
  {
    var id := sessionId.value;
    var c := GetOrCreate(rows, id, now);
    var live := GetOrCreateIntended(rows, id, now).1;
    var counted := Incremented(c.0, id);
    IncrementedFound(rows, id, now);
    GetOrCreateStable(rows, id, now);
    GetOrCreateSpec(rows, id, now);
    var check := HasReachedLimit(rows, id, now, limit);
    assert !check.1;
    assert check.0 == c.0;
    var reply := provider(message.value);
    assert Chat(rows, message, sessionId, limit, now, provider) == Counted(counted, id, now, limit, reply);
    assert c.1.messageCount < limit;
    assert !LiveAt(c.1, id, now) ==> live == FreshSession(id, now);
  }

  /** A used-up session whose expired row was never cleaned up: the first
      request after the expiry is refused 429, although the intended check
      would let it through, and it leaves a fresh row behind, so the next
      request is answered. */
  lemma ExpiredSessionRefusedOnce()
    ensures var rows := [Session("s", 5, Some(0))];
      var provider := (q: string) => Completed(Some("ok"));
      var first := Chat(rows, Some("hola"), Some("s"), 5, 1, provider);
      && first == (rows + [FreshSession("s", 1)], LimitReached(5))
      && GetOrCreateIntended(rows, "s", 1).1.messageCount < 5
      && Chat(first.0, Some("hola"), Some("s"), 5, 1, provider).1 == Answered(Some("ok"), 4)
  {
    var rows := [Session("s", 5, Some(0))];
    AsWrittenReturnsExpired();
    var next := rows + [FreshSession("s", 1)];
    assert FirstLive(rows, "s", 1).None?;
    assert FirstLive(next, "s", 1) == Some(FreshSession("s", 1));
    IncrementedLive(next, "s", 1);
  }

  /** The `data` of `GET /status/:sessionId`. */
  datatype Status = Status(messagesUsed: nat, messagesRemaining: int, limitReached: bool)

  /** `GET /status/:sessionId` at `now`: the new table and the status. */
  function SessionStatus(rows: seq<Session>, id: string, now: int, limit: int): (seq<Session>, Status)
  {
    var r := GetOrCreate(rows, id, now);
    (r.0, Status(r.1.messageCount, limit - r.1.messageCount, r.1.messageCount >= limit))
  }

  /** Used plus remaining is the limit, the limit is reached exactly when
      nothing remains, and the status and its write agree with the check
      `POST` makes, expired row included. */
  lemma StatusConsistent(rows: seq<Session>, id: string, now: int, limit: int)
    ensures var after := SessionStatus(rows, id, now, limit).0;
      var st := SessionStatus(rows, id, now, limit).1;
      && st.messagesUsed + st.messagesRemaining == limit
      && (st.limitReached <==> st.messagesRemaining <= 0)
      && st.limitReached == HasReachedLimit(rows, id, now, limit).1
      && after == HasReachedLimit(rows, id, now, limit).0
  {
  }

  /** The handler of `POST /api/chat`. */
  method PostChat(table: SessionTable, message: Option<string>, sessionId: Option<string>, limit: int, now: int,
                  provider: string -> ProviderReply) returns (resp: ChatResponse)
    modifies table
    ensures (table.rows, resp) == Chat(old(table.rows), message, sessionId, limit, now, provider)
  {
    var invalid := Validate(message, sessionId);
    if invalid.Some? {
      return BadRequest(invalid.value);
    }
    var id := sessionId.value;
    ghost var rows0 := table.rows;
    var reached := table.HasReachedLimitAt(id, now, limit);
    if reached {
      assert Chat(rows0, message, sessionId, limit, now, provider) == (table.rows, LimitReached(limit));
      return LimitReached(limit);
    }
    var _ := table.IncrementMessageCount(id);
    var reply := provider(message.value);
    assert Chat(rows0, message, sessionId, limit, now, provider) == Counted(table.rows, id, now, limit, reply);
    resp := Reply(table, id, now, limit, reply);
  }

  /** The end of the handler, past the increment, once the model has replied. */
  method Reply(table: SessionTable, id: string, now: int, limit: int, reply: ProviderReply) returns (resp: ChatResponse)
    modifies table
    ensures (table.rows, resp) == Counted(old(table.rows), id, now, limit, reply)
  {
    if reply.Failed? {
      return ProviderError(reply.status);
    }
    var session := table.GetOrCreateSession(id, now);
    resp := Answered(reply.content, limit - session.messageCount);
  }

  /** The handler of `GET /api/chat/status/:sessionId`. */
  method GetStatus(table: SessionTable, id: string, now: int, limit: int) returns (st: Status)
    modifies table
    ensures (table.rows, st) == SessionStatus(old(table.rows), id, now, limit)
  {
    var s := table.GetOrCreateSession(id, now);
    st := Status(s.messageCount, limit - s.messageCount, s.messageCount >= limit);
  }
}
