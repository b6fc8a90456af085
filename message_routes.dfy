/** The group-chat routes (server/routes/messages.js): the upload allowlist,
    the validation and media classification of a new message, the reaction,
    typing and heartbeat requests, and the podcast lookup. Request fields are
    nullable strings; a field is present when it is truthy. Each handler is
    a method over the stores it touches, and whatever it decides before
    touching a store is a function. */
module MessageRoutes {
  import opened Common
  import opened MessageStore
  import opened ReactionStore
  import MultimediaBackfill
  import MultimediaAnalyzer
  import OrderedMap
  import TypingTracker
  import ActiveUsersTracker

  /** The file multer stored for the `media` field. */
  datatype UploadedFile = UploadedFile(filename: string, mimetype: string)

  /** The body of `POST /api/messages`, with the uploaded file if any. */
  datatype MessageRequest = MessageRequest(
    userName: Option<string>,
    userColonia: Option<string>,
    messageText: Option<string>,
    replyToId: Option<nat>,
    file: Option<UploadedFile>)

  // ---------------------------------------------------------------------------
  // uploads

  /** `fileFilter`: the twelve MIME types multer lets through. */
  predicate AllowedMime(m: string)
  {
    || m == "image/jpeg" || m == "image/jpg" || m == "image/png" || m == "image/gif" || m == "image/webp"
    || m == "audio/mpeg" || m == "audio/mp3" || m == "audio/wav" || m == "audio/ogg"
    || m == "video/mp4" || m == "video/webm" || m == "video/ogg"
  }

  /** The stored `media_type`: by MIME prefix, `'none'` without a file (or,
      for a file, with any other prefix). */
  function MediaTypeOf(file: Option<UploadedFile>): (t: string)
    ensures t == "none" || t == "image" || t == "audio" || t == "video"
    ensures file.None? ==> t == "none"
  {
    if file.None? then "none"
    else if StartsWith(file.value.mimetype, "image/") then "image"
    else if StartsWith(file.value.mimetype, "audio/") then "audio"
    else if StartsWith(file.value.mimetype, "video/") then "video"
    else "none"
  }

  /** Every type the filter accepts classifies as image, audio or video, so
      an accepted upload never gets `media_type = 'none'`. */
  lemma AllowedMimeHasMedia(f: UploadedFile)
    requires AllowedMime(f.mimetype)
    ensures MediaTypeOf(Some(f)) != "none"
    ensures MediaTypeOf(Some(f)) == "image" <==> f.mimetype[..6] == "image/"
  {
  }

  // ---------------------------------------------------------------------------
  // POST /api/messages

  /** The message `Message.create` receives for a request that passed validation. */
  function MessageFor(userName: string, userColonia: string, req: MessageRequest): NewMessage
  {
    NewMessage(
      userName, userColonia,
      if Truthy(req.messageText) then req.messageText.value else "",
      MediaTypeOf(req.file),
      if req.file.Some? then Some("/uploads/" + req.file.value.filename) else None,
      if req.file.Some? then Some(req.file.value.filename) else None,
      None,
      req.replyToId,
      false)
  }

  /** The `message` of the application's global error handler (server/server.js),
      which answers every error passed to `next`, such as the one the upload
      filter raises, with status 500. */
  const ServerErrorMessage: string := "Error interno del servidor"

  /** What `POST /api/messages` decides: a refused upload (the upload filter's
      error reaches the global error handler, status 500), 400 without name
      or colonia, 400 without text and file, else the message to create. */
  function PostMessageOutcome(req: MessageRequest): (r: Response<NewMessage>)
    ensures r.Failure? && r.status == 500 <==> req.file.Some? && !AllowedMime(req.file.value.mimetype)
    ensures r.Failure? && r.status == 500 ==> r.message == ServerErrorMessage
    ensures r.Failure? && r.status == 400 <==>
      (req.file.None? || AllowedMime(req.file.value.mimetype))
      && (!Truthy(req.userName) || !Truthy(req.userColonia) || (!Truthy(req.messageText) && req.file.None?))
    ensures r.Failure? && r.status == 400 ==>
      r.message == if !Truthy(req.userName) || !Truthy(req.userColonia) then "Se requiere nombre y colonia"
                   else "Se requiere texto o archivo multimedia"
    ensures r.Success? ==>
      var m := r.data;
      && Some(m.userName) == req.userName && Some(m.userColonia) == req.userColonia
      && m.messageText == (if Truthy(req.messageText) then req.messageText.value else "")
      && m.replyToId == req.replyToId && !m.isBot && m.mediaAnalysis.None?
      && (m.mediaUrl.Some? <==> req.file.Some?) && (m.mediaFilename.Some? <==> req.file.Some?)
  {
    if req.file.Some? && !AllowedMime(req.file.value.mimetype) then
      Failure(500, ServerErrorMessage)
    else if !Truthy(req.userName) || !Truthy(req.userColonia) then
      Failure(400, "Se requiere nombre y colonia")
    else if !Truthy(req.messageText) && req.file.None? then
      Failure(400, "Se requiere texto o archivo multimedia")
    else
      Success(MessageFor(req.userName.value, req.userColonia.value, req))
  }

  /** Every message the route accepts carries text or media, and a file is
      published under `/uploads/` with its stored name. */
  lemma AcceptedHasContent(req: MessageRequest)
    requires PostMessageOutcome(req).Success?
    ensures var m := PostMessageOutcome(req).data;
      && (m.messageText != "" || m.mediaType != "none")
      && (m.mediaType != "none" <==> req.file.Some?)
      && (req.file.Some? ==> m.mediaUrl == Some("/uploads/" + req.file.value.filename)
                             && m.mediaFilename == Some(req.file.value.filename))
  {
    if req.file.Some? {
      AllowedMimeHasMedia(req.file.value);
    }
  }

  /** An accepted upload is queued for the multimedia backfill, which reads it
      from the uploads directory under its stored name. */
  lemma UploadQueuedForAnalysis(req: MessageRequest, id: nat, now: int)
    requires PostMessageOutcome(req).Success? && req.file.Some?
    requires req.file.value.filename != "" && req.file.value.filename[0] != '/'
    ensures var row := NewRow(PostMessageOutcome(req).data, id, now);
      && MultimediaBackfill.NeedsAnalysis(row)
      && MultimediaBackfill.FileToAnalyze(row) == Some(req.file.value.filename)
      && MultimediaAnalyzer.Locate(req.file.value.filename).root == MultimediaAnalyzer.ServerUploads
  {
    AllowedMimeHasMedia(req.file.value);
  }

  /** The handler: validates, creates the row, and answers with `getById` of the new id. */
  method PostMessage(table: MessageTable, req: MessageRequest, now: int) returns (resp: Response<Row>)
    requires table.Valid()
    modifies table
    ensures table.Valid()
    ensures PostMessageOutcome(req).Failure? ==>
      && table.rows == old(table.rows) && table.nextId == old(table.nextId)
      && resp == Failure(PostMessageOutcome(req).status, PostMessageOutcome(req).message)
    ensures PostMessageOutcome(req).Success? ==>
      && table.rows == old(table.rows) + [NewRow(PostMessageOutcome(req).data, old(table.nextId), now)]
      && resp == Success(NewRow(PostMessageOutcome(req).data, old(table.nextId), now))
  {
    match PostMessageOutcome(req)
    case Failure(status, message) =>
      resp := Failure(status, message);
    case Success(m) =>
      var id := table.Create(m, now);
      var created := GetById(table.rows, id);
      resp := Success(created.value);
  }

  // ---------------------------------------------------------------------------
  // reactions

  /** `POST /:messageId/reactions`: 400 unless name, colonia and emoji are
      all present, then 404 for an unknown message; only then the upsert,
      answered with the message's groups. */
  method PostReaction(messages: seq<Row>, reactions: ReactionTable, messageId: nat,
                      userName: Option<string>, userColonia: Option<string>, emoji: Option<string>, now: int)
    returns (resp: Response<seq<EmojiGroup>>)
    requires reactions.Valid()
    modifies reactions
    ensures reactions.Valid()
    ensures !(Truthy(userName) && Truthy(userColonia) && Truthy(emoji)) ==>
      resp.Failure? && resp.status == 400 && reactions.rows == old(reactions.rows)
    ensures Truthy(userName) && Truthy(userColonia) && Truthy(emoji) && GetById(messages, messageId).None? ==>
      resp.Failure? && resp.status == 404 && reactions.rows == old(reactions.rows)
    ensures Truthy(userName) && Truthy(userColonia) && Truthy(emoji) && GetById(messages, messageId).Some? ==>
      && reactions.rows == Upsert(old(reactions.rows), messageId, userName.value, userColonia.value, emoji.value, now)
      && resp == Success(GetByMessage(reactions.rows, messageId))
  {
    if !Truthy(userName) || !Truthy(userColonia) || !Truthy(emoji) {
      return Failure(400, "Se requiere userName, userColonia y emoji");
    }
    if GetById(messages, messageId).None? {
      return Failure(404, "Mensaje no encontrado");
    }
    reactions.AddOrUpdate(messageId, userName.value, userColonia.value, emoji.value, now);
    resp := Success(GetByMessage(reactions.rows, messageId));
  }

  /** `DELETE /:messageId/reactions`: only the name is required. */
  method DeleteReaction(reactions: ReactionTable, messageId: nat, userName: Option<string>)
    returns (resp: Response<seq<EmojiGroup>>)
    requires reactions.Valid()
    modifies reactions
    ensures reactions.Valid()
    ensures !Truthy(userName) ==> resp.Failure? && resp.status == 400 && reactions.rows == old(reactions.rows)
    ensures Truthy(userName) ==>
      && reactions.rows == Removed(old(reactions.rows), messageId, userName.value)
      && resp == Success(GetByMessage(reactions.rows, messageId))
  {
    if !Truthy(userName) {
      return Failure(400, "Se requiere userName");
    }
    var _ := reactions.Remove(messageId, userName.value);
    resp := Success(GetByMessage(reactions.rows, messageId));
  }

  /** After a successful reaction POST the user's reaction reads back as the emoji sent. */
  lemma ReactThenRead(rs: seq<Reaction>, messageId: nat, userName: string, userColonia: string, emoji: string, now: int)
    requires KeysUnique(rs) && emoji != ""
    ensures GetUserReaction(Upsert(rs, messageId, userName, userColonia, emoji, now), messageId, userName) == Some(emoji)
  {
    UpsertSpec(rs, messageId, userName, userColonia, emoji, now);
  }

  /** After a reaction DELETE the user has no reaction on that message. */
  lemma RemoveThenRead(rs: seq<Reaction>, messageId: nat, userName: string)
    ensures GetUserReaction(Removed(rs, messageId, userName), messageId, userName).None?
  {
    var r := Removed(rs, messageId, userName);
    assert forall i :: 0 <= i < |r| ==> !SameKey(r[i], messageId, userName);
  }

  // ---------------------------------------------------------------------------
  // typing and presence

  /** `POST /typing/start`: both name and colonia are required. */
  method TypingStart(typing: TypingTracker.Registry, userName: Option<string>, userColonia: Option<string>, now: int)
    returns (resp: Response<string>)
    requires typing.Valid()
    modifies typing
    ensures typing.Valid()
    ensures !(Truthy(userName) && Truthy(userColonia)) ==> resp.Failure? && resp.status == 400 && typing.typing == old(typing.typing)
    ensures Truthy(userName) && Truthy(userColonia) ==>
      && resp.Success?
      && typing.typing == OrderedMap.Set(old(typing.typing), TypingTracker.TypingKey(userName.value, userColonia.value),
                                         TypingTracker.TypingEntry(userName.value, userColonia.value, now))
  {
    if !Truthy(userName) || !Truthy(userColonia) {
      return Failure(400, "Se requiere userName y userColonia");
    }
    typing.SetUserTyping(userName.value, userColonia.value, now);
    resp := Success("Estado de escritura actualizado");
  }

  /** `POST /typing/stop`: both name and colonia are required. */
  method TypingStop(typing: TypingTracker.Registry, userName: Option<string>, userColonia: Option<string>)
    returns (resp: Response<string>)
    requires typing.Valid()
    modifies typing
    ensures typing.Valid()
    ensures !(Truthy(userName) && Truthy(userColonia)) ==> resp.Failure? && resp.status == 400 && typing.typing == old(typing.typing)
    ensures Truthy(userName) && Truthy(userColonia) ==>
      && resp.Success?
      && typing.typing == OrderedMap.Delete(old(typing.typing), TypingTracker.TypingKey(userName.value, userColonia.value))
  {
    if !Truthy(userName) || !Truthy(userColonia) {
      return Failure(400, "Se requiere userName y userColonia");
    }
    typing.RemoveUserTyping(userName.value, userColonia.value);
    resp := Success("Estado de escritura removido");
  }

  /** `POST /active/heartbeat`: both name and colonia are required. */
  method Heartbeat(active: ActiveUsersTracker.Registry, userName: Option<string>, userColonia: Option<string>, now: int)
    returns (resp: Response<string>)
    requires active.Valid()
    modifies active
    ensures active.Valid()
    ensures !(Truthy(userName) && Truthy(userColonia)) ==> resp.Failure? && resp.status == 400 && active.active == old(active.active)
    ensures Truthy(userName) && Truthy(userColonia) ==>
      && resp.Success?
      && active.active == OrderedMap.Set(old(active.active), ActiveUsersTracker.ActiveKey(userName.value, userColonia.value), now)
  {
    if !Truthy(userName) || !Truthy(userColonia) {
      return Failure(400, "Se requiere userName y userColonia");
    }
    active.SetUserActive(userName.value, userColonia.value, now);
    resp := Success("Heartbeat registrado");
  }

  // ---------------------------------------------------------------------------
  // GET /podcast/id

  /** The podcast's own message: the audio posted as `Pozo Minerva` of `Información`. */
  predicate IsPodcast(r: Row)
  {
    r.userName == PodcastName && r.userColonia == PodcastColonia && r.mediaType == "audio"
  }

  const PodcastName: string := "Pozo Minerva"
  const PodcastColonia: string := "Información"

  /** `SELECT id ... ORDER BY created_at ASC LIMIT 1`: the oldest podcast
      message, or 404 when there is none. */
  function PodcastId(rows: seq<Row>): (r: Response<nat>)
    ensures r.Failure? <==> forall i :: 0 <= i < |rows| ==> !IsPodcast(rows[i])
    ensures r.Failure? ==> r.status == 404
    ensures r.Success? ==> exists i :: 0 <= i < |rows| && rows[i].id == r.data && IsPodcast(rows[i]) &&
                                       (forall j :: 0 <= j < |rows| && IsPodcast(rows[j]) ==> rows[i].createdAt <= rows[j].createdAt)
  {
    var found := ByCreated(Filter(rows, IsPodcast));
    NoneSelected(rows, IsPodcast);
    if found == [] then
      Failure(404, "No se encontró el mensaje del podcast")
    else
      FirstSelected(rows, IsPodcast, found);
      NoneSelectedOlder(rows, IsPodcast, found);
      Success(found[0].id)
  }

  /** A selection in ascending `created_at` is empty exactly when no row is selected. */
  lemma NoneSelected(rows: seq<Row>, p: Row -> bool)
    ensures ByCreated(Filter(rows, p)) == [] <==> forall i :: 0 <= i < |rows| ==> !p(rows[i])
  {
    var f := Filter(rows, p);
    if f != [] {
      assert f[0] in rows;
      var k :| 0 <= k < |rows| && rows[k] == f[0];
      assert p(rows[k]);
    }
  }

  /** Otherwise its first row is a selected row of the table ... */
  lemma FirstSelected(rows: seq<Row>, p: Row -> bool, found: seq<Row>)
    requires found == ByCreated(Filter(rows, p)) && found != []
    ensures found[0] in rows && p(found[0])
  {
    FirstOfSorted(Filter(rows, p), found);
    FilterMember(rows, p, found[0]);
  }

  lemma FirstOfSorted(f: seq<Row>, found: seq<Row>)
    requires found == ByCreated(f) && found != []
    ensures found[0] in f
  {
    assert found[0] in found;
  }

  /** ... and no selected row is older. */
  lemma NoneSelectedOlder(rows: seq<Row>, p: Row -> bool, found: seq<Row>)
    requires SortedBy(found, CreatedAt) && found != []
    requires forall j :: 0 <= j < |rows| && p(rows[j]) ==> rows[j] in found
    ensures forall j :: 0 <= j < |rows| && p(rows[j]) ==> found[0].createdAt <= rows[j].createdAt
  {
    forall j | 0 <= j < |rows| && p(rows[j]) ensures found[0].createdAt <= rows[j].createdAt {
      SortedFirstLeast(found, rows[j]);
    }
  }

  /** In a list sorted by `created_at` no element is older than the first. */
  lemma SortedFirstLeast(s: seq<Row>, x: Row)
    requires SortedBy(s, CreatedAt) && x in s
    ensures s[0].createdAt <= x.createdAt
  {
    var m :| 0 <= m < |s| && s[m] == x;
    if m > 0 {
      assert CreatedAt(s[0]) <= CreatedAt(s[m]);
    }
  }
}
