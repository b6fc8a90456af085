/** The comment board routes (server/routes/comments.js): the pagination
    defaults and `hasMore` of the list, the field checks of a new comment in
    their order, and the existence check before a like. */
module CommentRoutes {
  import opened Common
  import opened CommentStore

  /** `nombre` may have at most this many characters. */
  const MaxNombreLength: nat := 100
  /** `comentario` must have at least this many characters. */
  const MinComentarioLength: nat := 10
  /** The status of a successful create. */
  const CreatedStatus: nat := 201

  const MissingField: string := "Todos los campos son requeridos (nombre, colonia, comentario)"
  const NombreTooLong: string := "El nombre no puede exceder 100 caracteres"
  const ComentarioTooShort: string := "El comentario debe tener al menos 10 caracteres"
  const NotFound: string := "Comentario no encontrado"

  // ---------------------------------------------------------------------------
  // GET /api/comments

  /** `parseInt(req.query.limit) || 50`: `parsed` is the value of `parseInt`,
      `None` for `NaN`; `NaN` and `0` both fall back to 50. */
  function PageLimit(parsed: Option<int>): (limit: int)
    ensures limit != 0
    ensures parsed.Some? && parsed.value != 0 ==> limit == parsed.value
    ensures parsed.None? || parsed.value == 0 ==> limit == DefaultLimit
  {
    if parsed.None? || parsed.value == 0 then DefaultLimit else parsed.value
  }

  /** `parseInt(req.query.offset) || 0`. */
  function PageOffset(parsed: Option<int>): (offset: int)
    ensures parsed.Some? ==> offset == parsed.value
    ensures parsed.None? ==> offset == 0
  {
    if parsed.None? then 0 else parsed.value
  }

  datatype Pagination = Pagination(total: nat, limit: int, offset: int, hasMore: bool)
  datatype Page = Page(data: seq<Comment>, pagination: Pagination)

  /** `GET /api/comments?limit=...&offset=...` on a table holding `rows`. A
      negative `LIMIT` or `OFFSET` is refused by MySQL, which the route
      answers with 500. */
  function ListComments(rows: seq<Comment>, limitParsed: Option<int>, offsetParsed: Option<int>): (r: Response<Page>)
    ensures var limit := PageLimit(limitParsed);
      var offset := PageOffset(offsetParsed);
      && (r.Failure? <==> limit < 0 || offset < 0)
      && (r.Failure? ==> r.status == 500)
      && (r.Success? ==>
            && r.data.data == GetAll(rows, limit, offset)
            && r.data.pagination == Pagination(|rows|, limit, offset, offset + limit < |rows|))
  {
    var limit := PageLimit(limitParsed);
    var offset := PageOffset(offsetParsed);
    if limit < 0 || offset < 0 then Failure(500, "Error al obtener comentarios")
    else Success(Page(GetAll(rows, limit, offset), Pagination(|rows|, limit, offset, offset + limit < |rows|)))
  }

  /** `hasMore` says exactly whether a row lies beyond the page, that is
      whether the next page is non-empty. */
  lemma HasMoreIffNextPage(rows: seq<Comment>, limitParsed: Option<int>, offsetParsed: Option<int>)
    requires ListComments(rows, limitParsed, offsetParsed).Success?
    ensures var r := ListComments(rows, limitParsed, offsetParsed).data;
      var limit := PageLimit(limitParsed);
      var offset := PageOffset(offsetParsed);
      && limit > 0 && offset >= 0
      && (r.pagination.hasMore <==> GetAll(rows, DefaultLimit, offset + limit) != [])
  {
  }

  /** Without parameters the list is the newest 50 comments. */
  lemma DefaultPage(rows: seq<Comment>)
    ensures var r := ListComments(rows, None, None);
      && r.Success?
      && r.data.data == GetAll(rows, DefaultLimit, 0)
      && |r.data.data| == (if |rows| < DefaultLimit then |rows| else DefaultLimit)
      && (r.data.pagination.hasMore <==> |rows| > DefaultLimit)
  {
  }

  // ---------------------------------------------------------------------------
  // POST /api/comments

  /** The three 400 checks, in order. */
  function ValidateComment(nombre: Option<string>, colonia: Option<string>, comentario: Option<string>): (r: Option<string>)
    ensures r == Some(MissingField) <==> !(Truthy(nombre) && Truthy(colonia) && Truthy(comentario))
    ensures r == Some(NombreTooLong) <==>
      Truthy(nombre) && Truthy(colonia) && Truthy(comentario) && |nombre.value| > MaxNombreLength
    ensures r == Some(ComentarioTooShort) <==>
      Truthy(nombre) && Truthy(colonia) && Truthy(comentario) && |nombre.value| <= MaxNombreLength
      && |comentario.value| < MinComentarioLength
    ensures r.None? || r == Some(MissingField) || r == Some(NombreTooLong) || r == Some(ComentarioTooShort)
  {
    if !Truthy(nombre) || !Truthy(colonia) || !Truthy(comentario) then Some(MissingField)
    else if |nombre.value| > MaxNombreLength then Some(NombreTooLong)
    else if |comentario.value| < MinComentarioLength then Some(ComentarioTooShort)
    else None
  }

  /** A comment passes exactly when all three fields are given, the name has
      at most 100 characters and the comment at least 10. */
  lemma ValidAccepted(nombre: Option<string>, colonia: Option<string>, comentario: Option<string>)
    ensures ValidateComment(nombre, colonia, comentario).None? <==>
      && nombre.Some? && colonia.Some? && comentario.Some?
      && 0 < |nombre.value| <= MaxNombreLength && colonia.value != ""
      && |comentario.value| >= MinComentarioLength
  {
  }

  /** The handler of `POST /api/comments` at `now`. */
  method PostComment(table: CommentTable, nombre: Option<string>, colonia: Option<string>, comentario: Option<string>, now: int)
    returns (status: nat, resp: Response<Created>)
    requires table.Valid()
    modifies table
    ensures table.Valid()
    ensures ValidateComment(nombre, colonia, comentario).Some? ==>
      && status == 400 && resp == Failure(400, ValidateComment(nombre, colonia, comentario).value)
      && table.rows == old(table.rows) && table.nextId == old(table.nextId)
    ensures ValidateComment(nombre, colonia, comentario).None? ==>
      && status == CreatedStatus
      && resp == Success(Created(old(table.nextId), nombre.value, colonia.value, comentario.value, 0))
      && table.rows == old(table.rows) + [NewRow(old(table.nextId), nombre.value, colonia.value, comentario.value, now)]
  {
    var invalid := ValidateComment(nombre, colonia, comentario);
    if invalid.Some? {
      return 400, Failure(400, invalid.value);
    }
    var created := table.Create(nombre.value, colonia.value, comentario.value, now);
    status, resp := CreatedStatus, Success(created);
  }

  // ---------------------------------------------------------------------------
  // PUT /api/comments/:id/like

  /** The handler of `PUT /api/comments/:id/like`: 404 and no change for an
      unknown id; otherwise the like is counted and the updated row returned. */
  method LikeComment(table: CommentTable, id: nat) returns (resp: Response<Comment>)
    requires table.Valid()
    modifies table
    ensures table.Valid() && table.nextId == old(table.nextId)
    ensures GetById(old(table.rows), id).None? ==>
      resp == Failure(404, NotFound) && table.rows == old(table.rows)
    ensures GetById(old(table.rows), id).Some? ==>
      && table.rows == LikesIncremented(old(table.rows), id)
      && resp == Success(Liked(GetById(old(table.rows), id).value))
  {
    var comment := GetById(table.rows, id);
    if comment.None? {
      return Failure(404, NotFound);
    }
    ghost var before := table.rows;
    LikeFound(before, id);
    var updated := table.IncrementLikes(id);
    assert updated == Some(Liked(comment.value));
    resp := Success(updated.value);
  }
}
