/** The HTTP handlers of the book service (internal/book/handler.go). Each
    handler is a function from what it observes (the decoded body, the parsed
    path id, the answer of the repository, the database ping) to the exchange
    it performs: the repository call it makes, if any, and the reply it
    writes. The repository is a function parameter, so a handler's reply may
    depend on the arguments it passes. */
module BookHandler {
  import opened Wrappers
  import opened BookModel
  import opened BookRepository

  const HttpOK := 200
  const HttpCreated := 201
  const HttpNoContent := 204
  const HttpBadRequest := 400
  const HttpNotFound := 404
  const HttpInternalServerError := 500

  const Version := "v1.0.0"

  /** What a reply carries: a JSON-encoded value, plain text, or nothing. */
  datatype Body =
    | BookBody(book: Book)
    | PageBody(page: PaginationResponse)
    | HealthBody(health: StatusResponse)
    | TextBody(text: string)
    | NoBody

  datatype Reply = Reply(status: int, body: Body)

  /** A call a handler makes on the repository, with its arguments. */
  datatype RepoCall =
    | ListCall(req: PaginationRequest)
    | GetCall(id: int)
    | CreateCall(book: Book)
    | UpdateCall(book: Book)
    | DeleteCall(id: int)

  datatype Exchange = Exchange(call: Option<RepoCall>, reply: Reply)

  /** What the repository's Create gives back: the book, with its id filled
      in on success, and the error. */
  datatype Created = Created(book: Book, err: Option<Error>)

  /** `http.Error`: the status and the message as a plain-text line. */
  function HttpError(message: string, code: int): (reply: Reply)
  {
    Reply(code, TextBody(message + "\n"))
  }

  /** What the `{id}` path segment is, as `strconv.Atoi` sees it. */
  datatype PathId =
    | Numeric(n: Int64)          // an optional sign and decimal digits whose value fits in 64 bits
    | Malformed                  // any other syntax error
    | OutOfRange(negative: bool) // a decimal prefix that overflows 64 bits, whatever follows it

  /** `strconv.Atoi`'s two results: the value, and whether an error came with
      it. A syntax error gives 0; a range error gives the nearest 64-bit bound. */
  datatype Parsed = Parsed(value: Int64, failed: bool)

  function Atoi(p: PathId): (parsed: Parsed)
  {
    match p
    case Numeric(n) => Parsed(n, false)
    case Malformed => Parsed(0, true)
    case OutOfRange(negative) => Parsed(if negative then MinInt64 else MaxInt64, true)
  }

  /** GET /health: always 200; the payload says whether the database answered
      the ping. */
  function HealthCheck(pingError: Option<string>, timestamp: string): (r: Reply)
    ensures r.status == HttpOK
    ensures r.body.HealthBody? && r.body.health.version == "v1.0.0" && r.body.health.timestamp == timestamp
    ensures pingError.None? ==> r.body.health.status == StatusOK && r.body.health.message == StatusOK
    ensures pingError.Some? ==> r.body.health.status == StatusDegraded && r.body.health.message == StatusError
  {
    var response := StatusResponse(StatusOK, Version, timestamp, StatusOK);
    if pingError.Some? then
      Reply(HttpOK, HealthBody(response.(status := StatusDegraded, message := StatusError)))
    else
      Reply(HttpOK, HealthBody(response))
  }

  /** POST /books/list. */
  function GetBooks(decoded: Option<PaginationRequest>, list: PaginationRequest -> ListOutput): (x: Exchange)
    // an undecodable body is refused before the repository is called
    ensures decoded.None? ==> x == Exchange(None, HttpError("{\"error\": \"invalid request\"}", HttpBadRequest))
    ensures decoded.Some? ==> x.call == Some(ListCall(decoded.value))
    // every repository error, ErrNotFound included, is a 500
    ensures decoded.Some? ==>
      (x.reply.status == HttpInternalServerError <==> list(decoded.value).err.Some?)
    ensures decoded.Some? && list(decoded.value).err.Some? ==> x.reply == HttpError("internal error", HttpInternalServerError)
    // otherwise the envelope carries the repository's counts and rows
    ensures decoded.Some? && list(decoded.value).err.None? ==>
      var out := list(decoded.value);
      x.reply.status == HttpOK &&
      x.reply.body == PageBody(PaginationResponse(out.totalCount, out.pageCount, out.books))
  {
    if decoded.None? then
      Exchange(None, HttpError("{\"error\": \"invalid request\"}", HttpBadRequest))
    else
      var req := decoded.value;
      var out := list(req);
      if out.err.Some? then
        Exchange(Some(ListCall(req)), HttpError("internal error", HttpInternalServerError))
      else
        var booksResponse := PaginationResponse(out.totalCount, out.pageCount, out.books);
        Exchange(Some(ListCall(req)), Reply(HttpOK, PageBody(booksResponse)))
  }

  /** GET /books/{id}. */
  function GetBookByID(path: PathId, getById: int -> Result<Book, Error>): (x: Exchange)
    // a path id Atoi rejects is a 400, and the repository is not called
    ensures !path.Numeric? ==> x == Exchange(None, HttpError("invalid book ID", HttpBadRequest))
    ensures path.Numeric? ==> x.call == Some(GetCall(path.n))
    ensures x.reply.status == HttpBadRequest <==> !path.Numeric?
    ensures x.reply.status == HttpNotFound <==> path.Numeric? && getById(path.n) == Failure(ErrNotFound)
    ensures x.reply.status == HttpInternalServerError <==>
      path.Numeric? && getById(path.n).Failure? && getById(path.n).error != ErrNotFound
    ensures x.reply.status == HttpOK <==> path.Numeric? && getById(path.n).Success?
    ensures x.reply.status == HttpOK ==> x.reply.body == BookBody(getById(path.n).value)
  {
    var parsed := Atoi(path);
    if parsed.failed then
      Exchange(None, HttpError("invalid book ID", HttpBadRequest))
    else
      var id := parsed.value;
      var call := Some(GetCall(id));
      match getById(id)
      case Failure(err) =>
        if err == ErrNotFound then Exchange(call, HttpError("book not found", HttpNotFound))
        else Exchange(call, HttpError("internal server error", HttpInternalServerError))
      case Success(book) =>
        Exchange(call, Reply(HttpOK, BookBody(book)))
  }

  /** POST /books/create. */
  function CreateBook(decoded: Option<Book>, create: Book -> Created): (x: Exchange)
    ensures decoded.None? ==> x == Exchange(None, HttpError("invalid JSON", HttpBadRequest))
    ensures decoded.Some? ==> x.call == Some(CreateCall(decoded.value))
    ensures decoded.Some? ==> (x.reply.status == HttpInternalServerError <==> create(decoded.value).err.Some?)
    ensures decoded.Some? && create(decoded.value).err.Some? ==> x.reply == HttpError("create failed", HttpInternalServerError)
    // on success: 201 and the book as the repository filled it in
    ensures decoded.Some? && create(decoded.value).err.None? ==>
      x.reply == Reply(HttpCreated, BookBody(create(decoded.value).book))
  {
    if decoded.None? then
      Exchange(None, HttpError("invalid JSON", HttpBadRequest))
    else
      var created := create(decoded.value);
      if created.err.Some? then
        Exchange(Some(CreateCall(decoded.value)), HttpError("create failed", HttpInternalServerError))
      else
        Exchange(Some(CreateCall(decoded.value)), Reply(HttpCreated, BookBody(created.book)))
  }

  /** PUT /books/{id}. */
  function UpdateBook(path: PathId, decoded: Option<Book>, update: Book -> Option<Error>): (x: Exchange)
    ensures decoded.None? ==> x == Exchange(None, HttpError("invalid JSON", HttpBadRequest))
    // the repository always sees the body with the path's id, whatever Atoi made of it
    ensures decoded.Some? ==> x.call == Some(UpdateCall(decoded.value.(id := Atoi(path).value)))
    ensures decoded.Some? && path.Malformed? ==> x.call.value.book.id == 0
    // every repository error, ErrNotFound included, is a 500 carrying the error's text
    ensures decoded.Some? && update(x.call.value.book).Some? ==>
      x.reply == HttpError(ErrorText(update(x.call.value.book).value), HttpInternalServerError)
    ensures decoded.Some? && update(x.call.value.book).None? ==>
      x.reply == Reply(HttpOK, BookBody(x.call.value.book))
    ensures x.reply.status != HttpNotFound
  {
    var id := Atoi(path).value;
    if decoded.None? then
      Exchange(None, HttpError("invalid JSON", HttpBadRequest))
    else
      var b := decoded.value.(id := id);
      match update(b)
      case Some(err) => Exchange(Some(UpdateCall(b)), HttpError(ErrorText(err), HttpInternalServerError))
      case None => Exchange(Some(UpdateCall(b)), Reply(HttpOK, BookBody(b)))
  }

  /** DELETE /books/{id}. */
  function DeleteBook(path: PathId, delete: int -> Option<Error>): (x: Exchange)
    // the repository is always called, with 0 for a malformed id
    ensures x.call == Some(DeleteCall(Atoi(path).value))
    ensures path.Numeric? ==> x.call == Some(DeleteCall(path.n))
    ensures path.Malformed? ==> x.call == Some(DeleteCall(0))
    ensures delete(Atoi(path).value).None? ==> x.reply == Reply(HttpNoContent, NoBody)
    ensures delete(Atoi(path).value).Some? ==>
      x.reply == HttpError(ErrorText(delete(Atoi(path).value).value), HttpInternalServerError)
    ensures x.reply.status == HttpNoContent || x.reply.status == HttpInternalServerError
  {
    var id := Atoi(path).value;
    match delete(id)
    case Some(err) => Exchange(Some(DeleteCall(id)), HttpError(ErrorText(err), HttpInternalServerError))
    case None => Exchange(Some(DeleteCall(id)), Reply(HttpNoContent, NoBody))
  }
}
