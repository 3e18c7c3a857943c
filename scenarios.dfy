/** Requests run end to end: a handler together with the repository call it
    makes on one books table, with no driver failure. Each method states what
    a client of the service observes. */
module LibraryScenarios {
  import opened Wrappers
  import opened BookModel
  import opened BookRepository
  import opened BookHandler

  const NoFaults := ListFaults(None, None, None, None)

  /** POST /books/create then GET /books/{id}: the created book gets a
      positive id and is read back with the title, author and isbn it was
      created with. */
  method CreateThenGet(repo: Repository, b: Book) returns (created: Exchange, fetched: Exchange)
    requires repo.Valid()
    requires repo.nextId <= MaxInt64
    modifies repo
    ensures repo.Valid()
    ensures created.reply.status == HttpCreated && created.reply.body.BookBody?
    ensures var book := created.reply.body.book;
      book.id >= 1 && book.id !in old(repo.rows) &&
      book.title == b.title && book.author == b.author && book.isbn == b.isbn
    ensures fetched.reply == Reply(HttpOK, created.reply.body)
  {
    var book, err := repo.Create(b, None);
    created := CreateBook(Some(b), _ => Created(book, err));
    var found := repo.GetByID(book.id, None);
    fetched := GetBookByID(Numeric(book.id), _ => found);
  }

  /** DELETE /books/{id} twice: the first succeeds with 204; the second finds
      no row, the repository says ErrNotFound, and the client sees a 500. */
  method DeleteTwice(repo: Repository, n: Int64) returns (first: Exchange, second: Exchange)
    requires repo.Valid()
    requires n in repo.rows
    modifies repo
    ensures repo.Valid() && repo.rows == old(repo.rows) - {n}
    ensures first.reply == Reply(HttpNoContent, NoBody)
    ensures second.reply == HttpError("book not found", HttpInternalServerError)
  {
    var e1 := repo.Delete(n, None, None);
    first := DeleteBook(Numeric(n), _ => e1);
    var e2 := repo.Delete(n, None, None);
    assert e2 == Some(ErrNotFound);
    second := DeleteBook(Numeric(n), _ => e2);
  }

  /** GET, PUT and DELETE on an id with no row: the repository answers
      ErrNotFound each time, the table does not change, and no reply is a
      success. The id lies in the id column's 32-bit range: outside it the
      driver refuses to encode the argument, which this model does not
      capture. */
  method MissingId(repo: Repository, n: Int64, body: Book) returns (get: Exchange, put: Exchange, delete: Exchange)
    requires repo.Valid()
    requires MinInt32 <= n <= MaxInt32
    requires n !in repo.rows
    modifies repo
    ensures repo.Valid() && repo.rows == old(repo.rows)
    ensures get.reply == HttpError("book not found", HttpNotFound)
    ensures put.reply == HttpError("book not found", HttpInternalServerError)
    ensures delete.reply == HttpError("book not found", HttpInternalServerError)
  {
    var found := repo.GetByID(n, None);
    get := GetBookByID(Numeric(n), _ => found);
    var updated := repo.Update(body.(id := n), None, None);
    put := UpdateBook(Numeric(n), Some(body), _ => updated);
    var deleted := repo.Delete(n, None, None);
    delete := DeleteBook(Numeric(n), _ => deleted);
  }

  /** POST /books/list on a table of five rows with page size 2: page 1 has
      two rows, page 3 is the short final page with one, and page 0 asks for
      OFFSET -2, which the database rejects, so the client sees a 500. Every
      answered page reports the five matching rows. */
  method ListFiveRows(repo: Repository, order: seq<int>) returns (first: Exchange, third: Exchange, zeroth: Exchange)
    requires repo.Valid()
    requires |repo.rows| == 5
    requires Enumerates(order, repo.rows, "")
    ensures first.reply.status == HttpOK && first.reply.body.PageBody?
    ensures first.reply.body.page.totalCount == 5 && first.reply.body.page.pageCount == 2
    ensures |first.reply.body.page.data| == 2
    ensures third.reply.status == HttpOK && third.reply.body.PageBody?
    ensures third.reply.body.page.totalCount == 5 && third.reply.body.page.pageCount == 1
    ensures |third.reply.body.page.data| == 1
    ensures zeroth.reply == HttpError("internal error", HttpInternalServerError)
  {
    var out1 := repo.ListAllBooks(PaginationRequest(1, 2, ""), order, NoFaults);
    first := GetBooks(Some(PaginationRequest(1, 2, "")), _ => out1);
    var out3 := repo.ListAllBooks(PaginationRequest(3, 2, ""), order, NoFaults);
    third := GetBooks(Some(PaginationRequest(3, 2, "")), _ => out3);
    var out0 := repo.ListAllBooks(PaginationRequest(0, 2, ""), order, NoFaults);
    zeroth := GetBooks(Some(PaginationRequest(0, 2, "")), _ => out0);
  }

  /** POST /books/list for page `MinInt64` with page size 1: `page - 1`
      wraps to `MaxInt64`, so the offset is `MaxInt64`, the database accepts
      it, and the client gets an empty page with 200 rather than an error. */
  method ListWrappedPage(repo: Repository, order: seq<int>) returns (x: Exchange)
    requires repo.Valid()
    requires Enumerates(order, repo.rows, "")
    requires |repo.rows| <= MaxInt64
    ensures BuildQuery(PaginationRequest(MinInt64, 1, "")).offset == MaxInt64
    ensures x.reply.status == HttpOK && x.reply.body.PageBody?
    ensures x.reply.body.page.data == [] && x.reply.body.page.pageCount == 0
    ensures x.reply.body.page.totalCount == |repo.rows|
  {
    var req := PaginationRequest(MinInt64, 1, "");
    var out := repo.ListAllBooks(req, order, NoFaults);
    x := GetBooks(Some(req), _ => out);
  }
}
