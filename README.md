# Public library book service — a Dafny model of its repository and handlers

The service is a small Go CRUD API for one entity, the book (`id`, `title`,
`author`, `isbn`), stored in a single PostgreSQL table whose `id` is a
`SERIAL` key. The logic worth modelling lives in two files:

- `internal/book/repository.go`: the paginated listing, which builds a WHERE
  text, an argument list, a limit, an offset and the numbers of the LIMIT and
  OFFSET placeholders, and then runs a count query and a data query and scans
  the rows; and the single-row operations GetByID, Create, Update and Delete,
  which turn "no row" into the `ErrNotFound` sentinel and pass every other
  driver error through unchanged.
- `internal/book/handler.go`: six HTTP handlers, each a small decision
  procedure from what it observes (the decoded body, the parsed path id, the
  repository's answer, the database ping) to a status code and a body.

Files:

- `wrappers.dfy`: `Option` and `Result`.
- `model.dfy` (module `BookModel`): the data shapes of `internal/book/model.go`
  as datatypes, and Go's 64-bit `int` as the subset type `Int64` with `Wrap`,
  the two's-complement wrap-around of Go's arithmetic.
- `repository.dfy` (module `BookRepository`): the repository errors, the pure
  query plan `BuildQuery`, and the class `Repository`, whose state is the
  table (`rows: map<int, Book>`) and the next value of its `SERIAL` sequence
  (`nextId`). Its methods are the five repository operations. Every driver
  failure is a parameter: `Some(message)` means that step failed.
- `handler.dfy` (module `BookHandler`): the handlers as pure functions. The
  repository is a function parameter, and each handler returns an `Exchange`:
  the repository call it made, if any, and the reply it wrote. "Refused without
  calling the repository" is `call == None`.
- `scenarios.dfy` (module `LibraryScenarios`): requests run end to end on one
  table, combining a repository method and a handler.

How the database answers is modelled only as far as the code depends on it:

- `order` is the engine's enumeration of the rows matching the filter. There is
  no ORDER BY, so any order is allowed, and the filter itself is not evaluated.
  With an empty search the WHERE text is `1=1`, so `order` lists every row.
- LIMIT and OFFSET select a window of `order`. PostgreSQL rejects a negative
  OFFSET, then a negative LIMIT, with an error. When `(page - 1) * limit` fits
  in 64 bits, page 0 or below therefore fails the data query whenever the limit
  is positive. When it does not fit, the offset wraps: page `MinInt64` with
  page size 1 gives the offset `MaxInt64`, which the database accepts, and the
  list answers 200 with an empty page (`LibraryScenarios.ListWrappedPage`).

## Behaviour of the code as written

Where the code's own comments and annotations say something else, the model
follows the code:

- `internal/book/handler.go:28` documents the health status as "ok" or
  "degraded". The payload carries two opaque `utils` constants instead
  (lines 41-62): `StatusOK` and `StatusOK` when the ping succeeds, and
  `StatusDegraded` and `StatusError` when it fails.
- `internal/book/handler.go:180` and `:210` annotate PUT and DELETE with
  `@Failure 404`. Lines 193-197 and 216-220 answer every repository error
  with 500, `ErrNotFound` included, with the error's own text as the body.
  Only GetBookByID (lines 128-135) answers `ErrNotFound` with 404.
- `internal/book/handler.go:120-124` answers a path id that `strconv.Atoi`
  rejects with 400, including one rejected only for being out of range.
  Lines 184 and 214 discard Atoi's error in UpdateBook and DeleteBook: a
  malformed id becomes 0 and an out-of-range id the nearest 64-bit bound.
- `internal/book/repository.go:46-50` neither caps the page size nor clamps
  page numbers below 1. The offset is `(page - 1) * limit`, computed in
  wrapping 64-bit arithmetic.
- `internal/book/repository.go:39` applies the search filter to the column
  `currency` with a `?` placeholder. The model keeps that text as written.

## Model

| member | source | states |
|---|---|---|
| `BookModel.Wrap` | internal/book/repository.go:50 | Go's `int` arithmetic: the result is a 64-bit value congruent to the exact one modulo 2^64, and equal to it when it fits |
| `BookRepository.WrapProduct` | internal/book/repository.go:50 | wrapping the factor and then the product still lands a multiple of 2^64 away from the exact product |
| `BookRepository.Offset` | internal/book/repository.go:50 | the offset is `(page - 1) * limit` modulo 2^64, and exactly that product when it fits in 64 bits: no clamping for page 1 or below |
| `BookRepository.BuildQuery` | internal/book/repository.go:33-72 | limit is the page size, or 10 exactly when it is 0, and never 0; offset as above; empty search gives WHERE `1=1` and no arguments, otherwise `1=1 AND currency ILIKE ?` with the single argument `%search%`; both queries share the WHERE text; LIMIT/OFFSET are placeholders len(args)+1 and len(args)+2; the data query binds args ++ [limit, offset] and the count query args alone |
| `BookRepository.EnumerationCoversTable` | internal/book/repository.go:53-54 | under `WHERE 1=1` the count query counts every row of the table |
| `BookRepository.Repository.constructor` | internal/db/postgres.go:79-84 | a newly created table is empty and its id sequence starts at 1 |
| `BookRepository.Repository.ListAllBooks` | internal/book/repository.go:23-102 | every count, query, scan or iteration failure gives `([], 0, 0, err)` with the driver's error unchanged, in the order the steps run; a negative offset or limit is rejected by the database; on success the total is the number of matching rows (the whole table for an empty search), the page is the LIMIT/OFFSET window of the matching rows in engine order, and the page count equals its length, at most the limit |
| `BookRepository.Repository.GetByID` | internal/book/repository.go:104-126 | the stored book when the id has a row; `ErrNotFound` exactly when no row has the id and the query did not fail; any other failure passed through unchanged |
| `BookRepository.Repository.Create` | internal/book/repository.go:128-144 | on success the book keeps title, author and isbn and gets a fresh positive id from the sequence, which is the only row added; on failure the book, the table and the sequence are unchanged |
| `BookRepository.Repository.Update` | internal/book/repository.go:146-174 | overwrites all three fields of row `b.id` and touches no other row; `ErrNotFound` exactly when no row was affected; a failed statement changes nothing, a failed affected-count read reports the error after the row was overwritten |
| `BookRepository.Repository.Delete` | internal/book/repository.go:176-202 | removes row `id` and no other; `ErrNotFound` exactly when no row was affected; driver errors passed through unchanged |
| `BookHandler.HealthCheck` | internal/book/handler.go:37-67 | always 200 with version `v1.0.0` and the given timestamp; status and message are StatusOK/StatusOK after a successful ping and StatusDegraded/StatusError after a failed one |
| `BookHandler.GetBooks` | internal/book/handler.go:83-102 | a body that does not decode is a 400 with no repository call; otherwise the repository is called with the decoded request, any error is a 500, and success is a 200 envelope copying total count, page count and rows |
| `BookHandler.GetBookByID` | internal/book/handler.go:115-140 | status table: 400 exactly when Atoi rejects the id (no repository call), 404 exactly for `ErrNotFound`, 500 exactly for any other error, 200 with the book exactly on success |
| `BookHandler.CreateBook` | internal/book/handler.go:154-167 | a body that does not decode is a 400 with no repository call; a repository error is a 500; success is a 201 echoing the book with the id the repository assigned |
| `BookHandler.UpdateBook` | internal/book/handler.go:182-199 | the repository sees the body with the path's id (0 for a malformed id); every repository error, `ErrNotFound` included, is a 500 with the error's text; success echoes that book with 200; never a 404 |
| `BookHandler.DeleteBook` | internal/book/handler.go:212-222 | the repository is always called, with the path's id or 0 for a malformed one; 204 with no body on success; 500 with the error's text for every error, `ErrNotFound` included |
| `LibraryScenarios.CreateThenGet` | internal/book/repository.go:128-144 | a created book gets a positive, previously unused id, and a GET by that id returns it with the title, author and isbn it was created with |
| `LibraryScenarios.DeleteTwice` | internal/book/repository.go:176-202 | deleting an existing id gives 204; deleting it again gives `ErrNotFound`, which the client sees as a 500 |
| `LibraryScenarios.MissingId` | internal/book/repository.go:115-199 | for an id in the 32-bit range of the id column with no row, GET is a 404 and PUT and DELETE are 500s, and the table is unchanged |
| `LibraryScenarios.ListFiveRows` | internal/book/repository.go:46-101 | with five rows and page size 2, page 1 has two rows and page 3 has one, both with total 5; page 0 asks for a negative offset and ends in a 500 |
| `LibraryScenarios.ListWrappedPage` | internal/book/repository.go:46-50 | page `MinInt64` with page size 1 wraps the offset to `MaxInt64`; the database accepts it and the client gets 200 with an empty page and the table's row count |

## Left out

- JSON encoding and decoding are not modelled. A decode is an input: the decoded value or `None`. A partial body therefore reaches Update with empty fields, as Go's decoder leaves them. The `Content-Type` header, Encode errors and the difference between a nil and an empty page are not modelled either; the handlers encode an empty page as JSON `null`.
- Logging through zap and `log` is left out. So are the timestamp from `time.Now` (an input to HealthCheck), request contexts and cancellation, and the connection pool.
- `strconv.Atoi` and `mux.Vars` are reduced to the outcome class of the path segment (`PathId`). The text of the segment is not modelled.
- SQL text layout is left out. The query's table name comes from `utils.BooksTable`, which is not part of this model. Queries are kept as structured values: the WHERE text, the placeholder numbers and the bound arguments.
- The filter's meaning is not modelled. That covers ILIKE matching, the `currency` column that the schema lacks, and the `?` placeholder, which PostgreSQL does not accept. Against a real PostgreSQL a non-empty search therefore fails; the model instead takes the matching rows as the `order` input.
- The count query and the data query see the same table. The consistency window between them under concurrent writes is not modelled.
- The `SERIAL` id is a 32-bit sequence in PostgreSQL. Its exhaustion is not modelled, and a failed insert does not consume a sequence value in the model.
- BookRepository.Repository.GetByID, Update and Delete, and LibraryScenarios.MissingId: the id column is a 32-bit `SERIAL` (`internal/db/postgres.go:80`), and the driver refuses to encode an id argument outside the 32-bit range before the statement reaches the table. The model lets such an id reach the table, where it matches no row and gives `ErrNotFound`; the service answers it with a driver error, so `GET /books/3000000000` is a 500 there and a 404 in the model. MissingId is therefore stated only for ids in the 32-bit range.
- The text of PostgreSQL's rejection of a negative OFFSET or LIMIT is PostgreSQL's message, without the driver's prefix.
- `cmd/main.go` (routing, server start) and the configuration, pool and DDL code of `internal/db/postgres.go` are left out. Only the schema's auto-increment id shapes the table model.
- The unused `Sort` type, the unused `ErrorResponse` type and the handler's unused `config` field are left out.
- `utils.StatusOK`, `StatusDegraded` and `StatusError` are opaque, distinct constants; their texts are not part of this model.
