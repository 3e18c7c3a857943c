/** The data shapes of the book service (internal/book/model.go) and Go's
    64-bit `int`, which the pagination arithmetic runs on. */
module BookModel {

  const MinInt64: int := -0x8000_0000_0000_0000
  const MaxInt64: int := 0x7fff_ffff_ffff_ffff
  const TwoTo64: int := 0x1_0000_0000_0000_0000

  /** The range of the books table's id column, a 32-bit `SERIAL`. */
  const MinInt32: int := -0x8000_0000
  const MaxInt32: int := 0x7fff_ffff

  /** Go's `int` on a 64-bit platform. */
  type Int64 = x: int | MinInt64 <= x <= MaxInt64

  /** The two's-complement wrap-around of Go's integer arithmetic: the unique
      64-bit value congruent to `x` modulo 2^64. */
  function Wrap(x: int): (r: Int64)
    ensures MinInt64 <= x <= MaxInt64 ==> r == x
    ensures (r - x) % TwoTo64 == 0
  {
    (x - MinInt64) % TwoTo64 + MinInt64
  }

  /** A row of the books table. The id is assigned by the table's SERIAL key. */
  datatype Book = Book(id: int, title: string, author: string, isbn: string)

  /** The body of a list request. Page and page size are Go `int`s: the JSON
      decoder refuses numbers that do not fit. */
  datatype PaginationRequest = PaginationRequest(page: Int64, pageSize: Int64, search: string)

  /** The row shape the list query scans into (same fields as Book). */
  datatype BookResponse = BookResponse(id: int, title: string, author: string, isbn: string)

  /** The envelope of a list reply. */
  datatype PaginationResponse = PaginationResponse(totalCount: int, pageCount: int, data: seq<BookResponse>)

  /** The three health words of the service's `utils` package, whose texts are
      not part of this model: they are only known to be distinct. */
  datatype HealthWord = StatusOK | StatusDegraded | StatusError

  /** The body of a health reply. */
  datatype StatusResponse = StatusResponse(status: HealthWord, version: string, timestamp: string, message: HealthWord)
}
