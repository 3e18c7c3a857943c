/** The repository of the book service (internal/book/repository.go): the
    query plan of the paginated listing, and the five operations against the
    books table, modelled as a map from id to row plus the next value of the
    table's SERIAL sequence. Everything the database driver can fail with is a
    parameter: `Some(message)` is a failure of that step, `None` its success. */
module BookRepository {
  import opened Wrappers
  import opened BookModel

  /** The errors the repository returns: its own not-found sentinel, the
      driver's "no rows" sentinel, and any other driver failure. */
  datatype Error = ErrNotFound | ErrNoRows | DriverError(message: string)

  /** The text `err.Error()` gives for each error. */
  function ErrorText(e: Error): (text: string)
  {
    match e
    case ErrNotFound => "book not found"
    case ErrNoRows => "sql: no rows in result set"
    case DriverError(message) => message
  }

  // ---------------------------------------------------------------------
  // The listing query
  // ---------------------------------------------------------------------

  const BaseCondition: string := "1=1"
  const SearchCondition: string := "currency ILIKE ?"
  const DefaultPageSize: Int64 := 10

  /** A bound query argument. */
  datatype Arg = TextArg(text: string) | IntArg(value: int)

  /** A query against the books table: the WHERE text, the numbers of the
      LIMIT and OFFSET placeholders (data query only) and the bound arguments. */
  datatype Query =
    | CountQuery(where: string, args: seq<Arg>)
    | PageQuery(where: string, limitSlot: nat, offsetSlot: nat, args: seq<Arg>)

  /** What ListAllBooks sends to the database for one request. */
  datatype QueryPlan = QueryPlan(count: Query, data: Query, limit: Int64, offset: Int64)

  /** Go's `strings.Join`. */
  function Join(parts: seq<string>, sep: string): (joined: string)
  {
    if |parts| == 0 then ""
    else if |parts| == 1 then parts[0]
    else parts[0] + sep + Join(parts[1..], sep)
  }

  /** Go's `(a * b)` on `int`s: a multiple of 2^64 away from the true product. */
  lemma WrapProduct(a: int, b: int)
    ensures (Wrap(Wrap(a) * b) - a * b) % TwoTo64 == 0
  {
    var w := Wrap(a);
    var k := (w - a) / TwoTo64;
    assert w - a == TwoTo64 * k;
    assert w * b - a * b == (w - a) * b;
    assert w * b - a * b == TwoTo64 * (k * b);
    var r := Wrap(w * b);
    var j := (r - w * b) / TwoTo64;
    assert r - w * b == TwoTo64 * j;
    assert r - a * b == TwoTo64 * (j + k * b);
  }

  /** `(page - 1) * limit` evaluated as Go evaluates it on `int`s. */
  function Offset(page: Int64, limit: Int64): (offset: Int64)
    ensures (offset - (page - 1) * limit) % TwoTo64 == 0
    ensures MinInt64 <= (page - 1) * limit <= MaxInt64 ==> offset == (page - 1) * limit
  {
    WrapProduct(page - 1, limit);
    Wrap(Wrap(page - 1) * limit)
  }

  /** The WHERE clauses, arguments, limit, offset and placeholder numbers that
      ListAllBooks builds from a request. */
  function BuildQuery(req: PaginationRequest): (plan: QueryPlan)
    // the limit is the page size, and 10 only when the page size is zero
    ensures req.pageSize != 0 ==> plan.limit == req.pageSize
    ensures req.pageSize == 0 ==> plan.limit == DefaultPageSize
    ensures plan.limit != 0
    // the offset is (page - 1) * limit in wrapping 64-bit arithmetic, not clamped
    ensures (plan.offset - (req.page - 1) * plan.limit) % TwoTo64 == 0
    ensures MinInt64 <= (req.page - 1) * plan.limit <= MaxInt64 ==> plan.offset == (req.page - 1) * plan.limit
    // both queries filter with the same WHERE text
    ensures plan.count.CountQuery? && plan.data.PageQuery?
    ensures plan.count.where == plan.data.where
    ensures req.search == "" ==> plan.count.where == "1=1" && plan.count.args == []
    ensures req.search != "" ==>
      plan.count.where == "1=1 AND currency ILIKE ?" && plan.count.args == [TextArg("%" + req.search + "%")]
    // LIMIT and OFFSET take the two placeholders after the filter's arguments
    ensures plan.data.limitSlot == |plan.count.args| + 1 && plan.data.offsetSlot == |plan.count.args| + 2
    ensures plan.data.args == plan.count.args + [IntArg(plan.limit), IntArg(plan.offset)]
  {
    var clauses := if req.search != "" then [BaseCondition, SearchCondition] else [BaseCondition];
    var args := if req.search != "" then [TextArg("%" + req.search + "%")] else [];
    assert [BaseCondition, SearchCondition][1..] == [SearchCondition];
    assert Join([BaseCondition, SearchCondition], " AND ") == "1=1 AND currency ILIKE ?";
    var whereSql := Join(clauses, " AND ");
    var limit: Int64 := if req.pageSize == 0 then DefaultPageSize else req.pageSize;
    var offset := Offset(req.page, limit);
    QueryPlan(
      CountQuery(whereSql, args),
      PageQuery(whereSql, |args| + 1, |args| + 2, args + [IntArg(limit), IntArg(offset)]),
      limit, offset)
  }

  // ---------------------------------------------------------------------
  // How the database answers the data query
  // ---------------------------------------------------------------------

  function Min(a: int, b: int): (m: int) { if a <= b then a else b }

  predicate Distinct(s: seq<int>)
  {
    forall i, j :: 0 <= i < j < |s| ==> s[i] != s[j]
  }

  /** `order` is the engine's enumeration of the rows that match the filter.
      There is no ORDER BY, so any order of the matching rows is possible; the
      filter itself is not modelled, except that "1=1" matches every row. */
  predicate Enumerates(order: seq<int>, rows: map<int, Book>, search: string)
  {
    Distinct(order) &&
    (forall i :: 0 <= i < |order| ==> order[i] in rows) &&
    (search == "" ==> forall id :: id in rows ==> id in order)
  }

  /** LIMIT `limit` OFFSET `offset` over the rows in engine order. */
  function Window(order: seq<int>, offset: nat, limit: nat): (page: seq<int>)
    ensures |page| == if offset >= |order| then 0 else Min(limit, |order| - offset)
    ensures forall k :: 0 <= k < |page| ==> page[k] == order[offset + k]
  {
    if offset >= |order| then [] else order[offset .. offset + Min(limit, |order| - offset)]
  }

  /** The rows the data query yields: PostgreSQL rejects a negative OFFSET,
      then a negative LIMIT, before returning anything. */
  function Select(order: seq<int>, limit: Int64, offset: Int64): (selected: Result<seq<int>, Error>)
  {
    if offset < 0 then Failure(DriverError("OFFSET must not be negative"))
    else if limit < 0 then Failure(DriverError("LIMIT must not be negative"))
    else Success(Window(order, offset, limit))
  }

  function ToResponse(b: Book): (response: BookResponse)
  {
    BookResponse(b.id, b.title, b.author, b.isbn)
  }

  /** A failure of the row scan at position `row` of the result. */
  datatype ScanFault = ScanFault(row: nat, message: string)

  /** The driver failures ListAllBooks can meet, in the order it meets them. */
  datatype ListFaults = ListFaults(count: Option<string>, query: Option<string>, scan: Option<ScanFault>, iteration: Option<string>)

  /** What ListAllBooks returns: the page, its row count, the total count and
      the error, as Go's four results. */
  datatype ListOutput = ListOutput(books: seq<BookResponse>, pageCount: int, totalCount: int, err: Option<Error>)

  function ListFailed(e: Error): (out: ListOutput)
  {
    ListOutput([], 0, 0, Some(e))
  }

  /** A duplicate-free sequence has as many elements as the set of its elements. */
  lemma {:induction false} DistinctCardinality(s: seq<int>)
    requires Distinct(s)
    ensures |set x | x in s| == |s|
  {
    if |s| > 0 {
      assert Distinct(s[1..]) by {
        forall i, j | 0 <= i < j < |s[1..]| ensures s[1..][i] != s[1..][j] {
          assert s[1..][i] == s[i + 1] && s[1..][j] == s[j + 1];
        }
      }
      DistinctCardinality(s[1..]);
      assert (set x | x in s) == (set x | x in s[1..]) + {s[0]};
      assert s[0] !in (set x | x in s[1..]) by {
        forall j | 0 <= j < |s[1..]| ensures s[1..][j] != s[0] {
          assert s[1..][j] == s[j + 1];
        }
      }
    }
  }

  /** When the enumeration lists every row, it is as long as the table. */
  lemma EnumerationCoversTable(order: seq<int>, rows: map<int, Book>)
    requires Enumerates(order, rows, "")
    ensures |order| == |rows|
  {
    DistinctCardinality(order);
    forall x | x in order ensures x in rows {
      var i :| 0 <= i < |order| && order[i] == x;
    }
    forall x | x in rows.Keys ensures x in order {
      assert x in rows;
    }
    assert (set x | x in order) == rows.Keys;
  }

  // ---------------------------------------------------------------------
  // The books table
  // ---------------------------------------------------------------------

  class Repository {
    /** The rows of the books table, by id. */
    var rows: map<int, Book>
    /** The next value of the SERIAL sequence behind the id column. */
    var nextId: int

    /** Ids are positive, below the sequence's next value, and stored in their row. */
    ghost predicate Valid()
      reads this
    {
      1 <= nextId &&
      forall id :: id in rows ==> 1 <= id < nextId && rows[id].id == id
    }

    /** A freshly created, empty books table. */
    constructor ()
      ensures Valid()
      ensures rows == map[] && nextId == 1
    {
      rows := map[];
      nextId := 1;
    }

    /** One page of books, the number of rows on it and the number of rows
        matching the filter. Every failure gives `([], 0, 0, err)` with the
        driver's error unchanged. */
    method ListAllBooks(req: PaginationRequest, order: seq<int>, faults: ListFaults) returns (out: ListOutput)
      requires Valid()
      requires Enumerates(order, rows, req.search)
      ensures out.err.Some? ==> out.books == [] && out.pageCount == 0 && out.totalCount == 0
      ensures faults.count.Some? ==> out.err == Some(DriverError(faults.count.value))
      ensures faults.count.None? && faults.query.Some? ==> out.err == Some(DriverError(faults.query.value))
      ensures faults.count.None? && faults.query.None? && BuildQuery(req).offset < 0 ==>
        out.err == Some(DriverError("OFFSET must not be negative"))
      ensures faults.count.None? && faults.query.None? && BuildQuery(req).offset >= 0 && BuildQuery(req).limit < 0 ==>
        out.err == Some(DriverError("LIMIT must not be negative"))
      ensures faults.count.None? && faults.query.None? && Select(order, BuildQuery(req).limit, BuildQuery(req).offset).Success? ==>
        var page := Select(order, BuildQuery(req).limit, BuildQuery(req).offset).value;
        if faults.scan.Some? && faults.scan.value.row < |page| then out.err == Some(DriverError(faults.scan.value.message))
        else if faults.iteration.Some? then out.err == Some(DriverError(faults.iteration.value))
        else out.err.None?
      // on success: the page is the window of matching rows, at most `limit` long
      ensures out.err.None? ==>
        var plan := BuildQuery(req);
        0 <= plan.offset && 0 <= plan.limit &&
        out.totalCount == |order| &&
        out.pageCount == |out.books| <= plan.limit &&
        |out.books| == |Window(order, plan.offset, plan.limit)| &&
        forall k :: 0 <= k < |out.books| ==> out.books[k] == ToResponse(rows[order[plan.offset + k]])
      ensures out.err.None? && req.search == "" ==> out.totalCount == |rows|
    {
      var plan := BuildQuery(req);
      // the count query
      if faults.count.Some? {
        return ListFailed(DriverError(faults.count.value));
      }
      var totalCount := |order|;
      // the data query
      if faults.query.Some? {
        return ListFailed(DriverError(faults.query.value));
      }
      var selected := Select(order, plan.limit, plan.offset);
      if selected.Failure? {
        return ListFailed(selected.error);
      }
      var fetched := selected.value;
      var responses: seq<BookResponse> := [];
      var i := 0;
      while i < |fetched|
        invariant 0 <= i <= |fetched|
        invariant |responses| == i
        invariant !(faults.scan.Some? && faults.scan.value.row < i)
        invariant forall k :: 0 <= k < i ==> responses[k] == ToResponse(rows[fetched[k]])
      {
        if faults.scan.Some? && faults.scan.value.row == i {
          return ListFailed(DriverError(faults.scan.value.message));
        }
        responses := responses + [ToResponse(rows[fetched[i]])];
        i := i + 1;
      }
      if faults.iteration.Some? {
        return ListFailed(DriverError(faults.iteration.value));
      }
      if req.search == "" {
        EnumerationCoversTable(order, rows);
      }
      out := ListOutput(responses, |responses|, totalCount, None);
    }

    /** The driver's single-row query: the row with that id, or its "no rows"
        sentinel when there is none. */
    function QueryRow(id: int, fault: Option<string>): (row: Result<Book, Error>)
      reads this
    {
      if fault.Some? then Failure(DriverError(fault.value))
      else if id in rows then Success(rows[id])
      else Failure(ErrNoRows)
    }

    /** The book with that id; ErrNotFound exactly when no row has it; any
        other failure unchanged. */
    method GetByID(id: int, fault: Option<string>) returns (r: Result<Book, Error>)
      requires Valid()
      ensures fault.Some? ==> r == Failure(DriverError(fault.value))
      ensures fault.None? ==> (r.Success? <==> id in rows)
      ensures r.Success? ==> id in rows && r.value == rows[id] && r.value.id == id
      ensures r == Failure(ErrNotFound) <==> fault.None? && id !in rows
    {
      var row := QueryRow(id, fault);
      if row.Failure? {
        if row.error == ErrNoRows {
          return Failure(ErrNotFound);
        }
        return Failure(row.error);
      }
      return Success(row.value);
    }

    /** Inserts title, author and isbn; the table assigns a fresh id, which is
        written back into the book. */
    method Create(b: Book, fault: Option<string>) returns (created: Book, err: Option<Error>)
      requires Valid()
      modifies this
      ensures Valid()
      ensures fault.Some? ==>
        err == Some(DriverError(fault.value)) && created == b && rows == old(rows) && nextId == old(nextId)
      ensures fault.None? ==>
        err.None? && created == b.(id := old(nextId)) &&
        created.id >= 1 && created.id !in old(rows) &&
        rows == old(rows)[created.id := created] && nextId == old(nextId) + 1
    {
      if fault.Some? {
        return b, Some(DriverError(fault.value));
      }
      var id := nextId;
      nextId := nextId + 1;
      rows := rows[id := Book(id, b.title, b.author, b.isbn)];
      created := b.(id := id);
      err := None;
    }

    /** Overwrites all three fields of row `b.id`. ErrNotFound exactly when no
        row was affected. A failure to read the affected count comes after the
        statement has run, so the row is already overwritten. */
    method Update(b: Book, execFault: Option<string>, affectedFault: Option<string>) returns (err: Option<Error>)
      requires Valid()
      modifies this
      ensures Valid() && nextId == old(nextId)
      ensures execFault.Some? ==> err == Some(DriverError(execFault.value)) && rows == old(rows)
      ensures execFault.None? ==> rows == if b.id in old(rows) then old(rows)[b.id := b] else old(rows)
      ensures execFault.None? && affectedFault.Some? ==> err == Some(DriverError(affectedFault.value))
      ensures execFault.None? && affectedFault.None? ==>
        (err == Some(ErrNotFound) <==> b.id !in old(rows)) && (err.None? <==> b.id in old(rows))
    {
      if execFault.Some? {
        return Some(DriverError(execFault.value));
      }
      var affected := if b.id in rows then 1 else 0;
      if affected == 1 {
        rows := rows[b.id := Book(b.id, b.title, b.author, b.isbn)];
      }
      if affectedFault.Some? {
        return Some(DriverError(affectedFault.value));
      }
      if affected == 0 {
        return Some(ErrNotFound);
      }
      err := None;
    }

    /** Removes row `id`. ErrNotFound exactly when no row was affected. */
    method Delete(id: int, execFault: Option<string>, affectedFault: Option<string>) returns (err: Option<Error>)
      requires Valid()
      modifies this
      ensures Valid() && nextId == old(nextId)
      ensures execFault.Some? ==> err == Some(DriverError(execFault.value)) && rows == old(rows)
      ensures execFault.None? ==> rows == old(rows) - {id}
      ensures execFault.None? && affectedFault.Some? ==> err == Some(DriverError(affectedFault.value))
      ensures execFault.None? && affectedFault.None? ==>
        (err == Some(ErrNotFound) <==> id !in old(rows)) && (err.None? <==> id in old(rows))
    {
      if execFault.Some? {
        return Some(DriverError(execFault.value));
      }
      var affected := if id in rows then 1 else 0;
      rows := rows - {id};
      if affectedFault.Some? {
        return Some(DriverError(affectedFault.value));
      }
      if affected == 0 {
        return Some(ErrNotFound);
      }
      err := None;
    }
  }
}
