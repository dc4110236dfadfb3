/** The offset endpoint: page-number pagination over the same `(NoteDate desc, Id desc)` order,
    with a total count and a page count. */
module OffsetEndpoint {
  import opened Wrappers
  import opened Notes
  import opened NoteResponses
  import opened Query

  const DefaultPage := 1
  const DefaultPageSize := 30
  const MaxPageSize := 100

  const PageTooSmall := "Page must be greater than 0"
  const PageSizeTooSmall := "Page size must be greater than 0"
  const PageSizeTooLarge := "Page size must be less than or equal to 100"

  datatype Request = Request(page: Int32 := DefaultPage, pageSize: Int32 := DefaultPageSize)

  datatype Metadata = Metadata(
    page: Int32,
    pageSize: Int32,
    totalCount: nat,
    totalPages: nat,
    hasPreviousPage: bool,
    hasNextPage: bool)

  datatype Response = Response(items: seq<NoteResponse>, metadata: Metadata)

  /** `Math.Ceiling(n / d)` on whole numbers. */
  function CeilDiv(n: nat, d: nat): nat
    requires d > 0
  {
    if n % d == 0 then n / d else n / d + 1
  }

  /** The page count is the least number of pages of size `d` that hold `n` rows. */
  lemma CeilDivIsLeast(n: nat, d: nat)
    requires d > 0
    ensures CeilDiv(n, d) * d >= n
    ensures (CeilDiv(n, d) - 1) * d < n
  {
    var a, r := n / d, n % d;
    assert n == a * d + r;
    if r != 0 {
      assert CeilDiv(n, d) * d == a * d + d;
      assert (CeilDiv(n, d) - 1) * d == a * d;
    } else {
      assert CeilDiv(n, d) * d == a * d;
      assert (CeilDiv(n, d) - 1) * d == a * d - d;
    }
  }

  /** `OFFSET offset LIMIT count` on the ordered rows. */
  function Slice(s: seq<UserNote>, offset: nat, count: nat): (w: seq<UserNote>)
    ensures |w| == if offset >= |s| then 0 else Min(count, |s| - offset)
  {
    if offset >= |s| then [] else s[offset..Min(offset + count, |s|)]
  }

  /** The number of rows on the pages before page `page`. */
  function Offset(page: int, pageSize: nat): nat
    requires page >= 1
    decreases page
  {
    if page == 1 then 0 else Offset(page - 1, pageSize) + pageSize
  }

  /** The rows before page `page` are `(page - 1) * pageSize`, the skip the source computes. */
  lemma {:induction false} OffsetIsProduct(page: int, pageSize: nat)
    requires page >= 1
    ensures Offset(page, pageSize) == (page - 1) * pageSize
    decreases page
  {
    if page > 1 {
      OffsetIsProduct(page - 1, pageSize);
      assert (page - 1) * pageSize == (page - 2) * pageSize + pageSize;
    }
  }

  /** The next page starts `pageSize` rows further on. */
  lemma OffsetStep(page: int, pageSize: nat)
    requires page >= 1
    ensures Offset(page + 1, pageSize) == Offset(page, pageSize) + pageSize
  {
  }

  /** `.Skip((page - 1) * pageSize).Take(pageSize)` with the skip computed exactly. */
  function Window(s: seq<UserNote>, page: int, pageSize: int): seq<UserNote>
    requires page >= 1 && pageSize >= 1
  {
    Slice(s, Offset(page, pageSize), pageSize)
  }

  /** The answer to a valid request over the ordered rows `s`. */
  function PageAt(s: seq<UserNote>, page: Int32, pageSize: Int32): (r: Response)
    requires page >= 1 && 1 <= pageSize <= MaxPageSize
    ensures r.items == Project(Window(s, page, pageSize))
    ensures r.metadata.page == page && r.metadata.pageSize == pageSize
    ensures r.metadata.totalCount == |s|
    ensures r.metadata.totalPages == CeilDiv(|s|, pageSize)
    ensures r.metadata.hasPreviousPage <==> page > 1
    ensures r.metadata.hasNextPage <==> page < r.metadata.totalPages
  {
    var totalCount := |s|;
    var totalPages := CeilDiv(totalCount, pageSize);
    Response(
      Project(Window(s, page, pageSize)),
      Metadata(page, pageSize, totalCount, totalPages, page > 1, page < totalPages))
  }

  /** `OffsetEndpoint.Handle`, with the table `user_notes` given as `db`. The page is
      checked first, then the page size; a valid request is always answered. */
  function Handle(db: seq<UserNote>, request: Request): (r: HttpResult<Response>)
    ensures request.page < 1 ==> r == BadRequest(PageTooSmall)
    ensures request.page >= 1 && request.pageSize < 1 ==> r == BadRequest(PageSizeTooSmall)
    ensures request.page >= 1 && request.pageSize > MaxPageSize ==> r == BadRequest(PageSizeTooLarge)
    ensures r.Ok? <==> request.page >= 1 && 1 <= request.pageSize <= MaxPageSize
    ensures r.Ok? ==> r.value == PageAt(SortDesc(db), request.page, request.pageSize)
  {
    var page := request.page;
    var pageSize := request.pageSize;
    if page < 1 then BadRequest(PageTooSmall)
    else if pageSize < 1 then BadRequest(PageSizeTooSmall)
    else if pageSize > MaxPageSize then BadRequest(PageSizeTooLarge)
    else Ok(PageAt(SortDesc(db), page, pageSize))
  }

  /** Multiplying by a positive number keeps the order. */
  lemma MulMonotone(a: int, b: int, c: nat)
    requires a <= b
    ensures a * c <= b * c
  {
  }

  /** A page starts inside the ordered rows exactly when its number does not exceed the
      page count. */
  lemma StartInside(n: nat, page: int, pageSize: int)
    requires page >= 1 && pageSize >= 1
    ensures Offset(page, pageSize) < n <==> page <= CeilDiv(n, pageSize)
  {
    var q := CeilDiv(n, pageSize);
    CeilDivIsLeast(n, pageSize);
    OffsetIsProduct(page, pageSize);
    if page <= q {
      MulMonotone(page - 1, q - 1, pageSize);
    } else {
      MulMonotone(q, page - 1, pageSize);
    }
  }

  /** Every page holds at most `pageSize` items, each the projection of the row at its
      position `(page - 1) * pageSize + i` in the ordered table, and the metadata echoes
      the request and counts the whole table. */
  lemma PageContents(db: seq<UserNote>, request: Request)
    requires Handle(db, request).Ok?
    ensures var page := Handle(db, request).value;
      var s := SortDesc(db);
      && |page.items| <= request.pageSize
      && (forall i :: 0 <= i < |page.items| ==>
            Offset(request.page, request.pageSize) + i < |s| &&
            page.items[i] == ToResponse(s[Offset(request.page, request.pageSize) + i]))
      && page.metadata.page == request.page
      && page.metadata.pageSize == request.pageSize
      && page.metadata.totalCount == |db|
  {
    hide CeilDiv;
    var s := SortDesc(db);
    var offset := Offset(request.page, request.pageSize);
    var w := Window(s, request.page, request.pageSize);
    assert Handle(db, request).value.items == Project(w);
    if offset < |s| {
      assert w == s[offset..Min(offset + request.pageSize, |s|)];
    }
  }

  /** The page count is the ceiling of the row count over the page size. */
  lemma TotalPagesIsCeiling(db: seq<UserNote>, request: Request)
    requires Handle(db, request).Ok?
    ensures var m := Handle(db, request).value.metadata;
      m.totalPages * request.pageSize >= m.totalCount > (m.totalPages - 1) * request.pageSize
  {
    CeilDivIsLeast(|db|, request.pageSize);
  }

  /** A page is empty exactly when its number is past the page count. */
  lemma EmptyPastLastPage(db: seq<UserNote>, request: Request)
    requires Handle(db, request).Ok?
    ensures var page := Handle(db, request).value;
      |page.items| == 0 <==> request.page > page.metadata.totalPages
  {
    StartInside(|db|, request.page, request.pageSize);
  }

  /** The flags: a previous page exactly after the first, a next page exactly before the
      last, and the page after a page that says it has a next one is not empty. */
  lemma NavigationFlags(db: seq<UserNote>, request: Request)
    requires Handle(db, request).Ok?
    ensures var m := Handle(db, request).value.metadata;
      && (m.hasPreviousPage <==> request.page > 1)
      && (m.hasNextPage <==> request.page < m.totalPages)
      && (request.page == m.totalPages ==> !m.hasNextPage)
      && (m.hasNextPage ==> |Window(SortDesc(db), request.page + 1, request.pageSize)| > 0)
  {
    var m := Handle(db, request).value.metadata;
    if m.hasNextPage {
      StartInside(|db|, request.page + 1, request.pageSize);
    }
  }

  /** The items of pages `1` to `k`, one after the other. */
  function PagesUpTo(db: seq<UserNote>, pageSize: Int32, k: nat): seq<NoteResponse>
    requires 1 <= pageSize <= MaxPageSize && k < 0x8000_0000
  {
    if k == 0 then [] else PagesUpTo(db, pageSize, k - 1) + Handle(db, Request(k, pageSize)).value.items
  }

  /** The first `k` pages are the first `k * pageSize` rows of the order. */
  lemma {:induction false} PagesUpToPrefix(db: seq<UserNote>, pageSize: Int32, k: nat)
    requires 1 <= pageSize <= MaxPageSize && k < 0x8000_0000
    ensures PagesUpTo(db, pageSize, k) == Project(SortDesc(db)[..Min(Offset(k + 1, pageSize), |db|)])
  {
    hide CeilDiv, Handle, PageAt, SortDesc, Project;
    if k > 0 {
      var s := SortDesc(db);
      PagesUpToPrefix(db, pageSize, k - 1);
      PageIsSlice(db, pageSize, k);
      var a := Min(Offset(k, pageSize), |s|);
      var b := Min(Offset(k + 1, pageSize), |s|);
      assert s[..a] + s[a..b] == s[..b];
      ProjectAppend(s[..a], s[a..b]);
    }
  }

  /** Page `k` holds the rows from `(k - 1) * pageSize` up to `k * pageSize`, as far as
      the table goes. */
  lemma PageIsSlice(db: seq<UserNote>, pageSize: Int32, k: nat)
    requires 1 <= pageSize <= MaxPageSize && 1 <= k < 0x8000_0000
    ensures var a, b := Min(Offset(k, pageSize), |db|), Min(Offset(k + 1, pageSize), |db|);
      a <= b && Handle(db, Request(k, pageSize)).value.items == Project(SortDesc(db)[a..b])
  {
    hide CeilDiv;
    var s := SortDesc(db);
    OffsetStep(k, pageSize);
    var offset := Offset(k, pageSize);
    var w := Window(s, k, pageSize);
    if offset < |s| {
      assert w == s[offset..Min(offset + pageSize, |s|)];
    } else {
      assert w == [];
    }
  }

  /** Pages `1` to `TotalPages` partition the table: one after the other they are every
      row exactly once, in `(NoteDate desc, Id desc)` order. The row count is an `int` in
      the source, so the table has fewer than 2^31 rows. */
  lemma PagesPartition(db: seq<UserNote>, pageSize: Int32)
    requires 1 <= pageSize <= MaxPageSize
    requires |db| < 0x8000_0000
    ensures CeilDiv(|db|, pageSize) < 0x8000_0000
    ensures PagesUpTo(db, pageSize, CeilDiv(|db|, pageSize)) == Project(SortDesc(db))
  {
    hide CeilDiv, PagesUpTo;
    var q := CeilDiv(|db|, pageSize);
    CeilDivIsLeast(|db|, pageSize);
    if q > 0 {
      MulMonotone(1, pageSize, q - 1);
    }
    assert q <= |db|;
    PagesUpToPrefix(db, pageSize, q);
    OffsetIsProduct(q + 1, pageSize);
    assert Min(Offset(q + 1, pageSize), |db|) == |db|;
    assert SortDesc(db)[..|db|] == SortDesc(db);
  }

  /** C#'s unchecked `int` arithmetic: the value modulo 2^32, read as a signed number. */
  function Wrap32(x: int): (r: Int32)
    ensures -0x8000_0000 <= x < 0x8000_0000 ==> r == x
    ensures (x - r) % 0x1_0000_0000 == 0
  {
    (x + 0x8000_0000) % 0x1_0000_0000 - 0x8000_0000
  }

  /** The skip as the source computes it: `(page - 1) * pageSize` in 32-bit arithmetic. */
  function SkipAsWritten(page: Int32, pageSize: Int32): Int32 {
    Wrap32((page - 1) * pageSize)
  }

  /** The window the query returns with the skip as written: a wrapped skip that is
      negative becomes a negative `OFFSET`, which PostgreSQL refuses (`None`). */
  function WindowAsWritten(s: seq<UserNote>, page: Int32, pageSize: Int32): (r: Option<seq<UserNote>>)
    requires page >= 1 && 1 <= pageSize <= MaxPageSize
    ensures (page - 1) * pageSize < 0x8000_0000 ==> r == Some(Window(s, page, pageSize))
  {
    OffsetIsProduct(page, pageSize);
    var skip := SkipAsWritten(page, pageSize);
    if skip < 0 then None else Some(Slice(s, skip, pageSize))
  }

  /** Page 42949674 of size 100 skips 4 rows: 4294967300 wraps around to 4. */
  lemma SkipWrapsAround(page: Int32, pageSize: Int32)
    requires page == 42949674 && pageSize == 100
    ensures (page - 1) * pageSize == 4294967300
    ensures SkipAsWritten(page, pageSize) == 4
  {
  }

  /** As written, a page far past the last one answers with rows 5 to 104 of the table,
      where the page count promises an empty page. */
  lemma OverflowReturnsRows(db: seq<UserNote>, page: Int32, pageSize: Int32)
    requires page == 42949674 && pageSize == 100
    requires 5 <= |db| < 0x8000_0000
    ensures page > CeilDiv(|db|, pageSize)
    ensures Window(SortDesc(db), page, pageSize) == []
    ensures WindowAsWritten(SortDesc(db), page, pageSize) == Some(SortDesc(db)[4..Min(104, |db|)])
  {
    SkipWrapsAround(page, pageSize);
    StartInside(|db|, page, pageSize);
  }

  /** As written, page 21474838 of size 100 wraps to a negative skip and the query fails. */
  lemma OverflowFailsQuery(db: seq<UserNote>, page: Int32, pageSize: Int32)
    requires page == 21474838 && pageSize == 100
    ensures SkipAsWritten(page, pageSize) < 0
    ensures WindowAsWritten(SortDesc(db), page, pageSize).None?
  {
  }

  /** What the handler as written produces: an HTTP answer, or a page query the database
      refuses, which reaches the client as a server error. */
  datatype Outcome = Responded(result: HttpResult<Response>) | QueryFailed

  /** `OffsetEndpoint.Handle` as written, with the skip `(page - 1) * pageSize` computed
      in 32-bit arithmetic. It agrees with `Handle` on every request whose skip fits an
      `int`. Beyond that the metadata is still right, but the items come from the wrapped
      skip, or the query fails. */
  function HandleAsWritten(db: seq<UserNote>, request: Request): (r: Outcome)
    ensures !(request.page >= 1 && 1 <= request.pageSize <= MaxPageSize) ==> r == Responded(Handle(db, request))
    ensures request.page >= 1 && 1 <= request.pageSize <= MaxPageSize && (request.page - 1) * request.pageSize < 0x8000_0000
      ==> r == Responded(Handle(db, request))
    ensures r.QueryFailed? <==>
      request.page >= 1 && 1 <= request.pageSize <= MaxPageSize && SkipAsWritten(request.page, request.pageSize) < 0
    ensures r.Responded? && r.result.Ok? ==>
      && Handle(db, request).Ok?
      && r.result.value.metadata == Handle(db, request).value.metadata
      && r.result.value.items == Project(WindowAsWritten(SortDesc(db), request.page, request.pageSize).value)
  {
    var page, pageSize := request.page, request.pageSize;
    if page < 1 then Responded(BadRequest(PageTooSmall))
    else if pageSize < 1 then Responded(BadRequest(PageSizeTooSmall))
    else if pageSize > MaxPageSize then Responded(BadRequest(PageSizeTooLarge))
    else
      var s := SortDesc(db);
      match WindowAsWritten(s, page, pageSize)
      case None => QueryFailed
      case Some(w) => Responded(Ok(PageAt(s, page, pageSize).(items := Project(w))))
  }

  /** As written, page 42949674 of size 100 answers with rows 5 to 104 of the table, where
      `Handle` answers with an empty page and the same metadata. */
  lemma HandleOverflowReturnsRows(db: seq<UserNote>, page: Int32, pageSize: Int32)
    requires page == 42949674 && pageSize == 100
    requires 5 <= |db| < 0x8000_0000
    ensures Handle(db, Request(page, pageSize)).Ok?
    ensures Handle(db, Request(page, pageSize)).value.items == []
    ensures HandleAsWritten(db, Request(page, pageSize))
         == Responded(Ok(Handle(db, Request(page, pageSize)).value.(items := Project(SortDesc(db)[4..Min(104, |db|)]))))
  {
    OverflowReturnsRows(db, page, pageSize);
  }

  /** As written, page 21474838 of size 100 fails, where `Handle` answers. */
  lemma HandleOverflowFailsQuery(db: seq<UserNote>, page: Int32, pageSize: Int32)
    requires page == 21474838 && pageSize == 100
    ensures Handle(db, Request(page, pageSize)).Ok?
    ensures HandleAsWritten(db, Request(page, pageSize)) == QueryFailed
  {
    OverflowFailsQuery(db, page, pageSize);
  }
}
