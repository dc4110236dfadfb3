/** The cursor endpoint: keyset pagination over `(NoteDate desc, Id desc)` with an opaque cursor,
    fetching one row more than the limit to learn whether another page follows. */
module CursorEndpoint {
  import opened Wrappers
  import opened Notes
  import opened NoteResponses
  import opened Query
  import Token
  import Cursors
  import Format

  const DefaultLimit := 30
  const MaxLimit := 100

  const LimitTooSmall := "Limit must be greater than 0"
  const LimitTooLarge := "Limit must be less than or equal to 100"

  function UnsupportedVersion(version: int): string {
    "Unsupported cursor version: " + Format.DecimalString(version) + ". Expected version 1."
  }

  datatype Request = Request(cursor: Option<string> := None, limit: Int32 := DefaultLimit)

  datatype Metadata = Metadata(limit: Int32, hasMore: bool, nextCursor: Option<string>)

  datatype Response = Response(items: seq<NoteResponse>, metadata: Metadata)

  /** The key the page query is bounded by: the decoded cursor's, or none. */
  function Bound(decoded: Option<Cursors.Cursor>): Option<Key> {
    if decoded.Some? then Some(Cursors.CursorKey(decoded.value)) else None
  }

  /** The rows the page query selects, in the order it returns them: those at or below the
      bound, ordered by `NoteDate desc, Id desc`. */
  function Matching(db: seq<UserNote>, bound: Option<Key>): seq<UserNote> {
    SortDesc(if bound.Some? then AtOrBefore(db, bound.value) else db)
  }

  /** The page built from the matching rows: take `limit + 1`; if that many came back,
      the last one names the next page's cursor and is dropped from this page. */
  function PageOf(json: Token.Serializer<Cursors.Cursor>, rows: seq<UserNote>, limit: Int32): (r: Response)
    requires 1 <= limit <= MaxLimit
    ensures r.items == Project(rows[..Min(limit, |rows|)])
    ensures r.metadata.limit == limit
    ensures r.metadata.hasMore <==> |rows| > limit
    ensures r.metadata.nextCursor.Some? <==> r.metadata.hasMore
    ensures r.metadata.hasMore ==>
      r.metadata.nextCursor == Some(Cursors.Encode(json, Cursors.Cursor(rows[limit].noteDate, rows[limit].id, 1)))
  {
    var fetched := rows[..Min(limit + 1, |rows|)];
    var hasMore := |fetched| > limit;
    if hasMore then
      assert |fetched| == limit + 1 && fetched[..limit] == rows[..limit];
      var last := fetched[|fetched| - 1];
      assert last == rows[limit];
      var next := Cursors.Encode(json, Cursors.Cursor(last.noteDate, last.id, 1));
      Response(Project(fetched[..|fetched| - 1]), Metadata(limit, true, Some(next)))
    else
      assert fetched == rows[..Min(limit, |rows|)];
      Response(Project(fetched), Metadata(limit, false, None))
  }

  /** `CursorEndpoint.Handle`, with the table `user_notes` given as `db`. */
  function Handle(json: Token.Serializer<Cursors.Cursor>, db: seq<UserNote>, request: Request): (r: HttpResult<Response>)
    ensures request.limit < 1 ==> r == BadRequest(LimitTooSmall)
    ensures request.limit > MaxLimit ==> r == BadRequest(LimitTooLarge)
    ensures 1 <= request.limit <= MaxLimit ==>
      var decoded := Cursors.Decode(json, request.cursor);
      && (decoded.Some? && decoded.value.version != 1 ==> r == BadRequest(UnsupportedVersion(decoded.value.version)))
      && (r.Ok? <==> decoded.None? || decoded.value.version == 1)
    ensures r.Ok? ==>
      1 <= request.limit <= MaxLimit &&
      r.value == PageOf(json, Matching(db, Bound(Cursors.Decode(json, request.cursor))), request.limit)
  {
    var limit := request.limit;
    if limit < 1 then BadRequest(LimitTooSmall)
    else if limit > MaxLimit then BadRequest(LimitTooLarge)
    else
      var decoded := Cursors.Decode(json, request.cursor);
      if decoded.Some? && decoded.value.version != 1 then BadRequest(UnsupportedVersion(decoded.value.version))
      else Ok(PageOf(json, Matching(db, Bound(decoded)), limit))
  }

  /** The message for a version-2 cursor. */
  lemma UnsupportedVersionTwo()
    ensures UnsupportedVersion(2) == "Unsupported cursor version: 2. Expected version 1."
  {
  }

  /** A token that does not decode is answered exactly as a request without a cursor. */
  lemma UnreadableCursorStartsOver(json: Token.Serializer<Cursors.Cursor>, db: seq<UserNote>, request: Request)
    requires Cursors.Decode(json, request.cursor).None?
    ensures Handle(json, db, request) == Handle(json, db, Request(None, request.limit))
  {
  }

  /** A cursor the handler does not reject: absent, unreadable, or of version 1. */
  ghost predicate Accepted(json: Token.Serializer<Cursors.Cursor>, cursor: Option<string>) {
    var decoded := Cursors.Decode(json, cursor);
    decoded.None? || decoded.value.version == 1
  }

  /** Where the page for `cursor` starts in the full order `SortDesc(db)`: at the top
      without a usable cursor, otherwise after the rows above the cursor's key. */
  ghost function StartIndex(json: Token.Serializer<Cursors.Cursor>, db: seq<UserNote>, cursor: Option<string>): nat {
    var bound := Bound(Cursors.Decode(json, cursor));
    if bound.Some? then Skipped(SortDesc(db), bound.value) else 0
  }

  /** The rows the page query selects are a suffix of the full order. */
  lemma MatchingIsSuffix(db: seq<UserNote>, bound: Option<Key>)
    ensures var s := SortDesc(db);
      Matching(db, bound) == s[(if bound.Some? then Skipped(s, bound.value) else 0)..]
  {
    if bound.Some? {
      SortAtOrBefore(db, bound.value);
      AtOrBeforeIsSuffix(SortDesc(db), bound.value);
    }
  }

  /** The page a request should be answered with, stated on the full order `s` of the
      table and the index `j` of the page's first row: the `limit` rows from `j` on, more
      exactly when rows remain after them, and a next cursor naming the first of those. */
  function ExpectedPage(json: Token.Serializer<Cursors.Cursor>, s: seq<UserNote>, j: nat, limit: Int32): Response
    requires j <= |s| && 1 <= limit
  {
    var more := |s| - j > limit;
    Response(
      Project(s[j..Min(j + limit, |s|)]),
      Metadata(limit, more,
        if more then Some(Cursors.Encode(json, Cursors.Cursor(s[j + limit].noteDate, s[j + limit].id, 1))) else None))
  }

  /** Building the page from a suffix of the full order gives the expected page. */
  lemma PageOfSuffix(json: Token.Serializer<Cursors.Cursor>, s: seq<UserNote>, j: nat, limit: Int32)
    requires j <= |s| && 1 <= limit <= MaxLimit
    ensures PageOf(json, s[j..], limit) == ExpectedPage(json, s, j, limit)
  {
    var rows := s[j..];
    var page := PageOf(json, rows, limit);
    var expected := ExpectedPage(json, s, j, limit);
    assert rows[..Min(limit, |rows|)] == s[j..Min(j + limit, |s|)];
    assert page.items == expected.items;
    if |rows| > limit {
      assert rows[limit] == s[j + limit];
    }
    assert page.metadata == expected.metadata;
  }

  /** The answer to every accepted request is the expected page at its start index. */
  lemma PageShape(json: Token.Serializer<Cursors.Cursor>, db: seq<UserNote>, request: Request)
    requires 1 <= request.limit <= MaxLimit
    requires Accepted(json, request.cursor)
    ensures StartIndex(json, db, request.cursor) <= |SortDesc(db)|
    ensures Handle(json, db, request)
         == Ok(ExpectedPage(json, SortDesc(db), StartIndex(json, db, request.cursor), request.limit))
  {
    var bound := Bound(Cursors.Decode(json, request.cursor));
    MatchingIsSuffix(db, bound);
    PageOfSuffix(json, SortDesc(db), StartIndex(json, db, request.cursor), request.limit);
  }

  /** A page never holds more than `limit` items. */
  lemma PageSize(json: Token.Serializer<Cursors.Cursor>, db: seq<UserNote>, request: Request)
    requires Handle(json, db, request).Ok?
    ensures |Handle(json, db, request).value.items| <= request.limit
  {
  }

  /** Every item of a page lies at or below the key of the cursor it was asked with. */
  lemma PageWithinCursor(json: Token.Serializer<Cursors.Cursor>, db: seq<UserNote>, request: Request)
    requires Handle(json, db, request).Ok?
    requires Cursors.Decode(json, request.cursor).Some?
    ensures var items := Handle(json, db, request).value.items;
      var bound := Cursors.CursorKey(Cursors.Decode(json, request.cursor).value);
      forall i :: 0 <= i < |items| ==> KeyLe(ResponseKey(items[i]), bound)
  {
    var bound := Cursors.CursorKey(Cursors.Decode(json, request.cursor).value);
    SortAtOrBefore(db, bound);
    var rows := AtOrBefore(SortDesc(db), bound);
    assert Handle(json, db, request).value == PageOf(json, rows, request.limit);
  }

  /** With unique ids every page is in strictly decreasing `(NoteDate, Id)` order. */
  lemma PageStrict(json: Token.Serializer<Cursors.Cursor>, db: seq<UserNote>, request: Request)
    requires UniqueIds(db)
    requires Handle(json, db, request).Ok?
    ensures StrictlyDescendingResponses(Handle(json, db, request).value.items)
  {
    hide *;
    var s := SortDesc(db);
    var j := StartIndex(json, db, request.cursor);
    Answered(json, db, request);
    PageShape(json, db, request);
    ExpectedPageFacts(json, s, j, request.limit);
    SortStrict(db);
    StrictSlices(s, j, if |s| - j > request.limit then j + request.limit else j);
  }

  /** A request the handler answers has a valid limit and an accepted cursor. */
  lemma Answered(json: Token.Serializer<Cursors.Cursor>, db: seq<UserNote>, request: Request)
    requires Handle(json, db, request).Ok?
    ensures 1 <= request.limit <= MaxLimit
    ensures Accepted(json, request.cursor)
  {
  }

  /** Every stretch of a strictly descending sequence projects to strictly descending responses. */
  lemma StrictSlices(s: seq<UserNote>, a: nat, b: nat)
    requires StrictlyDescending(s) && a <= b <= |s|
    ensures StrictlyDescendingResponses(Project(s[a..b]))
    ensures StrictlyDescendingResponses(Project(s[a..]))
  {
    forall x | x in s
      ensures ResponseKey(ToResponse(x)) == KeyOf(x)
    {
      ToResponseIgnoresUser(x, x.user);
    }
  }

  /** The next cursor of the expected page at `j` is accepted and starts the next page
      at `j + limit`: the row it names is the first one this page left out. */
  lemma NextCursorAdvances(json: Token.Serializer<Cursors.Cursor>, db: seq<UserNote>, j: nat, limit: Int32)
    requires Token.Lawful(json) && UniqueIds(db)
    requires 1 <= limit && j + limit < |SortDesc(db)|
    ensures var next := ExpectedPage(json, SortDesc(db), j, limit).metadata.nextCursor;
      && next.Some?
      && Accepted(json, next)
      && StartIndex(json, db, next) == j + limit
  {
    var s := SortDesc(db);
    var c := Cursors.Cursor(s[j + limit].noteDate, s[j + limit].id, 1);
    var token := Cursors.Encode(json, c);
    assert Cursors.Decode(json, Some(token)) == Some(c);
    SortStrict(db);
    SkippedAtRow(s, j + limit);
  }

  /** Two expected pages in a row cover the rows from `j` on without overlap or gap. */
  lemma ExpectedPagesJoin(json: Token.Serializer<Cursors.Cursor>, s: seq<UserNote>, j: nat, limit: Int32)
    requires 1 <= limit && j + limit < |s|
    ensures var first := ExpectedPage(json, s, j, limit).items;
      var second := ExpectedPage(json, s, j + limit, limit).items;
      && first == Project(s[j..j + limit])
      && |second| > 0
      && second[0] == ToResponse(s[j + limit])
      && first + second == Project(s[j..Min(j + 2 * limit, |s|)])
  {
    var k := Min(j + 2 * limit, |s|);
    assert s[j..j + limit] + s[j + limit..k] == s[j..k];
    ProjectAppend(s[j..j + limit], s[j + limit..k]);
  }

  /** The cursor of a page that has more is accepted and is answered with the expected
      page right after this one. */
  lemma NextPageShape(json: Token.Serializer<Cursors.Cursor>, db: seq<UserNote>, cursor: Option<string>, limit: Int32, page: Response)
    requires Token.Lawful(json) && UniqueIds(db)
    requires Handle(json, db, Request(cursor, limit)) == Ok(page)
    requires page.metadata.hasMore
    ensures StartIndex(json, db, cursor) + limit < |SortDesc(db)|
    ensures page == ExpectedPage(json, SortDesc(db), StartIndex(json, db, cursor), limit)
    ensures var next := page.metadata.nextCursor;
      && next.Some?
      && Accepted(json, next)
      && StartIndex(json, db, next) == StartIndex(json, db, cursor) + limit
      && Handle(json, db, Request(next, limit))
         == Ok(ExpectedPage(json, SortDesc(db), StartIndex(json, db, cursor) + limit, limit))
  {
    hide *;
    var s := SortDesc(db);
    var j := StartIndex(json, db, cursor);
    Answered(json, db, Request(cursor, limit));
    PageShape(json, db, Request(cursor, limit));
    ExpectedPageFacts(json, s, j, limit);
    NextCursorAdvances(json, db, j, limit);
    PageShape(json, db, Request(page.metadata.nextCursor, limit));
  }

  /** The cursor of a page that has more opens the next page exactly where this one ends:
      the row it names is the first item of the next page, so consecutive pages neither
      overlap nor leave a row out. */
  lemma ConsecutivePages(json: Token.Serializer<Cursors.Cursor>, db: seq<UserNote>, cursor: Option<string>, limit: Int32, page: Response)
    requires Token.Lawful(json) && UniqueIds(db)
    requires Handle(json, db, Request(cursor, limit)) == Ok(page)
    requires page.metadata.hasMore
    ensures Handle(json, db, Request(page.metadata.nextCursor, limit)).Ok?
    ensures var s := SortDesc(db);
      var j := StartIndex(json, db, cursor);
      var next := Handle(json, db, Request(page.metadata.nextCursor, limit)).value;
      && j + limit < |s|
      && page.items == Project(s[j..j + limit])
      && |next.items| > 0
      && next.items[0] == ToResponse(s[j + limit])
      && page.items + next.items == Project(s[j..Min(j + 2 * limit, |s|)])
  {
    hide *;
    var s := SortDesc(db);
    var j := StartIndex(json, db, cursor);
    NextPageShape(json, db, cursor, limit, page);
    var next := ExpectedPage(json, s, j + limit, limit);
    assert Handle(json, db, Request(page.metadata.nextCursor, limit)) == Ok(next);
    ExpectedPagesJoin(json, s, j, limit);
    assert page.items == ExpectedPage(json, s, j, limit).items;
  }

  /** A client that feeds every `NextCursor` back until none is returned, collecting the
      items of every page. */
  function Walk(json: Token.Serializer<Cursors.Cursor>, db: seq<UserNote>, limit: Int32, cursor: Option<string>): HttpResult<seq<NoteResponse>>
    requires Token.Lawful(json) && UniqueIds(db)
    decreases |db| - StartIndex(json, db, cursor)
  {
    var r := Handle(json, db, Request(cursor, limit));
    if r.BadRequest? then BadRequest(r.message)
    else if r.value.metadata.nextCursor.None? then Ok(r.value.items)
    else
      PageShape(json, db, Request(cursor, limit));
      NextCursorAdvances(json, db, StartIndex(json, db, cursor), limit);
      assert |SortDesc(db)| == |db|;
      Then(r.value.items, Walk(json, db, limit, r.value.metadata.nextCursor))
  }

  /** The items of one page in front of the outcome of the rest of the walk. */
  function Then(items: seq<NoteResponse>, rest: HttpResult<seq<NoteResponse>>): HttpResult<seq<NoteResponse>> {
    if rest.Ok? then Ok(items + rest.value) else rest
  }

  /** The two shapes of an expected page: a full page with a next cursor while rows remain
      after it, otherwise the rest of the rows and no cursor. */
  lemma ExpectedPageFacts(json: Token.Serializer<Cursors.Cursor>, s: seq<UserNote>, j: nat, limit: Int32)
    requires j <= |s| && 1 <= limit
    ensures var page := ExpectedPage(json, s, j, limit);
      && (page.metadata.hasMore <==> |s| - j > limit)
      && (|s| - j > limit ==> page.items == Project(s[j..j + limit]) && page.metadata.nextCursor.Some?)
      && (|s| - j <= limit ==> page.items == Project(s[j..]) && page.metadata.nextCursor.None?)
  {
    assert |s| - j <= limit ==> s[j..Min(j + limit, |s|)] == s[j..];
  }

  /** A page in front of a walk that succeeded. */
  lemma ThenOk(items: seq<NoteResponse>, rest: seq<NoteResponse>)
    ensures Then(items, Ok(rest)) == Ok(items + rest)
  {
  }

  /** One step of the walk from an accepted cursor: the expected page, then the walk from
      its next cursor if it has one. */
  lemma WalkStep(json: Token.Serializer<Cursors.Cursor>, db: seq<UserNote>, limit: Int32, cursor: Option<string>, page: Response)
    requires Token.Lawful(json) && UniqueIds(db)
    requires Handle(json, db, Request(cursor, limit)) == Ok(page)
    ensures page.metadata.nextCursor.None? ==> Walk(json, db, limit, cursor) == Ok(page.items)
    ensures page.metadata.nextCursor.Some? ==>
      Walk(json, db, limit, cursor) == Then(page.items, Walk(json, db, limit, page.metadata.nextCursor))
  {
  }

  /** Walking from an accepted cursor collects every row from its start index on, in order. */
  lemma {:induction false} WalkFrom(json: Token.Serializer<Cursors.Cursor>, db: seq<UserNote>, limit: Int32, cursor: Option<string>)
    requires Token.Lawful(json) && UniqueIds(db)
    requires 1 <= limit <= MaxLimit
    requires Accepted(json, cursor)
    ensures StartIndex(json, db, cursor) <= |SortDesc(db)|
    ensures Walk(json, db, limit, cursor) == Ok(Project(SortDesc(db)[StartIndex(json, db, cursor)..]))
    decreases |db| - StartIndex(json, db, cursor)
  {
    hide *;
    var s := SortDesc(db);
    var j := StartIndex(json, db, cursor);
    PageShape(json, db, Request(cursor, limit));
    var page := ExpectedPage(json, s, j, limit);
    ExpectedPageFacts(json, s, j, limit);
    WalkStep(json, db, limit, cursor, page);
    if |s| - j > limit {
      NextCursorAdvances(json, db, j, limit);
      WalkFrom(json, db, limit, page.metadata.nextCursor);
      JoinRest(s, j, limit);
      ThenOk(page.items, Project(s[j + limit..]));
    }
  }

  /** A full page followed by everything after it is everything from the page's start. */
  lemma JoinRest(s: seq<UserNote>, j: nat, limit: nat)
    requires j + limit <= |s|
    ensures Project(s[j..j + limit]) + Project(s[j + limit..]) == Project(s[j..])
  {
    assert s[j..j + limit] + s[j + limit..] == s[j..];
    ProjectAppend(s[j..j + limit], s[j + limit..]);
  }

  /** Main theorem: walking the pages from no cursor yields every row of the table exactly
      once, in strictly decreasing `(NoteDate, Id)` order, and stops at a page without a
      next cursor. */
  lemma WalkEnumeratesAll(json: Token.Serializer<Cursors.Cursor>, db: seq<UserNote>, limit: Int32)
    requires Token.Lawful(json) && UniqueIds(db)
    requires 1 <= limit <= MaxLimit
    ensures Walk(json, db, limit, None) == Ok(Project(SortDesc(db)))
    ensures StrictlyDescending(SortDesc(db))
    ensures multiset(SortDesc(db)) == multiset(db)
  {
    WalkFrom(json, db, limit, None);
    SortStrict(db);
    assert SortDesc(db)[0..] == SortDesc(db);
  }
}
