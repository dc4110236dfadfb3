# DemoCursorPagination in Dafny

A model of the two paging endpoints of DemoCursorPagination, an ASP.NET Core service that
pages through the `user_notes` table in `(NoteDate desc, Id desc)` order:

- `CursorEndpoint.Handle` pages by key. It accepts an opaque cursor and a
  limit in `[1, 100]`. It fetches `limit + 1` rows at or below the cursor's
  `(NoteDate, Id)` and trims the extra row. When there was an extra row, it returns a
  cursor that names it.
- `OffsetEndpoint.Handle` pages by number. It counts the table, computes
  the page count, and returns `Skip((page - 1) * pageSize).Take(pageSize)`.
- The cursor token has two codecs. The current one (`Contracts/Cursor.cs`) carries a
  version. The earlier one (`Cursor.cs`) has no version. Both codecs turn the record into
  JSON, encode that as UTF-8, and write it as unpadded URL-safe base64.
- `ToResponse` projects a stored note onto the four columns the endpoints return.

The modules follow the source:

| module | file | models |
|---|---|---|
| `Notes` | notes.dfy | the entities `UserNotes` and `Users`, the `(NoteDate, Id)` key and its SQL row-value order |
| `NoteResponses` | note_response.dfy | `NoteResponse`, `ToResponse`, `items.Select(x => x.ToResponse())` |
| `Query` | query.dfy | `ORDER BY NoteDate DESC, Id DESC` (an insertion sort proved to be a descending permutation) and the `WHERE (NoteDate, Id) <= (date, lastId)` filter |
| `Base64Url` | base64url.dfy | `Base64UrlTextEncoder.Encode` and `Decode`, concretely |
| `Token` | token.dfy | the JSON, UTF-8 and base64url token pipeline shared by both cursor records |
| `Cursors` | cursor.dfy | the versioned `Cursor` record and its `Encode` and `Decode` |
| `LegacyCursors` | legacy_cursor.dfy | the versionless `Cursor` record and its `Encode` and `Decode` |
| `Format` | format.dfy | the decimal text of the version in the error message |
| `CursorEndpoint` | cursor_endpoint.dfy | the cursor handler, its pages, and a client walking all pages |
| `OffsetEndpoint` | offset_endpoint.dfy | the offset handler, its metadata, and the 32-bit skip overflow |
| `Wrappers` | wrappers.dfy | `Option`, and `HttpResult` for the `Ok` and `BadRequest` results |

How the model represents the source:

- **The table.** It is a `seq<UserNote>` in storage order, passed to each handler.
  Entity Framework, the connection and `CancellationToken` are not modelled.
- **Uuids.** A uuid is the 128-bit number whose big-endian bytes are its 16 bytes.
  PostgreSQL compares `uuid` values byte by byte, so the database's order is the numeric
  order.
- **Dates.** A `DateOnly` is its day number.
- **JSON.** `System.Text.Json` is a parameter: a serialiser and a parser. The predicate
  `Token.Lawful` states the one property the model assumes of them: the parser reads
  back what the serialiser writes, and the output is never empty.
- **Uniqueness.** The primary key on `Id` is the hypothesis `UniqueIds`. Only the
  theorems about consecutive pages and strict order need it.

The main theorem is `CursorEndpoint.WalkEnumeratesAll`. A client starts without a cursor
and feeds every `NextCursor` back with the same limit. The concatenated items of all pages
are then exactly the projected table in strictly decreasing `(NoteDate, Id)` order: every
row once, with no duplicate and no gap. `CursorEndpoint.ConsecutivePages` states the
one-step version: the next cursor opens the next page exactly after the current one.
`OffsetEndpoint.PagesPartition` is the offset counterpart: pages `1` to `TotalPages`
partition the ordered table.

The cursor the code builds names the row at index `limit` of the `limit + 1` fetched
rows. That is the extra row it drops, not the last row it returns. The bound is `<=`, so
this row becomes the first item of the next page, and no row is duplicated or skipped.

`CursorEndpoint.cs` is declared in namespace `DemoCursorPagination`. C# name lookup
therefore finds the root record `DemoCursorPagination.Cursor` (`Cursor.cs`) for the name
`Cursor` before the record imported by `using DemoCursorPagination.Contracts`. But the
handler reads `Version` and passes `Version: 1` (lines 46 and 73-77), and the handler only
type-checks against the record in `Contracts/Cursor.cs`. The handler model uses that record
(`Cursors`). `LegacyCursors` models the root record on its own.

## Model

| member | source | states |
|---|---|---|
| Notes.KeyLeIsTotalOrder | DemoCursorPagination/CursorEndpoint.cs:56-59 | the row-value comparison `(NoteDate, Id) <= (date, lastId)` is a total order, and `<` is `<=` without equality |
| NoteResponses.ToResponse | DemoCursorPagination/Contracts/NoteResponse.cs:12-18 | the response carries the note's id, owner id, text and date unchanged |
| NoteResponses.ToResponseIgnoresUser | DemoCursorPagination/Contracts/NoteResponse.cs:3-8 | the owner navigation property never reaches the response, and the response keeps the row's sort key |
| NoteResponses.Project | DemoCursorPagination/CursorEndpoint.cs:86 | `Select(ToResponse)` keeps the length and projects position by position |
| NoteResponses.ProjectAppend | DemoCursorPagination/OffsetEndpoint.cs:72 | projecting two runs of rows one after the other projects each run |
| Query.SortDesc | DemoCursorPagination/CursorEndpoint.cs:65-66 | `OrderByDescending(NoteDate).ThenByDescending(Id)` returns a permutation of the rows in non-increasing key order |
| Query.AtOrBefore | DemoCursorPagination/CursorEndpoint.cs:56-60 | the filter returns only rows whose key is at most the bound, and never more rows than it was given |
| Query.AtOrBeforeMultiset | DemoCursorPagination/CursorEndpoint.cs:56-60 | the filter keeps each row at or below the bound as often as it occurs, and drops every other row |
| Query.SortAtOrBefore | DemoCursorPagination/CursorEndpoint.cs:56-66 | filtering and then ordering equals ordering and then filtering |
| Query.AtOrBeforeIsSuffix | DemoCursorPagination/CursorEndpoint.cs:56-66 | on ordered rows, the filtered rows are the suffix that starts at the first row at or below the bound |
| Query.SkippedAtRow | DemoCursorPagination/CursorEndpoint.cs:56-60 | in a strict order, the bound taken from row `k` keeps exactly the rows from `k` on |
| Query.SortStrict | DemoCursorPagination/Data/ApplicationDbContext.cs:25 | with the primary key on `Id`, the ordered rows still have unique ids and their keys strictly decrease |
| Query.UniqueIdsPermutation | DemoCursorPagination/Data/ApplicationDbContext.cs:25 | unique ids survive any reordering of the rows |
| Base64Url.Encode | DemoCursorPagination/Contracts/Cursor.cs:12 | the encoding has length `4*(n/3)` plus 0, 2 or 3 characters, never a length `1 mod 4`, only URL-safe characters and no `=` |
| Base64Url.Decode | DemoCursorPagination/Contracts/Cursor.cs:24 | a token whose length is `1 mod 4` is refused, and the empty token decodes to no bytes |
| Base64Url.RoundTrip | DemoCursorPagination/Contracts/Cursor.cs:12-24 | decoding the encoding of any bytes gives those bytes back |
| Base64Url.DecodeAcceptsPadding | DemoCursorPagination/Contracts/Cursor.cs:24 | the decoder also accepts the `=`-padded spelling of every encoding |
| Base64Url.ValueOfCharOf | DemoCursorPagination/Contracts/Cursor.cs:12-24 | every character of the alphabet decodes to the 6-bit value it encodes |
| Token.Encode | DemoCursorPagination/Contracts/Cursor.cs:9-13 | the token is URL-safe, non-empty for a lawful serialiser, and decodes to whatever the parser reads back from the serialised value |
| Token.Decode | DemoCursorPagination/Contracts/Cursor.cs:15-31 | a missing or empty token, or one that is not base64url, gives no value; for any other token the result is exactly what the JSON parser reads from the decoded bytes, so bytes the parser refuses give no value |
| Token.RoundTrip | DemoCursorPagination/Contracts/Cursor.cs:9-25 | decoding the token of a value gives the value back |
| Token.EncodeInjective | DemoCursorPagination/Contracts/Cursor.cs:9-13 | different values never share a token |
| Cursors.Encode | DemoCursorPagination/Contracts/Cursor.cs:9-13 | the versioned cursor's token is URL-safe and non-empty, and decodes back to the same cursor |
| Cursors.Decode | DemoCursorPagination/Contracts/Cursor.cs:15-31 | a missing or empty token, or one that is not base64url, gives no cursor; for any other token the result is exactly what the JSON parser reads from the decoded bytes, so a JSON failure gives no cursor |
| Cursors.DefaultVersionSurvives | DemoCursorPagination/Contracts/Cursor.cs:7 | a cursor built without a version has version 1 and keeps it through a round trip |
| LegacyCursors.Encode | DemoCursorPagination/Cursor.cs:9-13 | the versionless cursor's token is URL-safe and non-empty, and decodes back to the same cursor |
| LegacyCursors.Decode | DemoCursorPagination/Cursor.cs:15-31 | a missing or empty token, or one that is not base64url, gives no cursor; for any other token the result is exactly what the JSON parser reads from the decoded bytes, so a JSON failure gives no cursor |
| Format.DecimalStringValue | DemoCursorPagination/CursorEndpoint.cs:48 | the version's text reads back as the version, with a leading `-` exactly for negative versions |
| CursorEndpoint.Handle | DemoCursorPagination/CursorEndpoint.cs:33-52 | a limit below 1 or above 100 is refused with its message, first; then a decoded cursor of a version other than 1 is refused; every other request is answered with the page of the matching rows |
| CursorEndpoint.PageOf | DemoCursorPagination/CursorEndpoint.cs:64-93 | the items are the first `min(limit, n)` rows; `HasMore` holds exactly when more than `limit` rows match; the next cursor exists exactly then and names the row at index `limit` with version 1 |
| CursorEndpoint.UnsupportedVersionTwo | DemoCursorPagination/CursorEndpoint.cs:48 | a version-2 cursor gets the message "Unsupported cursor version: 2. Expected version 1." |
| CursorEndpoint.UnreadableCursorStartsOver | DemoCursorPagination/CursorEndpoint.cs:42-61 | a token that does not decode is answered exactly like a request without a cursor |
| CursorEndpoint.MatchingIsSuffix | DemoCursorPagination/CursorEndpoint.cs:51-68 | the rows the page query returns are a suffix of the whole table's order |
| CursorEndpoint.PageShape | DemoCursorPagination/CursorEndpoint.cs:51-93 | an accepted request is answered with the `limit` rows from the cursor's position in the full order, with more and a next cursor exactly when rows remain after them |
| CursorEndpoint.PageSize | DemoCursorPagination/CursorEndpoint.cs:64-83 | an answered page never holds more than `limit` items |
| CursorEndpoint.PageWithinCursor | DemoCursorPagination/CursorEndpoint.cs:56-60 | every item of a page is at or below the key of the cursor it was asked with |
| CursorEndpoint.PageStrict | DemoCursorPagination/CursorEndpoint.cs:64-68 | with unique ids, every page is in strictly decreasing `(NoteDate, Id)` order |
| CursorEndpoint.Answered | DemoCursorPagination/CursorEndpoint.cs:33-49 | an answered request had a limit in `[1, 100]` and a cursor that is absent, unreadable or of version 1 |
| CursorEndpoint.NextCursorAdvances | DemoCursorPagination/CursorEndpoint.cs:71-79 | the next cursor is accepted and starts its page at index `j + limit`, the first row the current page left out |
| CursorEndpoint.ExpectedPagesJoin | DemoCursorPagination/CursorEndpoint.cs:64-83 | two pages in a row cover the rows from `j` on with neither overlap nor gap |
| CursorEndpoint.NextPageShape | DemoCursorPagination/CursorEndpoint.cs:71-83 | feeding back the cursor of a page with more answers with the page right after it |
| CursorEndpoint.ConsecutivePages | DemoCursorPagination/CursorEndpoint.cs:56-83 | the next page starts with the row the cursor names, and the two pages together are the rows from the first page's start, with no duplicate and no omission |
| CursorEndpoint.WalkFrom | DemoCursorPagination/CursorEndpoint.cs:52-93 | following next cursors from an accepted cursor collects every row from its position on, in order |
| CursorEndpoint.WalkEnumeratesAll | DemoCursorPagination/CursorEndpoint.cs:52-93 | following next cursors from no cursor yields the whole table once, in strictly decreasing `(NoteDate, Id)` order, as a permutation of the rows |
| OffsetEndpoint.Handle | DemoCursorPagination/OffsetEndpoint.cs:38-83 | the page is checked before the page size; exactly a page of at least 1 and a size in `[1, 100]` are answered, each failure with its message; the skip is exact (the corrected skip of the finding below) |
| OffsetEndpoint.PageAt | DemoCursorPagination/OffsetEndpoint.cs:56-81 | the items are the window after exactly `(page - 1) * pageSize` rows; the metadata echoes the request, counts the table, and sets the flags from `page` and the page count |
| OffsetEndpoint.CeilDivIsLeast | DemoCursorPagination/OffsetEndpoint.cs:63 | the page count is the least number of pages of that size that hold all rows |
| OffsetEndpoint.TotalPagesIsCeiling | DemoCursorPagination/OffsetEndpoint.cs:62-63 | `TotalPages * pageSize >= TotalCount > (TotalPages - 1) * pageSize` |
| OffsetEndpoint.OffsetIsProduct | DemoCursorPagination/OffsetEndpoint.cs:67 | the rows on the pages before `page` number `(page - 1) * pageSize` |
| OffsetEndpoint.StartInside | DemoCursorPagination/OffsetEndpoint.cs:63-67 | a page starts inside the table exactly when its number is at most the page count |
| OffsetEndpoint.PageContents | DemoCursorPagination/OffsetEndpoint.cs:66-77 | a page holds at most `pageSize` items; item `i` is the row at position `(page - 1) * pageSize + i`; the metadata echoes the request and counts the whole table |
| OffsetEndpoint.EmptyPastLastPage | DemoCursorPagination/OffsetEndpoint.cs:62-69 | a page is empty exactly when its number is past `TotalPages` |
| OffsetEndpoint.NavigationFlags | DemoCursorPagination/OffsetEndpoint.cs:78-79 | `HasPreviousPage` holds exactly after page 1; `HasNextPage` holds exactly before the last page; after a page that says it has a next one, the next page is not empty |
| OffsetEndpoint.PageIsSlice | DemoCursorPagination/OffsetEndpoint.cs:66-69 | page `k` holds the rows from `(k - 1) * pageSize` up to `k * pageSize`, as far as the table goes |
| OffsetEndpoint.PagesUpToPrefix | DemoCursorPagination/OffsetEndpoint.cs:66-72 | pages `1` to `k` together are the first `k * pageSize` rows of the order |
| OffsetEndpoint.PagesPartition | DemoCursorPagination/OffsetEndpoint.cs:56-81 | pages `1` to `TotalPages`, one after the other, are every row exactly once, in order |
| OffsetEndpoint.Wrap32 | DemoCursorPagination/OffsetEndpoint.cs:67 | C#'s unchecked `int` arithmetic: the identity inside the `int` range, and always congruent modulo 2^32 |
| OffsetEndpoint.WindowAsWritten | DemoCursorPagination/OffsetEndpoint.cs:66-69 | with the skip computed in 32 bits, the window is the intended one whenever `(page - 1) * pageSize` fits an `int` |
| OffsetEndpoint.SkipWrapsAround | DemoCursorPagination/OffsetEndpoint.cs:67 | for page 42949674 and page size 100, the skip 4294967300 wraps to 4 |
| OffsetEndpoint.OverflowReturnsRows | DemoCursorPagination/OffsetEndpoint.cs:62-69 | that page lies past the page count, so it should be empty, but as written it returns rows 5 to 104 of the table |
| OffsetEndpoint.OverflowFailsQuery | DemoCursorPagination/OffsetEndpoint.cs:67 | page 21474838 of size 100 wraps to a negative skip, and the query is refused |
| OffsetEndpoint.HandleAsWritten | DemoCursorPagination/OffsetEndpoint.cs:38-83 | the handler with the 32-bit skip: the same answer as `Handle` on every invalid request and on every request whose skip fits an `int`; it fails exactly when the wrapped skip is negative; otherwise it keeps `Handle`'s metadata and takes its items from the wrapped window |
| OffsetEndpoint.HandleOverflowReturnsRows | DemoCursorPagination/OffsetEndpoint.cs:62-81 | for page 42949674 of size 100 the exact handler answers an empty page, while the handler as written answers with the same metadata and rows 5 to 104 |
| OffsetEndpoint.HandleOverflowFailsQuery | DemoCursorPagination/OffsetEndpoint.cs:66-69 | for page 21474838 of size 100 the exact handler answers, while the handler as written fails |

## Left out

- Entity Framework, PostgreSQL, `async` and `CancellationToken`: the table is a sequence passed in, and each query is a pure function of it. Cancellation and database failures produce no response to model, except the negative `OFFSET` that `OffsetEndpoint.HandleAsWritten` reports as `QueryFailed`.
- Logging (`CursorEndpoint.cs:43`, `OffsetEndpoint.cs:41`): no effect on the answer.
- `Program.cs` (service registration, Swagger, and the `/` and `/noteitems` routes; it maps neither endpoint), the query-string binding `[FromQuery(Name = "page_size")]` (`OffsetEndpoint.cs:18`), `GuidV7ValueGenerator.cs` and the database schema beyond the primary key: outside the endpoints. The primary key is the `UniqueIds` hypothesis.
- Concurrent writes between page requests: every theorem is about one fixed table.
- The internals of `System.Text.Json`: the serialiser and parser are a parameter. The model assumes only `Token.Lawful`. A `null` document or a thrown exception counts as the parser answering `None`. A document with a missing field is left to the parser: `System.Text.Json` fills a missing constructor parameter with its default, so `{}` can decode to a version-1 cursor at day 0 with the empty uuid, which then bounds the page like any other cursor. The abstract parser allows this answer and does not require it.
- UTF-8 `GetBytes` and `GetString`: folded into the serialiser and parser. The JSON of both records is ASCII, where the two are inverses.
- Base64Url.Decode: models the `WebEncoders` decoder that pads the text and calls `Convert.FromBase64CharArray`, so it accepts `+` and `/` besides `-` and `_`. A runtime whose `WebEncoders` delegates to `System.Buffers.Text.Base64Url` may refuse `+` and `/`; the encoder never writes them, so every round trip is unaffected.
- Base64Url.Decode: the real decoder also skips whitespace in the token. The model refuses it instead, so it rejects some tokens the library would read. No token the encoder writes contains whitespace.
- OffsetEndpoint.Handle: computes the skip exactly, as the source evidently intends, rather than in unchecked 32-bit arithmetic. The behaviour as written is `OffsetEndpoint.HandleAsWritten`, which agrees with `Handle` whenever `(page - 1) * pageSize` fits an `int` (see Findings).
- OffsetEndpoint.PageAt: takes the window after the exact skip; the wrapped-skip window is `OffsetEndpoint.WindowAsWritten`.
- OffsetEndpoint.PageAt: `Math.Ceiling((double)totalCount / pageSize)` is modelled as exact integer ceiling division. A `double` holds every `int` quotient closely enough that the ceiling is the same.
- OffsetEndpoint.PagesPartition: requires fewer than 2^31 rows, because `CountAsync` returns an `int` and the model does not state what a larger table would do.
- OffsetEndpoint.Metadata: `TotalCount` and `TotalPages` are unbounded numbers, not `int`, for the same reason.
- `Models/UserNote.cs`, `Models/User.cs`, `Models/PostgresContext.cs`: a second scaffolded copy of the entities. `Notes` models the shape that `ApplicationDbContext` uses.
- LegacyCursors.LegacyCursor: `LastId` is `Option<string>` so that JSON `null` is representable; whether the parser produces it is left to the abstract parser. A Dafny `string` holds Unicode scalar values only, so a C# `LastId` with an unpaired surrogate is not representable. `System.Text.Json` does not write such a string back unchanged, so the C# round trip fails for exactly those values, and the round trip proved here covers the other values only.
- The maximum lengths of the note text and user name: constraints of the schema that the endpoints never consult.

## Findings

| source | as written | input that shows it | evidently intended | confidence | as-written member | corrected member |
|---|---|---|---|---|---|---|
| DemoCursorPagination/OffsetEndpoint.cs:67 | `Skip((page - 1) * pageSize)` multiplies two `int`s without `checked`, so the product wraps modulo 2^32 | `page=42949674, page_size=100`: the product 4294967300 wraps to 4, and a page far past `TotalPages` returns rows 5 to 104. `page=21474838, page_size=100` wraps to a negative skip, and the query fails | skip exactly `(page - 1) * pageSize` rows, so any page past the last one is empty | medium, not executed | OffsetEndpoint.HandleAsWritten, OffsetEndpoint.HandleOverflowReturnsRows, OffsetEndpoint.HandleOverflowFailsQuery, OffsetEndpoint.WindowAsWritten, OffsetEndpoint.OverflowReturnsRows | OffsetEndpoint.Handle, OffsetEndpoint.EmptyPastLastPage |
