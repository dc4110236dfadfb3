/** The versioned cursor record `Cursor(Date, LastId, Version = 1)` with its token codec. */
module Cursors {
  import opened Wrappers
  import opened Notes
  import Token
  import Base64Url

  /** The version this cursor shape carries and the handler accepts. */
  const CurrentVersion := 1

  /** A position in the `(NoteDate desc, Id desc)` order: the key of the row the next
      page starts with, and the schema version of the cursor. */
  datatype Cursor = Cursor(date: DayNumber, lastId: Uuid, version: Int32 := CurrentVersion)

  /** The key the cursor names. */
  function CursorKey(c: Cursor): Key {
    Key(c.date, c.lastId)
  }

  /** `Cursor.Encode`. */
  function Encode(json: Token.Serializer<Cursor>, c: Cursor): (t: string)
    ensures Token.UrlSafe(t)
    ensures Token.Lawful(json) ==> |t| > 0
    ensures Token.Lawful(json) ==> Decode(json, Some(t)) == Some(c)
  {
    Token.Encode(json, c)
  }

  /** `Cursor.Decode`: `None` for a missing, empty or unreadable token. */
  function Decode(json: Token.Serializer<Cursor>, token: Option<string>): (r: Option<Cursor>)
    ensures token.None? || token.value == [] ==> r.None?
    ensures token.Some? && Base64Url.Decode(token.value).None? ==> r.None?
    ensures token.Some? && |token.value| > 0 && Base64Url.Decode(token.value).Some? ==>
      r == json.parse(Base64Url.Decode(token.value).value)
    ensures r.Some? ==> token.Some? && |token.value| > 0 && |token.value| % 4 != 1
  {
    Token.Decode(json, token)
  }

  /** A cursor built without a version has version 1, and keeps it through a round trip. */
  lemma DefaultVersionSurvives(json: Token.Serializer<Cursor>, date: DayNumber, lastId: Uuid)
    requires Token.Lawful(json)
    ensures Cursor(date, lastId).version == 1
    ensures Decode(json, Some(Encode(json, Cursor(date, lastId)))).value.version == 1
  {
  }
}
