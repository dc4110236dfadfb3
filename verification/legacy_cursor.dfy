/** The earlier cursor record `Cursor(Date, string LastId)`, without a version, and its
    token codec. */
module LegacyCursors {
  import opened Wrappers
  import opened Notes
  import Token
  import Base64Url

  /** `LastId` is a C# `string`, so JSON `null` gives a cursor whose id is `None`. */
  datatype LegacyCursor = LegacyCursor(date: DayNumber, lastId: Option<string>)

  /** `Cursor.Encode` of the versionless record. */
  function Encode(json: Token.Serializer<LegacyCursor>, c: LegacyCursor): (t: string)
    ensures Token.UrlSafe(t)
    ensures Token.Lawful(json) ==> |t| > 0
    ensures Token.Lawful(json) ==> Decode(json, Some(t)) == Some(c)
  {
    Token.Encode(json, c)
  }

  /** `Cursor.Decode` of the versionless record: `None` for a missing, empty or unreadable token. */
  function Decode(json: Token.Serializer<LegacyCursor>, token: Option<string>): (r: Option<LegacyCursor>)
    ensures token.None? || token.value == [] ==> r.None?
    ensures token.Some? && Base64Url.Decode(token.value).None? ==> r.None?
    ensures token.Some? && |token.value| > 0 && Base64Url.Decode(token.value).Some? ==>
      r == json.parse(Base64Url.Decode(token.value).value)
    ensures r.Some? ==> token.Some? && |token.value| > 0 && |token.value| % 4 != 1
  {
    Token.Decode(json, token)
  }
}
