/** The opaque continuation token shared by both cursor records: JSON, as UTF-8 bytes,
    then unpadded URL-safe base64. */
module Token {
  import opened Wrappers
  import Base64Url

  /** A JSON serialiser for values of type `T` together with its parser, both working on
      UTF-8 bytes. `System.Text.Json` writes the records as ASCII text, so encoding that
      text to UTF-8 and decoding it back is the identity and is folded into these two
      functions. `parse` answers `None` where the library throws or reads the literal `null`. */
  datatype Serializer<!T> = Serializer(serialize: T -> seq<Base64Url.byte>, parse: seq<Base64Url.byte> -> Option<T>)

  /** What the model assumes of the JSON library: the parser reads back everything the
      serialiser writes (so the serialiser is injective), and a JSON document is never empty. */
  ghost predicate Lawful<T(!new)>(json: Serializer<T>) {
    forall v :: |json.serialize(v)| > 0 && json.parse(json.serialize(v)) == Some(v)
  }

  /** The token characters: the URL-safe alphabet, never `=`. */
  ghost predicate UrlSafe(t: string) {
    forall i :: 0 <= i < |t| ==> Base64Url.IsUrlChar(t[i])
  }

  /** `Encode`: serialise, then base64url-encode without padding. */
  function Encode<T(!new)>(json: Serializer<T>, v: T): (t: string)
    ensures UrlSafe(t)
    ensures Lawful(json) ==> |t| > 0
    ensures Decode(json, Some(t)) == if |t| == 0 then None else json.parse(json.serialize(v))
  {
    Base64Url.RoundTrip(json.serialize(v));
    Base64Url.Encode(json.serialize(v))
  }

  /** `Decode`: `None` for a null or empty token, for a token that is not base64url, and
      for bytes the parser refuses; nothing escapes as an exception. */
  function Decode<T>(json: Serializer<T>, token: Option<string>): (r: Option<T>)
    ensures token.None? || token.value == [] ==> r.None?
    ensures token.Some? && Base64Url.Decode(token.value).None? ==> r.None?
    ensures token.Some? && |token.value| > 0 && Base64Url.Decode(token.value).Some? ==>
      r == json.parse(Base64Url.Decode(token.value).value)
    ensures r.Some? ==> token.Some? && |token.value| > 0 && |token.value| % 4 != 1
  {
    if token.None? || |token.value| == 0 then None
    else
      match Base64Url.Decode(token.value)
      case None => None
      case Some(bytes) => json.parse(bytes)
  }

  /** Round trip: decoding the token of a value gives the value back. */
  lemma RoundTrip<T(!new)>(json: Serializer<T>, v: T)
    requires Lawful(json)
    ensures Decode(json, Some(Encode(json, v))) == Some(v)
  {
  }

  /** Different values never share a token. */
  lemma EncodeInjective<T(!new)>(json: Serializer<T>, v: T, w: T)
    requires Lawful(json)
    requires Encode(json, v) == Encode(json, w)
    ensures v == w
  {
    RoundTrip(json, v);
    RoundTrip(json, w);
  }
}
