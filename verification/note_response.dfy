/** The response projection of a note (`NoteResponse` and `ToResponse`). */
module NoteResponses {
  import opened Notes

  /** What the endpoints send back for one note: the four columns, without the owner. */
  datatype NoteResponse = NoteResponse(id: Uuid, userId: Uuid, note: string, noteDate: DayNumber)

  /** Copies the four columns of a note into its response. */
  function ToResponse(n: UserNote): (r: NoteResponse)
    ensures r.id == n.id
    ensures r.userId == n.userId
    ensures r.note == n.note
    ensures r.noteDate == n.noteDate
  {
    NoteResponse(n.id, n.userId, n.note, n.noteDate)
  }

  /** The sort key a response carries. */
  function ResponseKey(r: NoteResponse): Key {
    Key(r.noteDate, r.id)
  }

  /** The owner navigation property never reaches the response, and the response
      keeps the note's sort key. */
  lemma ToResponseIgnoresUser(n: UserNote, u: User)
    ensures ToResponse(n.(user := u)) == ToResponse(n)
    ensures ResponseKey(ToResponse(n)) == KeyOf(n)
  {
  }

  /** `items.Select(x => x.ToResponse())`: the projection of every row, in order. */
  function Project(rows: seq<UserNote>): (r: seq<NoteResponse>)
    ensures |r| == |rows|
    ensures forall i :: 0 <= i < |rows| ==> r[i] == ToResponse(rows[i])
  {
    seq(|rows|, i requires 0 <= i < |rows| => ToResponse(rows[i]))
  }

  /** Projecting a concatenation projects each part. */
  lemma ProjectAppend(a: seq<UserNote>, b: seq<UserNote>)
    ensures Project(a + b) == Project(a) + Project(b)
  {
  }

  /** Responses strictly decreasing in `(NoteDate, Id)`. */
  ghost predicate StrictlyDescendingResponses(items: seq<NoteResponse>) {
    forall i, j :: 0 <= i < j < |items| ==> KeyLt(ResponseKey(items[j]), ResponseKey(items[i]))
  }
}
