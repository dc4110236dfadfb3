/** The stored entities: users and their notes, and the (date, id) key the queries sort by. */
module Notes {

  /** .NET's `int`, the type of every request parameter. */
  type Int32 = x: int | -0x8000_0000 <= x < 0x8000_0000

  /** `DateOnly.MaxValue.DayNumber` (9999-12-31). */
  const MaxDayNumber := 3652058

  /** A `DateOnly`, as its day number: the number of days since 0001-01-01.
      Day numbers compare exactly as the calendar dates do. */
  type DayNumber = d: int | 0 <= d <= MaxDayNumber

  /** A uuid, as the 128-bit number whose big-endian bytes are the uuid's 16 bytes.
      PostgreSQL orders `uuid` values by comparing those bytes one by one, so the
      database's order on uuids is the order on these numbers. */
  type Uuid = x: nat | x < 0x1_0000_0000_0000_0000_0000_0000_0000_0000

  /** An owner of notes (the `users` table). */
  datatype User = User(id: Uuid, name: string)

  /** A row of the `user_notes` table; `user` is the navigation property to its owner. */
  datatype UserNote = UserNote(id: Uuid, userId: Uuid, note: string, noteDate: DayNumber, user: User)

  /** The composite sort key `(NoteDate, Id)`. */
  datatype Key = Key(date: DayNumber, id: Uuid)

  function KeyOf(n: UserNote): Key {
    Key(n.noteDate, n.id)
  }

  /** The SQL row-value comparison `(a.date, a.id) <= (b.date, b.id)`. */
  predicate KeyLe(a: Key, b: Key) {
    a.date < b.date || (a.date == b.date && a.id <= b.id)
  }

  /** The SQL row-value comparison `(a.date, a.id) < (b.date, b.id)`. */
  predicate KeyLt(a: Key, b: Key) {
    a.date < b.date || (a.date == b.date && a.id < b.id)
  }

  /** `KeyLe` is a total order on keys: reflexive, antisymmetric, transitive and total. */
  lemma KeyLeIsTotalOrder(a: Key, b: Key, c: Key)
    ensures KeyLe(a, a)
    ensures KeyLe(a, b) && KeyLe(b, a) ==> a == b
    ensures KeyLe(a, b) && KeyLe(b, c) ==> KeyLe(a, c)
    ensures KeyLe(a, b) || KeyLe(b, a)
    ensures KeyLt(a, b) <==> KeyLe(a, b) && a != b
  {
  }

  /** The primary key on `Id`: no two rows share an id. */
  ghost predicate UniqueIds(rows: seq<UserNote>) {
    forall i, j :: 0 <= i < j < |rows| ==> rows[i].id != rows[j].id
  }
}
