/** The database side of both endpoints, as pure functions on the rows of `user_notes`:
    the cursor predicate `(NoteDate, Id) <= (date, id)`, `ORDER BY NoteDate DESC, Id DESC`,
    and the positional reasoning the page proofs rest on. */
module Query {
  import opened Notes

  function Min(a: int, b: int): int {
    if a <= b then a else b
  }

  /** Rows in non-increasing key order. */
  ghost predicate Descending(s: seq<UserNote>) {
    forall i, j :: 0 <= i < j < |s| ==> KeyLe(KeyOf(s[j]), KeyOf(s[i]))
  }

  /** Rows in strictly decreasing key order. */
  ghost predicate StrictlyDescending(s: seq<UserNote>) {
    forall i, j :: 0 <= i < j < |s| ==> KeyLt(KeyOf(s[j]), KeyOf(s[i]))
  }

  /** `WHERE (NoteDate, Id) <= (bound.date, bound.id)`: the rows at or after the
      bound in the descending order, in their original order. */
  function AtOrBefore(rows: seq<UserNote>, bound: Key): (r: seq<UserNote>)
    ensures |r| <= |rows|
    ensures forall i :: 0 <= i < |r| ==> KeyLe(KeyOf(r[i]), bound)
  {
    if |rows| == 0 then []
    else
      assert rows == [rows[0]] + rows[1..];
      if KeyLe(KeyOf(rows[0]), bound) then [rows[0]] + AtOrBefore(rows[1..], bound)
      else AtOrBefore(rows[1..], bound)
  }

  /** Places `x` in front of the first row whose key does not exceed its own. */
  function Insert(x: UserNote, s: seq<UserNote>): (r: seq<UserNote>)
    ensures Descending(s) ==> Descending(r)
    ensures |r| == |s| + 1
    ensures r[0] == x || (|s| > 0 && r[0] == s[0])
  {
    if |s| == 0 then [x]
    else if KeyLe(KeyOf(s[0]), KeyOf(x)) then [x] + s
    else
      assert s == [s[0]] + s[1..];
      var rest := Insert(x, s[1..]);
      assert Descending(s) ==> KeyLe(KeyOf(rest[0]), KeyOf(s[0]));
      [s[0]] + rest
  }

  /** `ORDER BY NoteDate DESC, Id DESC`: a descending permutation of the rows. */
  function SortDesc(rows: seq<UserNote>): (r: seq<UserNote>)
    ensures Descending(r)
    ensures |r| == |rows|
    ensures multiset(r) == multiset(rows)
  {
    if |rows| == 0 then []
    else
      assert rows == [rows[0]] + rows[1..];
      InsertMultiset(rows[0], SortDesc(rows[1..]));
      Insert(rows[0], SortDesc(rows[1..]))
  }

  /** Inserting adds the row and nothing else. */
  lemma {:induction false} InsertMultiset(x: UserNote, s: seq<UserNote>)
    ensures multiset(Insert(x, s)) == multiset(s) + multiset{x}
  {
    if |s| > 0 && !KeyLe(KeyOf(s[0]), KeyOf(x)) {
      InsertMultiset(x, s[1..]);
      assert s == [s[0]] + s[1..];
    }
  }

  /** The filter keeps every row at or below the bound, as often as it occurs, and no other row. */
  lemma {:induction false} AtOrBeforeMultiset(rows: seq<UserNote>, bound: Key)
    ensures forall n :: multiset(AtOrBefore(rows, bound))[n] == if KeyLe(KeyOf(n), bound) then multiset(rows)[n] else 0
  {
    if |rows| > 0 {
      AtOrBeforeMultiset(rows[1..], bound);
      assert rows == [rows[0]] + rows[1..];
    }
  }

  /** A row whose key is at least the first key of a descending sequence can go in front of it. */
  lemma ConsDescending(x: UserNote, s: seq<UserNote>)
    requires Descending(s)
    requires |s| > 0 ==> KeyLe(KeyOf(s[0]), KeyOf(x))
    ensures Descending([x] + s)
  {
  }

  /** Filtering keeps a descending sequence descending and does not raise its first key. */
  lemma {:induction false} AtOrBeforeDescending(s: seq<UserNote>, bound: Key)
    requires Descending(s)
    ensures Descending(AtOrBefore(s, bound))
    ensures |AtOrBefore(s, bound)| > 0 ==> |s| > 0 && KeyLe(KeyOf(AtOrBefore(s, bound)[0]), KeyOf(s[0]))
  {
    if |s| > 0 {
      var tail := AtOrBefore(s[1..], bound);
      AtOrBeforeDescending(s[1..], bound);
      if |tail| > 0 {
        assert KeyLe(KeyOf(s[1..][0]), KeyOf(s[0]));
      }
      if KeyLe(KeyOf(s[0]), bound) {
        ConsDescending(s[0], tail);
      }
    }
  }

  /** Filtering a row placed in front: the row goes through the filter or not, and the
      rest is filtered as before. */
  lemma AtOrBeforeCons(x: UserNote, s: seq<UserNote>, bound: Key)
    ensures AtOrBefore([x] + s, bound) == if KeyLe(KeyOf(x), bound) then [x] + AtOrBefore(s, bound) else AtOrBefore(s, bound)
  {
    assert ([x] + s)[0] == x && ([x] + s)[1..] == s;
  }

  /** The case of `AtOrBeforeInsert` where `x` goes in front. */
  lemma AtOrBeforeInsertFront(x: UserNote, s: seq<UserNote>, bound: Key)
    requires Descending(s) && |s| > 0 && KeyLe(KeyOf(s[0]), KeyOf(x))
    ensures Descending(AtOrBefore(s, bound))
    ensures AtOrBefore(Insert(x, s), bound)
         == if KeyLe(KeyOf(x), bound) then Insert(x, AtOrBefore(s, bound)) else AtOrBefore(s, bound)
  {
    AtOrBeforeDescending(s, bound);
    AtOrBeforeCons(x, s, bound);
    var f := AtOrBefore(s, bound);
    if |f| > 0 {
      KeyLeIsTotalOrder(KeyOf(f[0]), KeyOf(s[0]), KeyOf(x));
    }
  }

  /** The case of `AtOrBeforeInsert` where `x` goes behind the first row. */
  lemma AtOrBeforeInsertBehind(x: UserNote, s: seq<UserNote>, bound: Key)
    requires Descending(s) && |s| > 0 && !KeyLe(KeyOf(s[0]), KeyOf(x))
    requires Descending(AtOrBefore(s[1..], bound))
    requires AtOrBefore(Insert(x, s[1..]), bound)
          == if KeyLe(KeyOf(x), bound) then Insert(x, AtOrBefore(s[1..], bound)) else AtOrBefore(s[1..], bound)
    ensures Descending(AtOrBefore(s, bound))
    ensures AtOrBefore(Insert(x, s), bound)
         == if KeyLe(KeyOf(x), bound) then Insert(x, AtOrBefore(s, bound)) else AtOrBefore(s, bound)
  {
    AtOrBeforeDescending(s, bound);
    var rest := Insert(x, s[1..]);
    var tail := AtOrBefore(s[1..], bound);
    assert Insert(x, s) == [s[0]] + rest;
    AtOrBeforeCons(s[0], rest, bound);
    assert s == [s[0]] + s[1..];
    AtOrBeforeCons(s[0], s[1..], bound);
    if KeyLe(KeyOf(s[0]), bound) {
      assert AtOrBefore(s, bound) == [s[0]] + tail;
      KeyLeIsTotalOrder(KeyOf(x), KeyOf(s[0]), bound);
      assert AtOrBefore(rest, bound) == Insert(x, tail);
      InsertBehind(x, s[0], tail);
    } else {
      assert AtOrBefore(s, bound) == tail;
      assert AtOrBefore(Insert(x, s), bound) == AtOrBefore(rest, bound);
    }
  }

  /** Inserting behind a larger first row. */
  lemma InsertBehind(x: UserNote, y: UserNote, s: seq<UserNote>)
    requires Descending([y] + s) && !KeyLe(KeyOf(y), KeyOf(x))
    ensures Descending(s)
    ensures Insert(x, [y] + s) == [y] + Insert(x, s)
  {
    assert ([y] + s)[1..] == s;
  }

  /** Filtering commutes with inserting one row into a descending sequence. */
  lemma {:induction false} AtOrBeforeInsert(x: UserNote, s: seq<UserNote>, bound: Key)
    requires Descending(s)
    ensures Descending(AtOrBefore(s, bound))
    ensures AtOrBefore(Insert(x, s), bound)
         == if KeyLe(KeyOf(x), bound) then Insert(x, AtOrBefore(s, bound)) else AtOrBefore(s, bound)
  {
    AtOrBeforeDescending(s, bound);
    if |s| == 0 {
    } else if KeyLe(KeyOf(s[0]), KeyOf(x)) {
      AtOrBeforeInsertFront(x, s, bound);
    } else {
      AtOrBeforeInsert(x, s[1..], bound);
      AtOrBeforeInsertBehind(x, s, bound);
    }
  }

  /** Sorting the filtered rows gives the filtered sorted rows: the database may apply
      the cursor predicate before or after ordering. */
  lemma {:induction false} SortAtOrBefore(rows: seq<UserNote>, bound: Key)
    ensures SortDesc(AtOrBefore(rows, bound)) == AtOrBefore(SortDesc(rows), bound)
  {
    if |rows| > 0 {
      var rest := rows[1..];
      SortAtOrBefore(rest, bound);
      AtOrBeforeInsert(rows[0], SortDesc(rest), bound);
      if KeyLe(KeyOf(rows[0]), bound) {
        var f := [rows[0]] + AtOrBefore(rest, bound);
        assert f[0] == rows[0] && f[1..] == AtOrBefore(rest, bound);
      }
    }
  }

  /** The number of leading rows whose key exceeds `bound`. */
  function Skipped(s: seq<UserNote>, bound: Key): (k: nat)
    ensures k <= |s|
    ensures forall i :: 0 <= i < k ==> !KeyLe(KeyOf(s[i]), bound)
    ensures k < |s| ==> KeyLe(KeyOf(s[k]), bound)
  {
    if |s| == 0 || KeyLe(KeyOf(s[0]), bound) then 0
    else 1 + Skipped(s[1..], bound)
  }

  /** A filter that keeps every row is the identity. */
  lemma {:induction false} AtOrBeforeKeepsAll(s: seq<UserNote>, bound: Key)
    requires forall i :: 0 <= i < |s| ==> KeyLe(KeyOf(s[i]), bound)
    ensures AtOrBefore(s, bound) == s
  {
    if |s| > 0 {
      AtOrBeforeKeepsAll(s[1..], bound);
      assert s == [s[0]] + s[1..];
    }
  }

  /** On descending rows the cursor predicate selects a suffix: everything from the
      first row at or below the bound onwards. */
  lemma {:induction false} AtOrBeforeIsSuffix(s: seq<UserNote>, bound: Key)
    requires Descending(s)
    ensures AtOrBefore(s, bound) == s[Skipped(s, bound)..]
  {
    if |s| > 0 {
      if KeyLe(KeyOf(s[0]), bound) {
        forall i | 0 <= i < |s|
          ensures KeyLe(KeyOf(s[i]), bound)
        {
          KeyLeIsTotalOrder(KeyOf(s[i]), KeyOf(s[0]), bound);
        }
        AtOrBeforeKeepsAll(s, bound);
      } else {
        AtOrBeforeIsSuffix(s[1..], bound);
        assert s[1..][Skipped(s[1..], bound)..] == s[1 + Skipped(s[1..], bound)..];
      }
    }
  }

  /** In a strictly descending sequence, bounding by the key of row `k` skips exactly the
      `k` rows before it. */
  lemma SkippedAtRow(s: seq<UserNote>, k: int)
    requires StrictlyDescending(s)
    requires 0 <= k < |s|
    ensures Skipped(s, KeyOf(s[k])) == k
  {
    var j := Skipped(s, KeyOf(s[k]));
    KeyLeIsTotalOrder(KeyOf(s[k]), KeyOf(s[k]), KeyOf(s[k]));
    if j < k {
      KeyLeIsTotalOrder(KeyOf(s[k]), KeyOf(s[j]), KeyOf(s[k]));
    }
  }

  /** With unique ids, every row occurs at most once. */
  lemma {:induction false} UniqueIdsOnce(s: seq<UserNote>, x: UserNote)
    requires UniqueIds(s)
    ensures multiset(s)[x] <= 1
  {
    if |s| > 0 {
      assert s == [s[0]] + s[1..];
      UniqueIdsOnce(s[1..], x);
      if x == s[0] {
        assert x !in s[1..];
      }
    }
  }

  /** A row at two positions occurs at least twice. */
  lemma TwoPositions(s: seq<UserNote>, i: int, j: int)
    requires 0 <= i < j < |s| && s[i] == s[j]
    ensures multiset(s)[s[i]] >= 2
  {
    assert s == s[..j] + [s[j]] + s[j + 1..];
    assert s[i] in s[..j];
  }

  /** Unique ids survive any permutation of the rows. */
  lemma UniqueIdsPermutation(a: seq<UserNote>, b: seq<UserNote>)
    requires multiset(a) == multiset(b)
    requires UniqueIds(a)
    ensures UniqueIds(b)
  {
    forall i, j | 0 <= i < j < |b|
      ensures b[i].id != b[j].id
    {
      if b[i] == b[j] {
        TwoPositions(b, i, j);
        UniqueIdsOnce(a, b[i]);
      } else {
        assert b[i] in multiset(a) && b[j] in multiset(a);
        var p :| 0 <= p < |a| && a[p] == b[i];
        var q :| 0 <= q < |a| && a[q] == b[j];
        assert p != q;
      }
    }
  }

  /** With unique ids the database order is strict: `(NoteDate, Id)` never repeats. */
  lemma SortStrict(rows: seq<UserNote>)
    requires UniqueIds(rows)
    ensures UniqueIds(SortDesc(rows))
    ensures StrictlyDescending(SortDesc(rows))
  {
    var s := SortDesc(rows);
    UniqueIdsPermutation(rows, s);
  }
}
