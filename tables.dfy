/** Tables as sequences of rows, and the row filter that a `WHERE` clause applies. */
module Tables {

  /** The rows of `rows` for which `keep` holds, in table order: what
      `SELECT * ... WHERE keep` returns, or what a `DELETE ... WHERE !keep` leaves. */
  function Where<T(!new)>(rows: seq<T>, keep: T -> bool): (r: seq<T>)
    ensures |r| <= |rows|
    ensures forall x :: x in r <==> x in rows && keep(x)
  {
    if rows == [] then []
    else (if keep(rows[0]) then [rows[0]] else []) + Where(rows[1..], keep)
  }

  /** The filter keeps each row that satisfies `keep` exactly as often as the table
      has it, and no other row. */
  lemma {:induction false} WhereCounts<T(!new)>(rows: seq<T>, keep: T -> bool)
    ensures forall x :: multiset(Where(rows, keep))[x] == if keep(x) then multiset(rows)[x] else 0
  {
    if rows != [] {
      WhereCounts(rows[1..], keep);
      assert rows == [rows[0]] + rows[1..];
    }
  }

  /** Filtering an already filtered table by the same condition changes nothing. */
  lemma {:induction false} WhereIdempotent<T(!new)>(rows: seq<T>, keep: T -> bool)
    ensures Where(Where(rows, keep), keep) == Where(rows, keep)
  {
    if rows != [] {
      var tail := Where(rows[1..], keep);
      WhereIdempotent(rows[1..], keep);
      if keep(rows[0]) {
        assert Where(rows, keep) == [rows[0]] + tail;
        assert ([rows[0]] + tail)[1..] == tail;
      } else {
        assert Where(rows, keep) == tail;
      }
    }
  }

  /** A filter that every row already satisfies leaves the table as it is. */
  lemma {:induction false} WhereAll<T(!new)>(rows: seq<T>, keep: T -> bool)
    requires forall x :: x in rows ==> keep(x)
    ensures Where(rows, keep) == rows
  {
    if rows != [] {
      assert rows[0] in rows;
      assert forall x :: x in rows[1..] ==> x in rows;
      WhereAll(rows[1..], keep);
      assert [rows[0]] + rows[1..] == rows;
    }
  }
}
