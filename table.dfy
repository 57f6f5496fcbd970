/**
 * The cleaned customer table as the sidebar sees it: one record per row with
 * the four columns the filters and metrics read, and row selection by a
 * boolean mask (`df[mask]`), which keeps the selected rows in table order.
 */
module Table {

  datatype Customer = Customer(contract: string, age: int, offer: string, status: string)

  /** Selection by a boolean mask: the rows satisfying `keep`, in their original order. */
  function Select<T(==,!new)>(rows: seq<T>, keep: T -> bool): (r: seq<T>)
    ensures |r| <= |rows|
    ensures forall x :: x in r <==> x in rows && keep(x)
    ensures forall x :: multiset(r)[x] == (if keep(x) then multiset(rows)[x] else 0)
  {
    if rows == [] then []
    else
      assert rows == [rows[0]] + rows[1..];
      (if keep(rows[0]) then [rows[0]] else []) + Select(rows[1..], keep)
  }

  /** `a` is `b` with some elements taken out and the rest left in order. */
  predicate IsSubseq<T(==)>(a: seq<T>, b: seq<T>)
    decreases |b|
  {
    |a| <= |b| && (a == [] || (a[0] == b[0] && IsSubseq(a[1..], b[1..])) || IsSubseq(a, b[1..]))
  }

  lemma {:induction false} SelectIsSubseq<T(!new)>(rows: seq<T>, keep: T -> bool)
    ensures IsSubseq(Select(rows, keep), rows)
  {
    if rows != [] {
      SelectIsSubseq(rows[1..], keep);
      var r := Select(rows, keep);
      if keep(rows[0]) {
        assert r[0] == rows[0] && r[1..] == Select(rows[1..], keep);
      } else {
        assert r == Select(rows[1..], keep);
      }
    }
  }

  /** Selection only looks at the rows it is given: two masks that agree on them select alike. */
  lemma {:induction false} SelectAgree<T(!new)>(rows: seq<T>, p: T -> bool, q: T -> bool)
    requires forall x :: x in rows ==> p(x) == q(x)
    ensures Select(rows, p) == Select(rows, q)
  {
    if rows != [] {
      SelectAgree(rows[1..], p, q);
    }
  }

  /** A mask that holds on every row keeps the table as it is. */
  lemma {:induction false} SelectKeepsAll<T(!new)>(rows: seq<T>, keep: T -> bool)
    requires forall x :: x in rows ==> keep(x)
    ensures Select(rows, keep) == rows
  {
    if rows != [] {
      SelectKeepsAll(rows[1..], keep);
      assert rows == [rows[0]] + rows[1..];
    }
  }

  /** A mask that holds on no row empties the table. */
  lemma {:induction false} SelectKeepsNone<T(!new)>(rows: seq<T>, keep: T -> bool)
    requires forall x :: x in rows ==> !keep(x)
    ensures Select(rows, keep) == []
  {
    if rows != [] {
      SelectKeepsNone(rows[1..], keep);
    }
  }

  /** Narrowing by `p` and then by `q` selects the rows satisfying both. */
  lemma {:induction false} SelectThenSelect<T(!new)>(rows: seq<T>, p: T -> bool, q: T -> bool, both: T -> bool)
    requires forall x :: both(x) == (p(x) && q(x))
    ensures Select(Select(rows, p), q) == Select(rows, both)
  {
    if rows != [] {
      SelectThenSelect(rows[1..], p, q, both);
      var s := Select(rows, p);
      if p(rows[0]) {
        assert s == [rows[0]] + Select(rows[1..], p);
        assert s[1..] == Select(rows[1..], p);
      } else {
        assert s == Select(rows[1..], p);
      }
    }
  }
}
