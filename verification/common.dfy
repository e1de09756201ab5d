/** Shared vocabulary of the model: optional values, results, and the handful of
    relational-table operations the handlers use. A table is a sequence of rows in
    primary-key order, which is also insertion order, so "the first row of a
    SELECT" is the first matching row of the sequence. */
module Common {

  datatype Option<T> = None | Some(value: T)

  datatype Result<T, E> = Ok(value: T) | Err(error: E)

  /** Position of the first row satisfying `p`, or `|s|` when no row does: the
      row a handler reads as `results[0]` after `SELECT ... WHERE p`. */
  function FirstWhere<T>(s: seq<T>, p: T -> bool): (k: nat)
    ensures k <= |s|
    ensures k < |s| ==> p(s[k])
    ensures forall i :: 0 <= i < k ==> !p(s[i])
    decreases |s|
  {
    if s == [] then 0
    else if p(s[0]) then 0
    else 1 + FirstWhere(s[1..], p)
  }

  /** The first row is pinned down by its two defining properties. */
  lemma FirstWhereIs<T>(s: seq<T>, p: T -> bool, k: nat)
    requires k <= |s|
    requires k < |s| ==> p(s[k])
    requires forall i :: 0 <= i < k ==> !p(s[i])
    ensures FirstWhere(s, p) == k
  {
  }

  /** Number of rows satisfying `p`: `SELECT COUNT(*) ... WHERE p`, or the
      length of the result of `SELECT ... WHERE p`. */
  function Count<T>(s: seq<T>, p: T -> bool): (n: nat)
    ensures n <= |s|
    ensures n == 0 <==> forall i :: 0 <= i < |s| ==> !p(s[i])
    ensures n == 0 <==> forall x :: x in s ==> !p(x)
    decreases |s|
  {
    if s == [] then 0
    else (if p(s[0]) then 1 else 0) + Count(s[1..], p)
  }

  /** A predicate that only the row at `k` satisfies counts one row. */
  lemma {:induction false} CountOne<T>(s: seq<T>, p: T -> bool, k: nat)
    requires k < |s| && p(s[k])
    requires forall i :: 0 <= i < |s| && i != k ==> !p(s[i])
    ensures Count(s, p) == 1
    decreases |s|
  {
    if k == 0 {
      assert forall i :: 0 <= i < |s[1..]| ==> !p(s[1..][i]) by {
        forall i | 0 <= i < |s[1..]| ensures !p(s[1..][i]) {
          assert s[1..][i] == s[i + 1];
        }
      }
    } else {
      CountOne(s[1..], p, k - 1);
    }
  }

  lemma {:induction false} CountAppend<T>(s: seq<T>, x: T, p: T -> bool)
    ensures Count(s + [x], p) == Count(s, p) + (if p(x) then 1 else 0)
    decreases |s|
  {
    if s != [] {
      assert (s + [x])[1..] == s[1..] + [x];
      CountAppend(s[1..], x, p);
    }
  }

  /** The count over a one-row table. */
  lemma CountSingle<T>(a: T, p: T -> bool)
    ensures Count([a], p) == if p(a) then 1 else 0
  {
    assert [a][1..] == [];
  }

  /** The count over a two-row table. */
  lemma CountPair<T>(a: T, b: T, p: T -> bool)
    ensures Count([a, b], p) == (if p(a) then 1 else 0) + (if p(b) then 1 else 0)
  {
    assert [a, b][1..] == [b];
    assert [b][1..] == [];
  }

  /** Replacing one row changes the count by what that row contributed. */
  lemma {:induction false} CountUpdate<T>(s: seq<T>, k: nat, x: T, p: T -> bool)
    requires k < |s|
    ensures Count(s[k := x], p) == Count(s, p) - (if p(s[k]) then 1 else 0) + (if p(x) then 1 else 0)
    decreases |s|
  {
    if k == 0 {
      assert s[k := x][1..] == s[1..];
    } else {
      assert s[k := x][1..] == s[1..][k - 1 := x];
      CountUpdate(s[1..], k - 1, x, p);
    }
  }

  /** The table after `UPDATE ... SET g WHERE p`: every matching row rewritten
      by `g`, every other row as it was, in place. */
  function UpdateWhere<T>(s: seq<T>, p: T -> bool, g: T -> T): (r: seq<T>)
    ensures |r| == |s|
    ensures forall i :: 0 <= i < |s| ==> r[i] == if p(s[i]) then g(s[i]) else s[i]
  {
    seq(|s|, i requires 0 <= i < |s| => if p(s[i]) then g(s[i]) else s[i])
  }

  /** When `p` picks out exactly the row at `k` (a primary-key match), the
      update rewrites that row alone. */
  lemma UpdateWhereOne<T>(s: seq<T>, p: T -> bool, g: T -> T, k: nat)
    requires k < |s| && p(s[k])
    requires forall i :: 0 <= i < |s| && i != k ==> !p(s[i])
    ensures UpdateWhere(s, p, g) == s[k := g(s[k])]
  {
  }

  /** An update that matches nothing leaves the table as it was. */
  lemma UpdateNothing<T>(s: seq<T>, p: T -> bool, g: T -> T)
    requires forall i :: 0 <= i < |s| ==> !p(s[i])
    ensures UpdateWhere(s, p, g) == s
  {
  }

  /** Writing a row and then writing back what was there before gives the
      table as it was. */
  lemma WriteBack<T>(s: seq<T>, k: nat, x: T)
    requires k < |s|
    ensures s[k := x][k := s[k]] == s
  {
  }

  /** Writing a row over itself changes nothing. */
  lemma WriteSame<T>(s: seq<T>, k: nat)
    requires k < |s|
    ensures s[k := s[k]] == s
  {
  }

  /** The table after `DELETE ... WHERE p`: the rows not satisfying `p`, in their
      original order. The number of rows removed is the count of matching rows. */
  function DeleteWhere<T(==, !new)>(s: seq<T>, p: T -> bool): (r: seq<T>)
    ensures |r| == |s| - Count(s, p)
    decreases |s|
  {
    if s == [] then []
    else (if p(s[0]) then [] else [s[0]]) + DeleteWhere(s[1..], p)
  }

  /** A delete keeps every row not satisfying `p` (as often as the table had
      it) and no row satisfying it. */
  lemma {:induction false} DeleteWhereKeeps<T(!new)>(s: seq<T>, p: T -> bool)
    ensures forall x :: multiset(DeleteWhere(s, p))[x] == if p(x) then 0 else multiset(s)[x]
    decreases |s|
  {
    if s != [] {
      DeleteWhereKeeps(s[1..], p);
      assert s == [s[0]] + s[1..];
    }
  }

  /** Deleting from a table with a first row decides that row, then the rest. */
  lemma DeleteWhereCons<T(!new)>(x: T, s: seq<T>, p: T -> bool)
    ensures DeleteWhere([x] + s, p) == (if p(x) then [] else [x]) + DeleteWhere(s, p)
  {
    assert ([x] + s)[1..] == s;
  }

  /** A delete works row by row: on a table made of two parts it deletes
      from each part. */
  lemma {:induction false} DeleteWhereAppend<T(!new)>(s: seq<T>, t: seq<T>, p: T -> bool)
    ensures DeleteWhere(s + t, p) == DeleteWhere(s, p) + DeleteWhere(t, p)
    decreases |s|
  {
    if s == [] {
      assert s + t == t;
    } else {
      var x, rest := s[0], s[1..];
      var head := if p(x) then [] else [x];
      assert s == [x] + rest;
      calc {
        DeleteWhere(s + t, p);
        { assert s + t == [x] + (rest + t); }
        DeleteWhere([x] + (rest + t), p);
        { DeleteWhereCons(x, rest + t, p); }
        head + DeleteWhere(rest + t, p);
        { DeleteWhereAppend(rest, t, p); }
        head + (DeleteWhere(rest, p) + DeleteWhere(t, p));
        (head + DeleteWhere(rest, p)) + DeleteWhere(t, p);
        { DeleteWhereCons(x, rest, p); }
        DeleteWhere(s, p) + DeleteWhere(t, p);
      }
    }
  }

  /** A delete that matches nothing leaves the table exactly as it was. */
  lemma {:induction false} DeleteNothing<T(!new)>(s: seq<T>, p: T -> bool)
    requires Count(s, p) == 0
    ensures DeleteWhere(s, p) == s
    decreases |s|
  {
    if s != [] {
      assert !p(s[0]);
      DeleteNothing(s[1..], p);
      assert s == [s[0]] + s[1..];
    }
  }

  /** `rel` holds between every row and every later row of the table: the
      shape of every table invariant of the model (distinct keys, timestamps
      that never decrease). */
  ghost predicate Pairwise<T>(s: seq<T>, rel: (T, T) -> bool)
  {
    forall i, j :: 0 <= i < j < |s| ==> rel(s[i], s[j])
  }

  lemma PairwiseTail<T>(s: seq<T>, rel: (T, T) -> bool)
    requires s != [] && Pairwise(s, rel)
    ensures Pairwise(s[1..], rel)
    ensures forall x :: x in s[1..] ==> rel(s[0], x)
  {
    forall i, j | 0 <= i < j < |s[1..]| ensures rel(s[1..][i], s[1..][j]) {
      assert s[1..][i] == s[i + 1] && s[1..][j] == s[j + 1];
    }
    forall x | x in s[1..] ensures rel(s[0], x) {
      var j :| 0 <= j < |s[1..]| && s[1..][j] == x;
      assert s[j + 1] == x;
    }
  }

  lemma PairwiseCons<T>(x: T, t: seq<T>, rel: (T, T) -> bool)
    requires Pairwise(t, rel)
    requires forall y :: y in t ==> rel(x, y)
    ensures Pairwise([x] + t, rel)
  {
    var r := [x] + t;
    forall i, j | 0 <= i < j < |r| ensures rel(r[i], r[j]) {
      assert r[j] == t[j - 1];
      if i > 0 {
        assert r[i] == t[i - 1];
      }
    }
  }

  /** Appending a row that stands in `rel` to every earlier row keeps the
      invariant: the proof obligation of every INSERT. */
  lemma PairwiseSnoc<T>(s: seq<T>, x: T, rel: (T, T) -> bool)
    requires Pairwise(s, rel)
    requires forall y :: y in s ==> rel(y, x)
    ensures Pairwise(s + [x], rel)
  {
    var r := s + [x];
    forall i, j | 0 <= i < j < |r| ensures rel(r[i], r[j]) {
      assert r[i] == s[i];
      if j < |s| {
        assert r[j] == s[j];
      }
    }
  }

  /** Deleting rows keeps every pairwise invariant of the survivors. */
  lemma {:induction false} DeleteKeepsPairwise<T(!new)>(s: seq<T>, p: T -> bool, rel: (T, T) -> bool)
    requires Pairwise(s, rel)
    ensures Pairwise(DeleteWhere(s, p), rel)
    decreases |s|
  {
    if s != [] {
      var rest := DeleteWhere(s[1..], p);
      DeleteWhereKeeps(s[1..], p);
      PairwiseTail(s, rel);
      DeleteKeepsPairwise(s[1..], p, rel);
      if !p(s[0]) {
        forall y | y in rest ensures rel(s[0], y) {
          assert multiset(rest)[y] > 0;
        }
        PairwiseCons(s[0], rest, rel);
      }
    }
  }

  /** The rows satisfying `keep`, most recently inserted first: the result of
      `SELECT ... WHERE keep ORDER BY <insertion time> DESC` when insertion times
      never decrease along the table. */
  function NewestFirst<T(==, !new)>(s: seq<T>, keep: T -> bool): (r: seq<T>)
    ensures forall x :: multiset(r)[x] == if keep(x) then multiset(s)[x] else 0
    decreases |s|
  {
    if s == [] then []
    else
      assert s == [s[0]] + s[1..];
      NewestFirst(s[1..], keep) + (if keep(s[0]) then [s[0]] else [])
  }

  /** NewestFirst reverses the table order: a relation that holds from every
      row to every later row of the table holds from every row of the result to
      every earlier one. With `rel` "inserted no later than", the result is
      ordered newest first. */
  lemma {:induction false} NewestFirstReverses<T(!new)>(s: seq<T>, keep: T -> bool, rel: (T, T) -> bool)
    requires Pairwise(s, rel)
    ensures forall i, j :: 0 <= i < j < |NewestFirst(s, keep)| ==> rel(NewestFirst(s, keep)[j], NewestFirst(s, keep)[i])
    decreases |s|
  {
    if s != [] {
      var rest := NewestFirst(s[1..], keep);
      PairwiseTail(s, rel);
      NewestFirstReverses(s[1..], keep, rel);
      forall i | 0 <= i < |rest| ensures rel(s[0], rest[i]) {
        assert multiset(rest)[rest[i]] > 0;
      }
      if keep(s[0]) {
        var r := rest + [s[0]];
        assert NewestFirst(s, keep) == r;
        forall i, j | 0 <= i < j < |r| ensures rel(r[j], r[i]) {
          if j < |rest| {
            assert r[i] == rest[i] && r[j] == rest[j];
          } else {
            assert r[i] == rest[i] && r[j] == s[0];
          }
        }
      } else {
        assert NewestFirst(s, keep) == rest;
      }
    }
  }
}
