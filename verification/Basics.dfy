/** Options, results, and the few list functions that stand for SQL queries. */
module Basics {
  datatype Option<+T> = None | Some(value: T)

  datatype Result<+T, +E> = Ok(value: T) | Err(error: E) {
    predicate IsFailure() {
      Err?
    }

    function PropagateFailure<U>(): Result<U, E>
      requires Err?
    {
      Err(error)
    }

    function Extract(): T
      requires Ok?
    {
      value
    }
  }

  /** Primary keys count up from 1 and no row is ever deleted, so a key is a position. */
  predicate Exists<T>(key: int, table: seq<T>) {
    1 <= key <= |table|
  }

  /** A text that PHP does not take for empty. */
  predicate Given(text: string) {
    text != "" && text != "0"
  }

  /** `SELECT SUM(f)`: the total of `f` over the rows, 0 for none. */
  function Sum<T>(rows: seq<T>, f: T -> real): real {
    if rows == [] then 0.0 else Sum(rows[..|rows| - 1], f) + f(rows[|rows| - 1])
  }

  /** `SELECT COUNT(*)`. */
  function Count<T>(rows: seq<T>, p: T -> bool): (n: nat)
    ensures n > 0 <==> exists i :: 0 <= i < |rows| && p(rows[i])
  {
    if rows == [] then
      0
    else
      var rest := Count(rows[..|rows| - 1], p);
      if p(rows[|rows| - 1]) then rest + 1 else rest
  }

  /** The position of the first row that satisfies `p`, which is the row `fetch()` returns. */
  function Find<T>(rows: seq<T>, p: T -> bool): (r: Option<nat>)
    ensures r.Some? ==> r.value < |rows| && p(rows[r.value]) && forall i :: 0 <= i < r.value ==> !p(rows[i])
    ensures r.None? ==> forall i :: 0 <= i < |rows| ==> !p(rows[i])
  {
    FindFrom(rows, p, 0)
  }

  function FindFrom<T>(rows: seq<T>, p: T -> bool, from: nat): (r: Option<nat>)
    requires from <= |rows|
    requires forall i :: 0 <= i < from ==> !p(rows[i])
    ensures r.Some? ==> r.value < |rows| && p(rows[r.value]) && forall i :: 0 <= i < r.value ==> !p(rows[i])
    ensures r.None? ==> forall i :: 0 <= i < |rows| ==> !p(rows[i])
    decreases |rows| - from
  {
    if from == |rows| then None
    else if p(rows[from]) then Some(from)
    else FindFrom(rows, p, from + 1)
  }

  /** `UPDATE ... SET f WHERE p`. */
  function UpdateWhere<T>(rows: seq<T>, p: T -> bool, f: T -> T): (r: seq<T>)
    ensures |r| == |rows|
    ensures forall i :: 0 <= i < |rows| ==> r[i] == if p(rows[i]) then f(rows[i]) else rows[i]
  {
    seq(|rows|, i requires 0 <= i < |rows| => if p(rows[i]) then f(rows[i]) else rows[i])
  }

  /** `UPDATE ... SET f WHERE id = key`. */
  function UpdateKey<T>(rows: seq<T>, key: int, f: T -> T): (r: seq<T>)
    ensures |r| == |rows|
    ensures forall i :: 0 <= i < |rows| ==> r[i] == if i + 1 == key then f(rows[i]) else rows[i]
  {
    if Exists(key, rows) then rows[key - 1 := f(rows[key - 1])] else rows
  }

  lemma SumAppend<T>(rows: seq<T>, row: T, f: T -> real)
    ensures Sum(rows + [row], f) == Sum(rows, f) + f(row)
  {
  }

  lemma {:induction false} SumConcat<T>(a: seq<T>, b: seq<T>, f: T -> real)
    ensures Sum(a + b, f) == Sum(a, f) + Sum(b, f)
  {
    if b == [] {
      assert a + b == a;
    } else {
      var init, last := b[..|b| - 1], b[|b| - 1];
      assert a + b == (a + init) + [last];
      SumAppend(a + init, last, f);
      SumConcat(a, init, f);
    }
  }

  lemma {:induction false} SumZero<T>(rows: seq<T>, f: T -> real)
    requires forall i :: 0 <= i < |rows| ==> f(rows[i]) == 0.0
    ensures Sum(rows, f) == 0.0
  {
    if rows != [] {
      SumZero(rows[..|rows| - 1], f);
    }
  }

  /** Two tables that agree row by row under two columns have the same total. */
  lemma {:induction false} SumAgree<T, U>(a: seq<T>, f: T -> real, b: seq<U>, g: U -> real)
    requires |a| == |b|
    requires forall i :: 0 <= i < |a| ==> f(a[i]) == g(b[i])
    ensures Sum(a, f) == Sum(b, g)
  {
    if a != [] {
      SumAgree(a[..|a| - 1], f, b[..|b| - 1], g);
    }
  }

  lemma {:induction false} SumPlus<T>(rows: seq<T>, f: T -> real, g: T -> real, h: T -> real)
    requires forall i :: 0 <= i < |rows| ==> f(rows[i]) == g(rows[i]) + h(rows[i])
    ensures Sum(rows, f) == Sum(rows, g) + Sum(rows, h)
  {
    if rows != [] {
      SumPlus(rows[..|rows| - 1], f, g, h);
    }
  }

  /** A column that is 0 in every row but one totals that row. */
  lemma {:induction false} SumOfOne<T>(rows: seq<T>, f: T -> real, k: nat)
    requires k < |rows|
    requires forall i :: 0 <= i < |rows| && i != k ==> f(rows[i]) == 0.0
    ensures Sum(rows, f) == f(rows[k])
  {
    if k == |rows| - 1 {
      SumZero(rows[..k], f);
    } else {
      SumOfOne(rows[..|rows| - 1], f, k);
    }
  }

  lemma {:induction false} SumScale<T>(rows: seq<T>, f: T -> real, factor: real, g: T -> real)
    requires forall i :: 0 <= i < |rows| ==> f(rows[i]) == g(rows[i]) * factor
    ensures Sum(rows, f) == Sum(rows, g) * factor
  {
    if rows != [] {
      SumScale(rows[..|rows| - 1], f, factor, g);
    }
  }
}
