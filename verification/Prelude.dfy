/** Shared result types and the few sequence facts that several components use. */
module Prelude {

  datatype Option<+T> = None | Some(value: T)

  /** The outcome of an operation that the source either completes or aborts with an exception. */
  datatype Result<+T, +E> = Ok(value: T) | Err(error: E) {
    predicate IsFailure() { Err? }

    function PropagateFailure<U>(): Result<U, E>
      requires Err?
    {
      Err(error)
    }

    function Extract(): T
      requires Ok?
    {
      value
    }
  }

  function Min(a: int, b: int): int { if a <= b then a else b }

  function Max(a: int, b: int): int { if a <= b then b else a }

  function Last<T>(s: seq<T>): T
    requires s != []
  {
    s[|s| - 1]
  }

  lemma ConcatAssociates<T>(a: seq<T>, b: seq<T>, c: seq<T>)
    ensures (a + b) + c == a + (b + c)
  {
  }

  lemma ConcatSplitsFirst<T>(a: seq<T>, b: seq<T>)
    requires a != []
    ensures [a[0]] + a[1..] == a && [a[0]] + (a[1..] + b) == a + b
  {
  }

  lemma ConcatSplitsLast<T>(a: seq<T>, b: seq<T>)
    requires b != []
    ensures b[..|b| - 1] + [Last(b)] == b && (a + b[..|b| - 1]) + [Last(b)] == a + b
  {
  }

  ghost predicate Distinct<T>(s: seq<T>) {
    forall i, j :: 0 <= i < j < |s| ==> s[i] != s[j]
  }

  /** Each element once, at its last occurrence. */
  function Dedup<T(==,!new)>(s: seq<T>): (unique: seq<T>)
    ensures Distinct(unique)
    ensures forall x :: x in unique <==> x in s
  {
    if s == [] then []
    else
      var rest := Dedup(s[1..]);
      if s[0] in rest then rest else [s[0]] + rest
  }

  lemma {:induction false} MulStep(d: nat, x: int, y: int)
    requires x > y
    ensures d * x >= d * y + d
  {
    if d > 0 {
      MulStep(d - 1, x, y);
      assert d * x == (d - 1) * x + x && d * y == (d - 1) * y + y;
    }
  }

  lemma MulPrevious(d: nat, x: nat)
    requires x > 0
    ensures d * x == d * (x - 1) + d
  {
  }

  lemma DivGrows(a: nat, b: nat, d: nat)
    requires a <= b && d > 0
    ensures 0 <= a / d <= b / d
  {
    var x, y := a / d, b / d;
    assert a == d * x + a % d && b == d * y + b % d;
    if x > y {
      MulStep(d, x, y);
    }
  }

  /** A list has no duplicates exactly when it has as many elements as positions. */
  lemma {:induction false} DistinctCount<T(!new)>(s: seq<T>)
    ensures Distinct(s) <==> |set x | x in s| == |s|
    ensures |set x | x in s| <= |s|
  {
    if s != [] {
      var head, tail := s[0], s[1..];
      DistinctCount(tail);
      assert s == [head] + tail;
      assert (set x | x in s) == {head} + (set x | x in tail);
      if head in tail {
        var j :| 0 <= j < |tail| && tail[j] == head;
        assert s[0] == s[j + 1];
      } else {
        DistinctCons(head, tail);
      }
    }
  }

  lemma DistinctCons<T>(head: T, tail: seq<T>)
    requires head !in tail
    ensures Distinct([head] + tail) <==> Distinct(tail)
  {
    var s := [head] + tail;
    if Distinct(s) {
      forall i, j | 0 <= i < j < |tail|
        ensures tail[i] != tail[j]
      {
        assert s[i + 1] != s[j + 1];
      }
    }
  }
}
