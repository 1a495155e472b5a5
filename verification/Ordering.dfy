/** Sorting under a total order, and the order of strings. */
module Ordering {
  import opened Prelude

  ghost predicate TotalPreorder<T(!new)>(le: (T, T) -> bool) {
    && (forall a, b :: le(a, b) || le(b, a))
    && (forall a, b, c :: le(a, b) && le(b, c) ==> le(a, c))
  }

  ghost predicate TotalOrder<T(!new)>(le: (T, T) -> bool) {
    && TotalPreorder(le)
    && (forall a, b :: le(a, b) && le(b, a) ==> a == b)
  }

  ghost predicate Sorted<T>(s: seq<T>, le: (T, T) -> bool) {
    forall i, j :: 0 <= i < j < |s| ==> le(s[i], s[j])
  }

  function Insert<T>(x: T, s: seq<T>, le: (T, T) -> bool): seq<T> {
    if s == [] then [x] else if le(x, s[0]) then [x] + s else [s[0]] + Insert(x, s[1..], le)
  }

  function Sort<T>(s: seq<T>, le: (T, T) -> bool): seq<T> {
    if s == [] then [] else Insert(s[0], Sort(s[1..], le), le)
  }

  lemma SortedCons<T>(x: T, s: seq<T>, le: (T, T) -> bool)
    requires Sorted(s, le) && forall y :: y in s ==> le(x, y)
    ensures Sorted([x] + s, le)
  {
  }

  lemma SortedTail<T>(s: seq<T>, le: (T, T) -> bool)
    requires s != [] && Sorted(s, le)
    ensures Sorted(s[1..], le) && forall y :: y in s[1..] ==> le(s[0], y)
  {
  }

  lemma {:induction false} InsertElements<T>(x: T, s: seq<T>, le: (T, T) -> bool)
    ensures multiset(Insert(x, s, le)) == multiset(s) + multiset{x}
    ensures forall y :: y in Insert(x, s, le) ==> y == x || y in s
  {
    if s != [] {
      assert s == [s[0]] + s[1..];
      InsertElements(x, s[1..], le);
    }
  }

  lemma BelowAll<T(!new)>(x: T, s: seq<T>, le: (T, T) -> bool)
    requires TotalPreorder(le) && s != [] && le(x, s[0]) && forall y :: y in s[1..] ==> le(s[0], y)
    ensures forall y :: y in s ==> le(x, y)
  {
    forall y | y in s
      ensures le(x, y)
    {
      if y != s[0] {
        assert y in s[1..];
        assert le(s[0], y);
      }
    }
  }

  lemma {:induction false} InsertSorts<T(!new)>(x: T, s: seq<T>, le: (T, T) -> bool)
    requires TotalPreorder(le) && Sorted(s, le)
    ensures Sorted(Insert(x, s, le), le)
  {
    hide Sorted;
    if s == [] {
      SortedCons(x, s, le);
      assert [x] + s == [x];
    } else {
      SortedTail(s, le);
      if le(x, s[0]) {
        BelowAll(x, s, le);
        SortedCons(x, s, le);
      } else {
        InsertSorts(x, s[1..], le);
        InsertElements(x, s[1..], le);
        assert le(s[0], x);
        SortedCons(s[0], Insert(x, s[1..], le), le);
      }
    }
  }

  lemma {:induction false} SortSorts<T(!new)>(s: seq<T>, le: (T, T) -> bool)
    requires TotalPreorder(le)
    ensures Sorted(Sort(s, le), le)
    ensures multiset(Sort(s, le)) == multiset(s)
    ensures |Sort(s, le)| == |s|
  {
    if s != [] {
      SortSorts(s[1..], le);
      InsertSorts(s[0], Sort(s[1..], le), le);
      InsertElements(s[0], Sort(s[1..], le), le);
      assert s == [s[0]] + s[1..];
    }
    assert |multiset(Sort(s, le))| == |multiset(s)|;
  }

  lemma FirstIsLeast<T(!new)>(s: seq<T>, le: (T, T) -> bool, x: T)
    requires TotalPreorder(le) && Sorted(s, le) && x in s
    ensures le(s[0], x)
  {
    var i :| 0 <= i < |s| && s[i] == x;
    assert le(s[0], s[0]);
  }

  lemma SameHead<T(!new)>(a: seq<T>, b: seq<T>, le: (T, T) -> bool)
    requires TotalPreorder(le) && Sorted(a, le) && Sorted(b, le) && a != [] && b != []
    requires forall x, y :: x in a && y in a && le(x, y) && le(y, x) ==> x == y
    requires multiset(a) == multiset(b)
    ensures a[0] == b[0]
  {
    hide TotalPreorder, Sorted;
    assert a[0] in multiset(b) && b[0] in multiset(a);
    FirstIsLeast(a, le, b[0]);
    FirstIsLeast(b, le, a[0]);
  }

  /** There is one sorted arrangement of elements that the order tells apart. */
  lemma {:induction false} SortedUnique<T(!new)>(a: seq<T>, b: seq<T>, le: (T, T) -> bool)
    requires TotalPreorder(le) && Sorted(a, le) && Sorted(b, le)
    requires forall x, y :: x in a && y in a && le(x, y) && le(y, x) ==> x == y
    requires multiset(a) == multiset(b)
    ensures a == b
    decreases |a|
  {
    hide TotalPreorder;
    assert |multiset(a)| == |multiset(b)|;
    if a != [] {
      SameHead(a, b, le);
      TailMultiset(a);
      TailMultiset(b);
      SortedUnique(a[1..], b[1..], le);
      assert a == [a[0]] + a[1..] && b == [b[0]] + b[1..];
    }
  }

  lemma TailMultiset<T>(s: seq<T>)
    requires s != []
    ensures multiset(s[1..]) == multiset(s) - multiset{s[0]}
  {
    assert s == [s[0]] + s[1..];
  }

  lemma SortIgnoresOrder<T(!new)>(a: seq<T>, b: seq<T>, le: (T, T) -> bool)
    requires TotalOrder(le) && multiset(a) == multiset(b)
    ensures Sort(a, le) == Sort(b, le)
  {
    SortSorts(a, le);
    SortSorts(b, le);
    SortedUnique(Sort(a, le), Sort(b, le), le);
  }

  lemma SortedIsFixed<T(!new)>(s: seq<T>, le: (T, T) -> bool)
    requires TotalOrder(le) && Sorted(s, le)
    ensures Sort(s, le) == s
  {
    SortSorts(s, le);
    SortedUnique(Sort(s, le), s, le);
  }

  lemma {:induction false} DistinctMultiset<T>(s: seq<T>)
    requires Distinct(s)
    ensures forall x :: x in s ==> multiset(s)[x] == 1
  {
    if s != [] {
      assert s == [s[0]] + s[1..];
      DistinctMultiset(s[1..]);
      assert s[0] !in s[1..];
    }
  }

  lemma {:induction false} MultisetDistinct<T>(s: seq<T>)
    requires forall x :: x in s ==> multiset(s)[x] == 1
    ensures Distinct(s)
  {
    if s != [] {
      assert s == [s[0]] + s[1..];
      assert multiset(s)[s[0]] == 1 + multiset(s[1..])[s[0]];
      assert s[0] !in multiset(s[1..]);
      forall x | x in s[1..]
        ensures multiset(s[1..])[x] == 1
      {
        assert x in s && multiset(s)[x] == 1;
        assert x in multiset(s[1..]);
      }
      MultisetDistinct(s[1..]);
      forall i, j | 0 <= i < j < |s|
        ensures s[i] != s[j]
      {
        assert s[j] == s[1..][j - 1];
        if i > 0 {
          assert s[i] == s[1..][i - 1];
        }
      }
    }
  }

  /** Two duplicate-free lists of one set are rearrangements of each other. */
  lemma DistinctSameElements<T>(a: seq<T>, b: seq<T>)
    requires Distinct(a) && Distinct(b) && forall x :: x in a <==> x in b
    ensures multiset(a) == multiset(b)
  {
    DistinctMultiset(a);
    DistinctMultiset(b);
    forall x
      ensures multiset(a)[x] == multiset(b)[x]
    {
      assert x in a <==> x in multiset(a);
      assert x in b <==> x in multiset(b);
    }
  }

  lemma SortKeepsElements<T(!new)>(s: seq<T>, le: (T, T) -> bool)
    requires TotalOrder(le)
    ensures forall x :: x in Sort(s, le) <==> x in s
    ensures Distinct(s) ==> Distinct(Sort(s, le))
  {
    SortSorts(s, le);
    forall x
      ensures x in Sort(s, le) <==> x in s
    {
      assert x in s <==> x in multiset(s);
      assert x in Sort(s, le) <==> x in multiset(Sort(s, le));
    }
    if Distinct(s) {
      DistinctMultiset(s);
      MultisetDistinct(Sort(s, le));
    }
  }

  // ---------------------------------------------------------------- strings

  predicate IsHex(c: char) { '0' <= c <= '9' || 'a' <= c <= 'f' }

  /** The sixteen lower-case hex digits. */
  lemma HexDigit(c: char)
    ensures IsHex(c) <==> c in "0123456789abcdef"
  {
    var digits := "0123456789abcdef";
    if '0' <= c <= '9' {
      assert digits[c as int - '0' as int] == c;
    } else if 'a' <= c <= 'f' {
      assert digits[c as int - 'a' as int + 10] == c;
    }
  }

  predicate StrLe(a: string, b: string) {
    a == [] || (b != [] && (a[0] < b[0] || (a[0] == b[0] && StrLe(a[1..], b[1..]))))
  }

  predicate StrLess(a: string, b: string) {
    StrLe(a, b) && a != b
  }

  lemma {:induction false} StrLeTotal(a: string, b: string)
    ensures StrLe(a, b) || StrLe(b, a)
    ensures StrLe(a, b) && StrLe(b, a) ==> a == b
  {
    if a != [] && b != [] {
      StrLeTotal(a[1..], b[1..]);
      assert a == [a[0]] + a[1..] && b == [b[0]] + b[1..];
    }
  }

  lemma {:induction false} StrLeTransitive(a: string, b: string, c: string)
    requires StrLe(a, b) && StrLe(b, c)
    ensures StrLe(a, c)
  {
    if a != [] && a[0] == b[0] && b[0] == c[0] {
      StrLeTransitive(a[1..], b[1..], c[1..]);
    }
  }

  lemma StrLeTotalOrder()
    ensures TotalOrder(StrLe)
  {
    forall a, b
      ensures (StrLe(a, b) || StrLe(b, a)) && (StrLe(a, b) && StrLe(b, a) ==> a == b)
    {
      StrLeTotal(a, b);
    }
    forall a, b, c | StrLe(a, b) && StrLe(b, c)
      ensures StrLe(a, c)
    {
      StrLeTransitive(a, b, c);
    }
  }
}
