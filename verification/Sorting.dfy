/** Go's order on strings and sort.Strings, with the one fact callers rely on: the result is canonical. */
module Sorting {
  import opened Octets

  /** The byte-wise lexicographic order of Go strings. */
  predicate Leq(a: Bytes, b: Bytes) {
    a == [] || (b != [] && (a[0] < b[0] || (a[0] == b[0] && Leq(a[1..], b[1..]))))
  }

  lemma {:induction false} LeqTotal(a: Bytes, b: Bytes)
    ensures Leq(a, b) || Leq(b, a)
  {
    if a != [] && b != [] {
      LeqTotal(a[1..], b[1..]);
    }
  }

  lemma {:induction false} LeqAntisymmetric(a: Bytes, b: Bytes)
    requires Leq(a, b) && Leq(b, a)
    ensures a == b
  {
    if a != [] {
      LeqAntisymmetric(a[1..], b[1..]);
      assert a == [a[0]] + a[1..] && b == [b[0]] + b[1..];
    }
  }

  lemma {:induction false} LeqTransitive(a: Bytes, b: Bytes, c: Bytes)
    requires Leq(a, b) && Leq(b, c)
    ensures Leq(a, c)
  {
    if a != [] && a[0] == b[0] && b[0] == c[0] {
      LeqTransitive(a[1..], b[1..], c[1..]);
    }
  }

  function Insert(x: Bytes, s: seq<Bytes>): seq<Bytes> {
    if s == [] || Leq(x, s[0]) then [x] + s else [s[0]] + Insert(x, s[1..])
  }

  /** sort.Strings. */
  function SortStrings(s: seq<Bytes>): seq<Bytes> {
    if s == [] then [] else Insert(s[0], SortStrings(s[1..]))
  }

  ghost predicate Sorted(s: seq<Bytes>) {
    forall i, j :: 0 <= i < j < |s| ==> Leq(s[i], s[j])
  }

  lemma SortedFirst(x: Bytes, s: seq<Bytes>)
    requires Sorted(s) && forall y :: y in s ==> Leq(x, y)
    ensures Sorted([x] + s)
  {
    hide Leq;
  }

  lemma InsertLater(x: Bytes, s: seq<Bytes>)
    requires s != [] && !Leq(x, s[0])
    ensures Insert(x, s) == [s[0]] + Insert(x, s[1..])
  {
    hide Leq;
  }

  lemma {:induction false} InsertSorts(x: Bytes, s: seq<Bytes>)
    requires Sorted(s)
    ensures Sorted(Insert(x, s)) && multiset(Insert(x, s)) == multiset(s) + multiset{x}
  {
    hide Leq;
    if s != [] {
      assert s == [s[0]] + s[1..];
      if Leq(x, s[0]) {
        forall y | y in s
          ensures Leq(x, y)
        {
          var j :| 0 <= j < |s| && s[j] == y;
          if j > 0 {
            LeqTransitive(x, s[0], s[j]);
          }
        }
        SortedFirst(x, s);
      } else {
        LeqTotal(x, s[0]);
        var rest := Insert(x, s[1..]);
        InsertSorts(x, s[1..]);
        InsertLater(x, s);
        hide Insert;
        forall y | y in rest
          ensures Leq(s[0], y)
        {
          assert y in multiset(rest);
          if y != x {
            assert y in s[1..];
          }
        }
        SortedFirst(s[0], rest);
      }
    }
  }

  lemma {:induction false} SortSorts(s: seq<Bytes>)
    ensures Sorted(SortStrings(s)) && multiset(SortStrings(s)) == multiset(s)
  {
    if s != [] {
      SortSorts(s[1..]);
      InsertSorts(s[0], SortStrings(s[1..]));
      assert s == [s[0]] + s[1..];
    }
  }

  lemma SameHead(a: seq<Bytes>, b: seq<Bytes>)
    requires Sorted(a) && Sorted(b) && a != [] && b != [] && b[0] in a && a[0] in b
    ensures a[0] == b[0]
  {
    hide Leq;
    if a[0] != b[0] {
      LeqAntisymmetric(a[0], b[0]);
    }
  }

  lemma Tail(a: seq<Bytes>)
    requires a != []
    ensures multiset(a[1..]) == multiset(a) - multiset{a[0]}
    ensures Sorted(a) ==> Sorted(a[1..])
  {
    hide Leq;
    assert a == [a[0]] + a[1..];
  }

  /** Two sorted sequences of the same elements are equal. */
  lemma {:induction false} SortedUnique(a: seq<Bytes>, b: seq<Bytes>)
    requires Sorted(a) && Sorted(b) && multiset(a) == multiset(b)
    ensures a == b
  {
    hide Sorted;
    assert |multiset(a)| == |a| && |multiset(b)| == |b|;
    if a != [] {
      assert a[0] in multiset(b) && b[0] in multiset(a);
      SameHead(a, b);
      Tail(a);
      Tail(b);
      SortedUnique(a[1..], b[1..]);
      assert a == [a[0]] + a[1..] && b == [b[0]] + b[1..];
    }
  }

  /** Sorting forgets exactly the order: results agree when and only when the elements do. */
  lemma SortCanonical(a: seq<Bytes>, b: seq<Bytes>)
    ensures SortStrings(a) == SortStrings(b) <==> multiset(a) == multiset(b)
  {
    SortSorts(a);
    SortSorts(b);
    if multiset(a) == multiset(b) {
      SortedUnique(SortStrings(a), SortStrings(b));
    }
  }
}
