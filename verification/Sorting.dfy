/** Sorting names: what the standard sort of a list of strings returns. */
module Sorting {

  /** Go's string order: lexicographic by character. */
  predicate Leq(a: string, b: string)
  {
    a == [] || (b != [] && (a[0] < b[0] || (a[0] == b[0] && Leq(a[1..], b[1..]))))
  }

  /** At `k` the strings first differ, and `a` is smaller there or ends there. */
  predicate SmallerAt(a: string, b: string, k: nat)
  {
    k <= |a| && k <= |b| && a[..k] == b[..k] && (k == |a| || (k < |b| && a[k] < b[k]))
  }

  /** Lexicographic: the first string is a prefix of the second, or smaller at the first difference. */
  lemma {:induction false} LeqIsLexicographic(a: string, b: string)
    ensures Leq(a, b) <==> exists k: nat :: SmallerAt(a, b, k)
  {
    if a == [] {
      assert SmallerAt(a, b, 0);
    } else if b != [] && a[0] == b[0] {
      var c, d := a[1..], b[1..];
      LeqIsLexicographic(c, d);
      assert a == [a[0]] + c && b == [a[0]] + d;
      if k: nat :| SmallerAt(c, d, k) {
        assert a[..k + 1] == [a[0]] + c[..k] && b[..k + 1] == [a[0]] + d[..k];
        assert SmallerAt(a, b, k + 1);
      }
      if k: nat :| SmallerAt(a, b, k) {
        if k > 0 {
          assert c[..k - 1] == a[..k][1..] && d[..k - 1] == b[..k][1..];
          assert SmallerAt(c, d, k - 1);
        }
      }
    } else if b != [] {
      assert a[0] < b[0] ==> SmallerAt(a, b, 0);
      forall k: nat | SmallerAt(a, b, k) ensures a[0] < b[0] {
        assert k > 0 ==> a[..k][0] == b[..k][0];
      }
    }
  }

  predicate Ascending(names: seq<string>)
  {
    forall i, j :: 0 <= i < j < |names| ==> Leq(names[i], names[j])
  }

  lemma {:induction false} LeqTotal(a: string, b: string)
    ensures Leq(a, b) || Leq(b, a)
    ensures Leq(a, b) && Leq(b, a) ==> a == b
  {
    if a != [] && b != [] {
      LeqTotal(a[1..], b[1..]);
      assert a == [a[0]] + a[1..] && b == [b[0]] + b[1..];
    }
  }

  lemma {:induction false} LeqTransitive(a: string, b: string, c: string)
    requires Leq(a, b) && Leq(b, c)
    ensures Leq(a, c)
  {
    if a != [] && a[0] == b[0] && b[0] == c[0] {
      LeqTransitive(a[1..], b[1..], c[1..]);
    }
  }

  function Insert(names: seq<string>, x: string): seq<string>
  {
    if names == [] then [x]
    else if Leq(names[|names| - 1], x) then names + [x]
    else Insert(names[..|names| - 1], x) + [names[|names| - 1]]
  }

  /** The names in ascending order. */
  function Sorted(names: seq<string>): seq<string>
  {
    if names == [] then [] else Insert(Sorted(names[..|names| - 1]), names[|names| - 1])
  }

  lemma {:induction false} InsertMultiset(names: seq<string>, x: string)
    ensures multiset(Insert(names, x)) == multiset(names) + multiset{x}
  {
    if names != [] {
      InsertMultiset(names[..|names| - 1], x);
      assert names == names[..|names| - 1] + [names[|names| - 1]];
    }
  }

  lemma InsertMember(names: seq<string>, x: string, y: string)
    ensures y in Insert(names, x) <==> y in names || y == x
  {
    InsertMultiset(names, x);
    assert y in multiset(Insert(names, x)) <==> y in multiset(names) + multiset{x};
  }

  lemma AscendingEnd(front: seq<string>, last: string)
    requires Ascending(front) && forall y :: y in front ==> Leq(y, last)
    ensures Ascending(front + [last])
  {
  }

  lemma {:induction false} InsertAscending(names: seq<string>, x: string)
    requires Ascending(names)
    ensures Ascending(Insert(names, x))
  {
    if names != [] {
      var front, last := names[..|names| - 1], names[|names| - 1];
      LeqTotal(last, x);
      if Leq(last, x) {
        forall y | y in names ensures Leq(y, x) {
          LeqTotal(y, y);
          LeqTransitive(y, last, x);
        }
        AscendingEnd(names, x);
      } else {
        InsertAscending(front, x);
        forall y | y in Insert(front, x) ensures Leq(y, last) {
          InsertMember(front, x, y);
        }
        AscendingEnd(Insert(front, x), last);
      }
    }
  }

  lemma {:induction false} SortedAscending(names: seq<string>)
    ensures Ascending(Sorted(names))
  {
    if names != [] {
      SortedAscending(names[..|names| - 1]);
      InsertAscending(Sorted(names[..|names| - 1]), names[|names| - 1]);
    }
  }

  lemma {:induction false} SortedMultiset(names: seq<string>)
    ensures multiset(Sorted(names)) == multiset(names)
  {
    if names != [] {
      var front, last := names[..|names| - 1], names[|names| - 1];
      SortedMultiset(front);
      InsertMultiset(Sorted(front), last);
      assert names == front + [last];
    }
  }

  lemma SortedIsSort(names: seq<string>)
    ensures Ascending(Sorted(names)) && multiset(Sorted(names)) == multiset(names)
  {
    SortedAscending(names);
    SortedMultiset(names);
  }

  lemma SortedMember(names: seq<string>, x: string)
    ensures x in Sorted(names) <==> x in names
  {
    SortedIsSort(names);
    assert x in multiset(Sorted(names)) <==> x in multiset(names);
  }

  /** An ascending list starts with its least member. */
  lemma AscendingHead(a: seq<string>, x: string)
    requires Ascending(a) && x in a
    ensures Leq(a[0], x)
  {
    LeqTotal(x, x);
  }

  lemma DropHead(a: seq<string>)
    requires a != []
    ensures multiset(a[1..]) == multiset(a) - multiset{a[0]}
  {
    assert a == [a[0]] + a[1..];
  }

  lemma SameHead(a: seq<string>, b: seq<string>)
    requires Ascending(a) && Ascending(b) && multiset(a) == multiset(b) && a != [] && b != []
    ensures a[0] == b[0]
  {
    assert a[0] in multiset(b) && b[0] in multiset(a);
    AscendingHead(a, b[0]);
    AscendingHead(b, a[0]);
    LeqTotal(a[0], b[0]);
  }

  lemma AscendingTail(a: seq<string>)
    requires Ascending(a) && a != []
    ensures Ascending(a[1..])
  {
  }

  /** Ascending lists of the same names are equal element by element. */
  lemma {:induction false} AscendingUnique(a: seq<string>, b: seq<string>)
    requires Ascending(a) && Ascending(b) && multiset(a) == multiset(b)
    ensures a == b
  {
    assert |multiset(a)| == |a| && |multiset(b)| == |b|;
    if a != [] {
      SameHead(a, b);
      DropHead(a);
      DropHead(b);
      AscendingTail(a);
      AscendingTail(b);
      AscendingUnique(a[1..], b[1..]);
      assert a == [a[0]] + a[1..] && b == [b[0]] + b[1..];
    }
  }

  lemma SameSorted(x: seq<string>, y: seq<string>)
    requires multiset(x) == multiset(y)
    ensures Sorted(x) == Sorted(y) && |x| == |y|
  {
    SortedIsSort(x);
    SortedIsSort(y);
    AscendingUnique(Sorted(x), Sorted(y));
    assert |multiset(x)| == |x| && |multiset(y)| == |y|;
  }
}
