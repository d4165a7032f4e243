/**
 `Array.prototype.sort` with a comparator: stable, ascending, and reliable only when the
 comparator is consistent on the elements at hand (section 23.1.3.30 of ECMA-262).
 */
module Sorting {

  /** The comparator orders the elements of `s` totally and transitively. */
  ghost predicate Consistent<T>(cmp: (T, T) -> int, s: set<T>) {
    && (forall a, b :: a in s && b in s ==> cmp(a, b) <= 0 || cmp(b, a) <= 0)
    && (forall a, b, c :: a in s && b in s && c in s && cmp(a, b) <= 0 && cmp(b, c) <= 0 ==> cmp(a, c) <= 0)
  }

  ghost predicate Sorted<T>(cmp: (T, T) -> int, xs: seq<T>) {
    forall i, j :: 0 <= i < j < |xs| ==> cmp(xs[i], xs[j]) <= 0
  }

  ghost function Elements<T>(xs: seq<T>): set<T> {
    set x | x in xs
  }

  /** Puts `x` before the first element it may precede, so equal elements keep their order. */
  function Insert<T>(cmp: (T, T) -> int, x: T, xs: seq<T>): (r: seq<T>)
    ensures |r| == |xs| + 1
  {
    if xs == [] || cmp(x, xs[0]) <= 0 then [x] + xs else [xs[0]] + Insert(cmp, x, xs[1..])
  }

  function Sort<T>(cmp: (T, T) -> int, xs: seq<T>): (r: seq<T>)
    ensures |r| == |xs|
  {
    if xs == [] then [] else Insert(cmp, xs[0], Sort(cmp, xs[1..]))
  }

  lemma {:induction false} InsertPermutes<T>(cmp: (T, T) -> int, x: T, xs: seq<T>)
    ensures multiset(Insert(cmp, x, xs)) == multiset(xs) + multiset{x}
  {
    if xs != [] && cmp(x, xs[0]) > 0 {
      InsertPermutes(cmp, x, xs[1..]);
      assert xs == [xs[0]] + xs[1..];
    }
  }

  /** A sort moves elements and does nothing else. */
  lemma {:induction false} SortPermutes<T>(cmp: (T, T) -> int, xs: seq<T>)
    ensures multiset(Sort(cmp, xs)) == multiset(xs)
  {
    if xs != [] {
      hide Insert;
      SortPermutes(cmp, xs[1..]);
      InsertPermutes(cmp, xs[0], Sort(cmp, xs[1..]));
      assert xs == [xs[0]] + xs[1..];
    }
  }

  lemma SameElements<T>(xs: seq<T>, ys: seq<T>)
    requires multiset(xs) == multiset(ys)
    ensures Elements(xs) == Elements(ys)
  {
    forall x ensures x in Elements(xs) <==> x in Elements(ys) {
      assert x in Elements(xs) <==> x in multiset(xs);
      assert x in Elements(ys) <==> x in multiset(ys);
    }
  }

  lemma InsertElement<T>(cmp: (T, T) -> int, x: T, xs: seq<T>)
    ensures Elements(Insert(cmp, x, xs)) == Elements(xs) + {x}
  {
    hide Insert;
    InsertPermutes(cmp, x, xs);
    SameElements(Insert(cmp, x, xs), xs + [x]);
  }

  lemma {:induction false} InsertSorts<T>(cmp: (T, T) -> int, x: T, xs: seq<T>, s: set<T>)
    requires Consistent(cmp, s) && x in s && Elements(xs) <= s && Sorted(cmp, xs)
    ensures Sorted(cmp, Insert(cmp, x, xs))
  {
    if xs == [] {
    } else if cmp(x, xs[0]) <= 0 {
      forall j | 0 <= j < |xs| ensures cmp(x, xs[j]) <= 0 {
        assert xs[0] in Elements(xs) && xs[j] in Elements(xs);
      }
    } else {
      var rest := Insert(cmp, x, xs[1..]);
      assert Elements(xs[1..]) <= Elements(xs);
      InsertSorts(cmp, x, xs[1..], s);
      InsertElement(cmp, x, xs[1..]);
      Prepend(cmp, xs[0], rest, s, xs, x);
    }
  }

  lemma Prepend<T>(cmp: (T, T) -> int, first: T, rest: seq<T>, s: set<T>, xs: seq<T>, x: T)
    requires Consistent(cmp, s) && x in s && xs != [] && first == xs[0] && Elements(xs) <= s
    requires Sorted(cmp, xs) && Sorted(cmp, rest) && cmp(x, first) > 0
    requires Elements(rest) == Elements(xs[1..]) + {x}
    ensures Sorted(cmp, [first] + rest)
  {
    forall j | 0 <= j < |rest| ensures cmp(first, rest[j]) <= 0 {
      assert rest[j] in Elements(rest);
      if rest[j] == x {
        assert first in Elements(xs);
      } else {
        assert rest[j] in Elements(xs[1..]);
      }
    }
  }

  /** With a consistent comparator the result is in order. */
  lemma {:induction false} SortSorts<T>(cmp: (T, T) -> int, xs: seq<T>, s: set<T>)
    requires Consistent(cmp, s) && Elements(xs) <= s
    ensures Sorted(cmp, Sort(cmp, xs))
  {
    if xs != [] {
      assert Elements(xs[1..]) <= Elements(xs) && xs[0] in Elements(xs);
      SortSorts(cmp, xs[1..], s);
      SortPermutes(cmp, xs[1..]);
      SameElements(Sort(cmp, xs[1..]), xs[1..]);
      InsertSorts(cmp, xs[0], Sort(cmp, xs[1..]), s);
    }
  }

  lemma {:induction false} SortOfSorted<T>(cmp: (T, T) -> int, xs: seq<T>)
    requires Sorted(cmp, xs)
    ensures Sort(cmp, xs) == xs
  {
    if xs != [] {
      SortOfSorted(cmp, xs[1..]);
    }
  }
}
