/** Python's `sorted(xs, key=...)`: stable, by a numeric key. */
module Sorting {
  import opened Bytes

  function Insert<T>(x: T, xs: seq<T>, key: T -> int): seq<T> {
    if xs == [] || key(x) <= key(xs[0]) then [x] + xs else [xs[0]] + Insert(x, xs[1..], key)
  }

  function StableSort<T>(xs: seq<T>, key: T -> int): seq<T> {
    if xs == [] then [] else Insert(xs[0], StableSort(xs[1..], key), key)
  }

  ghost predicate SortedBy<T>(xs: seq<T>, key: T -> int) {
    forall i, j | 0 <= i < j < |xs| :: key(xs[i]) <= key(xs[j])
  }

  lemma {:induction false} InsertSame<T>(x: T, xs: seq<T>, key: T -> int)
    ensures multiset(Insert(x, xs, key)) == multiset([x] + xs)
  {
    if xs != [] && key(x) > key(xs[0]) {
      InsertSame(x, xs[1..], key);
      assert xs == [xs[0]] + xs[1..];
      assert multiset(Insert(x, xs, key)) == multiset{xs[0]} + multiset([x] + xs[1..]);
      assert multiset([x] + xs) == multiset{x} + (multiset{xs[0]} + multiset(xs[1..]));
    }
  }

  /** Sorting loses nothing and adds nothing. */
  lemma {:induction false} SortSame<T>(xs: seq<T>, key: T -> int)
    ensures multiset(StableSort(xs, key)) == multiset(xs)
  {
    if xs != [] {
      SortSame(xs[1..], key);
      InsertSame(xs[0], StableSort(xs[1..], key), key);
      assert xs == [xs[0]] + xs[1..];
    }
  }

  lemma SameElements<T>(xs: seq<T>, ys: seq<T>)
    requires multiset(xs) == multiset(ys)
    ensures |xs| == |ys|
    ensures forall x :: x in xs <==> x in ys
  {
    assert |multiset(xs)| == |xs| && |multiset(ys)| == |ys|;
    forall x
      ensures x in xs <==> x in ys
    {
      assert x in multiset(xs) <==> x in multiset(ys);
    }
  }

  lemma {:induction false} InsertMembers<T>(x: T, xs: seq<T>, key: T -> int)
    ensures forall y | y in Insert(x, xs, key) :: y == x || y in xs
  {
    if xs != [] && key(x) > key(xs[0]) {
      InsertMembers(x, xs[1..], key);
    }
  }

  lemma {:induction false} InsertSorted<T>(x: T, xs: seq<T>, key: T -> int)
    requires SortedBy(xs, key)
    ensures SortedBy(Insert(x, xs, key), key)
  {
    if xs != [] && key(x) > key(xs[0]) {
      InsertSorted(x, xs[1..], key);
      InsertMembers(x, xs[1..], key);
      var rest := Insert(x, xs[1..], key);
      forall j | 0 <= j < |rest|
        ensures key(xs[0]) <= key(rest[j])
      {
        assert rest[j] in rest;
      }
    }
  }

  lemma {:induction false} SortSorted<T>(xs: seq<T>, key: T -> int)
    ensures SortedBy(StableSort(xs, key), key)
  {
    if xs != [] {
      SortSorted(xs[1..], key);
      InsertSorted(xs[0], StableSort(xs[1..], key), key);
    }
  }

  // ----- the first element with a property -----

  function First<T>(xs: seq<T>, p: T -> bool): Option<T> {
    if xs == [] then None else if p(xs[0]) then Some(xs[0]) else First(xs[1..], p)
  }

  /** `i` is the position of the element with the property that has the smallest key and, among
      those, stands first. */
  ghost predicate IsBest<T(!new)>(xs: seq<T>, key: T -> int, p: T -> bool, i: nat) {
    && i < |xs| && p(xs[i])
    && (forall j | 0 <= j < |xs| && p(xs[j]) :: key(xs[i]) <= key(xs[j]))
    && (forall j | 0 <= j < i && p(xs[j]) :: key(xs[i]) < key(xs[j]))
  }

  lemma {:induction false} FirstInsert<T>(x: T, xs: seq<T>, key: T -> int, p: T -> bool)
    requires SortedBy(xs, key)
    ensures var f := First(xs, p);
            First(Insert(x, xs, key), p) == if p(x) && (f.None? || key(x) <= key(f.value)) then Some(x) else f
  {
    if xs == [] || key(x) <= key(xs[0]) {
      assert ([x] + xs)[1..] == xs;
      FirstKey(xs, p);
    } else {
      FirstInsert(x, xs[1..], key, p);
      var s := Insert(x, xs, key);
      assert s[0] == xs[0] && s[1..] == Insert(x, xs[1..], key);
    }
  }

  lemma {:induction false} FirstKey<T>(xs: seq<T>, p: T -> bool)
    ensures First(xs, p).Some? ==> First(xs, p).value in xs && p(First(xs, p).value)
    ensures First(xs, p).None? ==> forall x | x in xs :: !p(x)
  {
    if xs != [] {
      FirstKey(xs[1..], p);
    }
  }

  /** In the sorted list, the first element with a property is the best one of the original list;
      this is where stability matters. */
  lemma {:induction false} FirstOfSorted<T(!new)>(xs: seq<T>, key: T -> int, p: T -> bool)
    ensures First(StableSort(xs, key), p).None? ==> forall x | x in xs :: !p(x)
    ensures First(StableSort(xs, key), p).Some? ==>
              exists i: nat :: IsBest(xs, key, p, i) && xs[i] == First(StableSort(xs, key), p).value
  {
    if xs != [] {
      var x, rest := xs[0], xs[1..];
      var sorted := StableSort(rest, key);
      SortSorted(rest, key);
      FirstInsert(x, sorted, key, p);
      FirstOfSorted(rest, key, p);
      var f := First(sorted, p);
      assert forall j | 0 < j < |xs| :: xs[j] == rest[j - 1];
      if p(x) && (f.None? || key(x) <= key(f.value)) {
        assert IsBest(xs, key, p, 0) by {
          forall j | 0 <= j < |xs| && p(xs[j])
            ensures key(x) <= key(xs[j])
          {
            if j > 0 {
              assert rest[j - 1] in rest;
            }
          }
        }
      } else if f.Some? {
        var i: nat :| IsBest(rest, key, p, i) && rest[i] == f.value;
        BestShift(xs, key, p, i);
      }
    }
  }

  lemma BestShift<T(!new)>(xs: seq<T>, key: T -> int, p: T -> bool, i: nat)
    requires xs != [] && IsBest(xs[1..], key, p, i)
    requires p(xs[0]) ==> key(xs[0]) > key(xs[1..][i])
    ensures IsBest(xs, key, p, i + 1)
  {
    var rest := xs[1..];
    forall j | 0 <= j < |xs| && p(xs[j])
      ensures key(xs[i + 1]) <= key(xs[j]) && (j < i + 1 ==> key(xs[i + 1]) < key(xs[j]))
    {
      if j > 0 {
        assert xs[j] == rest[j - 1];
      }
    }
  }
}
