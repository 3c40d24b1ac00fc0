/** The comparison sort the program calls on vectors, and facts about sorted sequences. */
module Sorting {
  ghost predicate TotalPreorder<T(!new)>(le: (T, T) -> bool) {
    && (forall a, b :: le(a, b) || le(b, a))
    && (forall a, b, c :: le(a, b) && le(b, c) ==> le(a, c))
  }

  ghost predicate Sorted<T>(s: seq<T>, le: (T, T) -> bool) {
    forall i, j :: 0 <= i < j < |s| ==> le(s[i], s[j])
  }

  /** Put `x` before the first element it does not exceed. */
  function Insert<T(!new, ==)>(x: T, s: seq<T>, le: (T, T) -> bool): (r: seq<T>)
    requires TotalPreorder(le) && Sorted(s, le)
    ensures multiset(r) == multiset{x} + multiset(s)
    ensures Sorted(r, le)
  {
    if s == [] then [x]
    else if le(x, s[0]) then
      assert forall i :: 0 <= i < |s| ==> le(x, s[i]);
      [x] + s
    else
      var t := Insert(x, s[1..], le);
      assert s == [s[0]] + s[1..];
      assert forall y :: y in t ==> le(s[0], y) by {
        forall y | y in t ensures le(s[0], y) {
          assert y in multiset(t);
          assert y == x || y in s[1..];
        }
      }
      [s[0]] + t
  }

  /** A stable sort: elements the order cannot tell apart keep their positions. */
  function Sort<T(!new, ==)>(s: seq<T>, le: (T, T) -> bool): (r: seq<T>)
    requires TotalPreorder(le)
    ensures multiset(r) == multiset(s)
    ensures |r| == |s|
    ensures Sorted(r, le)
  {
    if s == [] then []
    else
      assert s == [s[0]] + s[1..];
      var r := Insert(s[0], Sort(s[1..], le), le);
      assert |multiset(r)| == |multiset(s)|;
      r
  }

  /** When the order tells all values apart, a multiset has one sorted arrangement. */
  lemma {:induction false} SortedIsUnique<T(!new)>(s: seq<T>, t: seq<T>, le: (T, T) -> bool)
    requires Sorted(s, le) && Sorted(t, le) && multiset(s) == multiset(t)
    requires forall a, b :: a in s && b in s && le(a, b) && le(b, a) ==> a == b
    ensures s == t
  {
    assert |s| == |multiset(s)| == |multiset(t)| == |t|;
    if s != [] {
      assert s[0] in multiset(t) && t[0] in multiset(s);
      assert s[0] == t[0];
      assert s == [s[0]] + s[1..] && t == [t[0]] + t[1..];
      assert multiset(s[1..]) == multiset(s) - multiset{s[0]};
      assert multiset(t[1..]) == multiset(t) - multiset{t[0]};
      SortedIsUnique(s[1..], t[1..], le);
    }
  }

  ghost predicate Distinct<T>(s: seq<T>) {
    forall i, j :: 0 <= i < j < |s| ==> s[i] != s[j]
  }

  lemma {:induction false} DistinctCounts<T>(s: seq<T>, x: T)
    requires Distinct(s)
    ensures multiset(s)[x] == if x in s then 1 else 0
  {
    if s != [] {
      DistinctCounts(s[1..], x);
      assert s == [s[0]] + s[1..];
    }
  }

  /** Two duplicate-free listings of the same values are rearrangements of each other. */
  lemma SameElements<T(!new)>(s: seq<T>, t: seq<T>)
    requires Distinct(s) && Distinct(t)
    requires forall x :: x in s <==> x in t
    ensures multiset(s) == multiset(t) && |s| == |t|
  {
    forall x ensures multiset(s)[x] == multiset(t)[x] {
      DistinctCounts(s, x);
      DistinctCounts(t, x);
    }
    assert |s| == |multiset(s)| && |t| == |multiset(t)|;
  }

  lemma {:induction false} CountsMeanDistinct<T(!new)>(s: seq<T>)
    requires forall x :: multiset(s)[x] <= 1
    ensures Distinct(s)
  {
    if s != [] {
      assert s == [s[0]] + s[1..];
      forall x ensures multiset(s[1..])[x] <= 1 {
        assert multiset(s)[x] <= 1;
      }
      CountsMeanDistinct(s[1..]);
      assert multiset(s)[s[0]] <= 1;
      assert s[0] !in multiset(s[1..]);
    }
  }

  lemma DistinctIsInvariant<T(!new)>(s: seq<T>, t: seq<T>)
    requires Distinct(s) && multiset(s) == multiset(t)
    ensures Distinct(t)
  {
    forall x ensures multiset(t)[x] <= 1 {
      DistinctCounts(s, x);
    }
    CountsMeanDistinct(t);
  }

  // ----- Stability, and sorting under a projection -----

  /** Compare by `le`, and where that cannot tell two values apart, by `tie`. */
  function Lex<T>(le: (T, T) -> bool, tie: (T, T) -> bool): (T, T) -> bool {
    (a, b) => le(a, b) && (le(b, a) ==> tie(a, b))
  }

  lemma LexIsPreorder<T(!new)>(le: (T, T) -> bool, tie: (T, T) -> bool)
    requires TotalPreorder(le) && TotalPreorder(tie)
    ensures TotalPreorder(Lex(le, tie))
  {
  }

  lemma {:induction false} InsertIsStable<T(!new)>(x: T, s: seq<T>, le: (T, T) -> bool, tie: (T, T) -> bool)
    requires TotalPreorder(le) && TotalPreorder(tie) && Sorted(s, le) && Sorted(s, Lex(le, tie))
    requires forall y :: y in s ==> tie(x, y)
    ensures Sorted(Insert(x, s, le), Lex(le, tie))
  {
    if s != [] && !le(x, s[0]) {
      var t := Insert(x, s[1..], le);
      InsertIsStable(x, s[1..], le, tie);
      forall y | y in t ensures Lex(le, tie)(s[0], y) {
        assert y in multiset(t);
        assert y == x || y in s[1..];
      }
    }
  }

  /** Sorting a list that `tie` already orders leaves ties in that order. */
  lemma {:induction false} SortIsStable<T(!new)>(s: seq<T>, le: (T, T) -> bool, tie: (T, T) -> bool)
    requires TotalPreorder(le) && TotalPreorder(tie) && Sorted(s, tie)
    ensures Sorted(Sort(s, le), Lex(le, tie))
  {
    if s != [] {
      var t := Sort(s[1..], le);
      SortIsStable(s[1..], le, tie);
      forall y | y in t ensures tie(s[0], y) {
        assert y in multiset(t);
      }
      InsertIsStable(s[0], t, le, tie);
    }
  }

  function Map<S, T>(f: S -> T, s: seq<S>): (r: seq<T>)
    ensures |r| == |s| && forall i :: 0 <= i < |s| ==> r[i] == f(s[i])
  {
    seq(|s|, i requires 0 <= i < |s| => f(s[i]))
  }

  lemma MapAround<S(!new), T>(f: S -> T, a: seq<S>, x: S, b: seq<S>)
    ensures multiset(Map(f, a + [x] + b)) == multiset{f(x)} + multiset(Map(f, a + b))
  {
    assert Map(f, a + [x] + b) == Map(f, a) + [f(x)] + Map(f, b);
    assert Map(f, a + b) == Map(f, a) + Map(f, b);
  }

  lemma SplitAround<S>(t: seq<S>, x: S) returns (a: seq<S>, b: seq<S>)
    requires x in t
    ensures t == a + [x] + b && multiset(t) == multiset{x} + multiset(a + b)
    ensures multiset(a + b) == multiset(t) - multiset{x}
  {
    var k: nat :| k < |t| && t[k] == x;
    a, b := t[..k], t[k + 1..];
    assert t == a + [x] + b;
  }

  /** Mapping respects rearrangement. */
  lemma {:induction false} MapKeepsCounts<S(!new), T>(f: S -> T, s: seq<S>, t: seq<S>)
    requires multiset(s) == multiset(t)
    ensures multiset(Map(f, s)) == multiset(Map(f, t))
    decreases |s|
  {
    if s == [] {
      assert |t| == |multiset(t)| == 0;
    } else {
      var x := s[0];
      assert x in multiset(t);
      var a, b := SplitAround(t, x);
      var c, d := SplitAround(s, x);
      assert |s| == |c + d| + 1;
      MapKeepsCounts(f, c + d, a + b);
      MapAround(f, c, x, d);
      MapAround(f, a, x, b);
    }
  }

  lemma MapOfCons<S, T>(f: S -> T, x: S, s: seq<S>)
    ensures Map(f, [x] + s) == [f(x)] + Map(f, s)
  {
  }

  lemma {:induction false} InsertMapped<S(!new), T(!new)>(f: S -> T, x: S, s: seq<S>,
                                                          le: (T, T) -> bool, on: (S, S) -> bool)
    requires TotalPreorder(le) && TotalPreorder(on) && Sorted(s, on) && Sorted(Map(f, s), le)
    requires forall a, b :: on(a, b) <==> le(f(a), f(b))
    ensures Map(f, Insert(x, s, on)) == Insert(f(x), Map(f, s), le)
  {
    if s == [] || on(x, s[0]) {
      MapOfCons(f, x, s);
    } else {
      assert Map(f, s)[1..] == Map(f, s[1..]);
      InsertMapped(f, x, s[1..], le, on);
      MapOfCons(f, s[0], Insert(x, s[1..], on));
    }
  }

  /** Sorting the images is sorting the originals by their images. */
  lemma {:induction false} SortMapped<S(!new), T(!new)>(f: S -> T, s: seq<S>,
                                                        le: (T, T) -> bool, on: (S, S) -> bool)
    requires TotalPreorder(le) && TotalPreorder(on)
    requires forall a, b :: on(a, b) <==> le(f(a), f(b))
    ensures Map(f, Sort(s, on)) == Sort(Map(f, s), le)
  {
    if s != [] {
      assert Map(f, s)[1..] == Map(f, s[1..]);
      SortMapped(f, s[1..], le, on);
      InsertMapped(f, s[0], Sort(s[1..], on), le, on);
    }
  }
}
