/** `Array.prototype.sort` with a comparator. The comparator `cmp` is modelled by the
    relation `le(a, b) := cmp(a, b) <= 0`; when `cmp` is consistent that relation is a
    total preorder, and the (stable) built-in sort returns the one sequence that is
    ordered by `le`, is a permutation of its input, and keeps tied elements in input
    order. `SortBy` computes that sequence by stable insertion. */
module Sorting {

  ghost predicate TotalPreorder<T(!new)>(le: (T, T) -> bool) {
    && (forall a, b :: le(a, b) || le(b, a))
    && (forall a, b, c :: Chain(le, a, b, c) ==> le(a, c))
  }

  /** `a <= b <= c`; naming the chain lets a proof say which transitivity step it takes. */
  predicate Chain<T>(le: (T, T) -> bool, a: T, b: T, c: T) {
    le(a, b) && le(b, c)
  }

  /** Every earlier element is at most every later one. */
  ghost predicate Sorted<T>(le: (T, T) -> bool, s: seq<T>) {
    forall i, j :: 0 <= i < j < |s| ==> le(s[i], s[j])
  }

  /** `a` and `b` compare equal (the comparator returns 0 both ways). */
  predicate Tied<T>(le: (T, T) -> bool, a: T, b: T) {
    le(a, b) && le(b, a)
  }

  /** The elements of `s` tied with `x`, in their order in `s`. */
  function TiesOf<T>(le: (T, T) -> bool, x: T, s: seq<T>): seq<T> {
    if s == [] then []
    else (if Tied(le, x, s[0]) then [s[0]] else []) + TiesOf(le, x, s[1..])
  }

  /** Puts `x` in front of the first element strictly greater than it. */
  function Insert<T>(le: (T, T) -> bool, x: T, s: seq<T>): seq<T> {
    if s == [] then [x]
    else if !le(s[0], x) then [x] + s
    else [s[0]] + Insert(le, x, s[1..])
  }

  /** The stable sort of `s` under `le`. */
  function SortBy<T>(le: (T, T) -> bool, s: seq<T>): seq<T> {
    if s == [] then []
    else Insert(le, s[|s| - 1], SortBy(le, s[..|s| - 1]))
  }

  lemma {:induction false} InsertPermutes<T>(le: (T, T) -> bool, x: T, s: seq<T>)
    ensures multiset(Insert(le, x, s)) == multiset(s) + multiset{x}
  {
    if s != [] && le(s[0], x) {
      InsertPermutes(le, x, s[1..]);
      assert s == [s[0]] + s[1..];
    }
  }

  /** The sort returns a permutation of its input. */
  lemma {:induction false} SortByPermutes<T>(le: (T, T) -> bool, s: seq<T>)
    ensures multiset(SortBy(le, s)) == multiset(s)
  {
    if s != [] {
      SortByPermutes(le, s[..|s| - 1]);
      InsertPermutes(le, s[|s| - 1], SortBy(le, s[..|s| - 1]));
      assert s == s[..|s| - 1] + [s[|s| - 1]];
    }
  }

  lemma {:induction false} InsertSorted<T(!new)>(le: (T, T) -> bool, x: T, s: seq<T>)
    requires TotalPreorder(le)
    requires Sorted(le, s)
    ensures Sorted(le, Insert(le, x, s))
  {
    if s != [] && le(s[0], x) {
      var r := Insert(le, x, s[1..]);
      InsertSorted(le, x, s[1..]);
      InsertAbove(le, s[0], x, s[1..]);
      assert Insert(le, x, s) == [s[0]] + r;
    } else if s != [] {
      forall j | 0 <= j < |s| ensures le(x, s[j]) {
        assert Chain(le, x, s[0], s[j]);
      }
    }
  }

  /** A lower bound of `x` and of every element of `s` bounds the insertion too. */
  lemma {:induction false} InsertAbove<T>(le: (T, T) -> bool, lo: T, x: T, s: seq<T>)
    requires le(lo, x)
    requires forall k :: 0 <= k < |s| ==> le(lo, s[k])
    ensures forall k :: 0 <= k < |Insert(le, x, s)| ==> le(lo, Insert(le, x, s)[k])
  {
    if s != [] && le(s[0], x) {
      InsertAbove(le, lo, x, s[1..]);
      assert Insert(le, x, s) == [s[0]] + Insert(le, x, s[1..]);
    }
  }

  /** The sort orders its result. */
  lemma {:induction false} SortBySorted<T(!new)>(le: (T, T) -> bool, s: seq<T>)
    requires TotalPreorder(le)
    ensures Sorted(le, SortBy(le, s))
  {
    if s != [] {
      SortBySorted(le, s[..|s| - 1]);
      InsertSorted(le, s[|s| - 1], SortBy(le, s[..|s| - 1]));
    }
  }

  lemma {:induction false} TiesOfAppend<T>(le: (T, T) -> bool, x: T, a: seq<T>, b: seq<T>)
    ensures TiesOf(le, x, a + b) == TiesOf(le, x, a) + TiesOf(le, x, b)
  {
    if a != [] {
      assert (a + b)[1..] == a[1..] + b;
      TiesOfAppend(le, x, a[1..], b);
    } else {
      assert a + b == b;
    }
  }

  /** Inserting `y` adds it at the end of its tie class, and changes no other class. */
  lemma {:induction false} InsertTies<T(!new)>(le: (T, T) -> bool, x: T, y: T, s: seq<T>)
    requires TotalPreorder(le)
    requires Sorted(le, s)
    ensures TiesOf(le, x, Insert(le, y, s)) == TiesOf(le, x, s) + TiesOf(le, x, [y])
  {
    if s == [] {
    } else if !le(s[0], y) {
      InsertTiesInFront(le, x, y, s);
    } else {
      InsertTies(le, x, y, s[1..]);
      InsertTiesBehind(le, x, y, s[0], s[1..]);
      assert [s[0]] + s[1..] == s;
    }
  }

  lemma InsertTiesInFront<T(!new)>(le: (T, T) -> bool, x: T, y: T, s: seq<T>)
    requires TotalPreorder(le)
    requires Sorted(le, s)
    requires s != [] && !le(s[0], y)
    ensures TiesOf(le, x, Insert(le, y, s)) == TiesOf(le, x, s) + TiesOf(le, x, [y])
  {
    assert Insert(le, y, s) == [y] + s;
    TiesOfAppend(le, x, [y], s);
    if Tied(le, x, y) {
      NoTiesAbove(le, x, y, s);
    }
  }

  lemma InsertTiesBehind<T>(le: (T, T) -> bool, x: T, y: T, a: T, rest: seq<T>)
    requires le(a, y)
    requires TiesOf(le, x, Insert(le, y, rest)) == TiesOf(le, x, rest) + TiesOf(le, x, [y])
    ensures TiesOf(le, x, Insert(le, y, [a] + rest)) == TiesOf(le, x, [a] + rest) + TiesOf(le, x, [y])
  {
    assert Insert(le, y, [a] + rest) == [a] + Insert(le, y, rest);
    TiesOfAppend(le, x, [a], Insert(le, y, rest));
    TiesOfAppend(le, x, [a], rest);
  }

  lemma Reflexive<T(!new)>(le: (T, T) -> bool, a: T)
    requires TotalPreorder(le)
    ensures le(a, a)
  {
  }

  /** `a <= b` and `a` strictly above `y` put `b` strictly above `y`. */
  lemma StrictlyAbove<T(!new)>(le: (T, T) -> bool, a: T, b: T, y: T)
    requires TotalPreorder(le)
    requires le(a, b) && !le(a, y)
    ensures !le(b, y)
  {
    assert Chain(le, a, b, y) ==> le(a, y);
  }

  /** `b <= c` and `a` strictly above `c` put `a` strictly above `b`. */
  lemma StrictlyBelow<T(!new)>(le: (T, T) -> bool, a: T, b: T, c: T)
    requires TotalPreorder(le)
    requires le(b, c) && !le(a, c)
    ensures !le(a, b)
  {
    assert Chain(le, a, b, c) ==> le(a, c);
  }

  /** When `s` is sorted and its first element is strictly above `y`, nothing in `s`
      is tied with anything tied with `y`. */
  lemma {:induction false} NoTiesAbove<T(!new)>(le: (T, T) -> bool, x: T, y: T, s: seq<T>)
    requires TotalPreorder(le)
    requires Sorted(le, s)
    requires s != [] && !le(s[0], y)
    requires Tied(le, x, y)
    ensures TiesOf(le, x, s) == []
  {
    if |s| > 1 {
      StrictlyAbove(le, s[0], s[1], y);
      NoTiesAbove(le, x, y, s[1..]);
    }
    StrictlyBelow(le, s[0], x, y);
  }

  /** Stability: the sort keeps every tie class of `s` in its input order. */
  lemma {:induction false} SortByStable<T(!new)>(le: (T, T) -> bool, x: T, s: seq<T>)
    requires TotalPreorder(le)
    ensures TiesOf(le, x, SortBy(le, s)) == TiesOf(le, x, s)
  {
    if s != [] {
      var init, last := s[..|s| - 1], s[|s| - 1];
      SortByStable(le, x, init);
      SortBySorted(le, init);
      InsertTies(le, x, last, SortBy(le, init));
      assert s == init + [last];
      TiesOfAppend(le, x, init, [last]);
    }
  }

  /** No two distinct elements of `m` are tied. */
  ghost predicate NoTies<T>(le: (T, T) -> bool, m: multiset<T>) {
    forall u, v :: u in m && v in m && Tied(le, u, v) ==> u == v
  }

  /** Two sorted permutations of each other are equal when no two distinct elements
      are tied. */
  lemma {:induction false} SortedPermutationsEqual<T(!new)>(le: (T, T) -> bool, a: seq<T>, b: seq<T>)
    requires TotalPreorder(le)
    requires Sorted(le, a) && Sorted(le, b)
    requires multiset(a) == multiset(b)
    requires NoTies(le, multiset(a))
    ensures a == b
  {
    if a != [] {
      SortedHeadsEqual(le, a, b);
      assert a == [a[0]] + a[1..];
      assert b == [b[0]] + b[1..];
      var rest := multiset(a[1..]);
      assert multiset(a) == multiset{a[0]} + rest;
      assert multiset(b) == multiset{a[0]} + multiset(b[1..]);
      assert rest == multiset(a) - multiset{a[0]};
      assert multiset(b[1..]) == multiset(b) - multiset{a[0]};
      assert rest <= multiset(a);
      assert Sorted(le, a[1..]) && Sorted(le, b[1..]);
      SortedPermutationsEqual(le, a[1..], b[1..]);
    }
  }

  lemma SortedHeadsEqual<T(!new)>(le: (T, T) -> bool, a: seq<T>, b: seq<T>)
    requires TotalPreorder(le)
    requires Sorted(le, a) && Sorted(le, b)
    requires multiset(a) == multiset(b)
    requires NoTies(le, multiset(a))
    requires a != []
    ensures b != [] && a[0] == b[0]
  {
    assert a[0] in multiset(b);
    var i :| 0 <= i < |b| && b[i] == a[0];
    assert b[0] in multiset(a);
    var j :| 0 <= j < |a| && a[j] == b[0];
    Reflexive(le, a[0]);
    Reflexive(le, b[0]);
    assert le(a[0], a[j]);
    assert le(b[0], b[i]);
    assert Tied(le, a[0], b[0]);
  }

  /** With no ties, the sort does not depend on the order of its input. */
  lemma SortByOrderIrrelevant<T(!new)>(le: (T, T) -> bool, a: seq<T>, b: seq<T>)
    requires TotalPreorder(le)
    requires multiset(a) == multiset(b)
    requires NoTies(le, multiset(a))
    ensures SortBy(le, a) == SortBy(le, b)
  {
    SortBySorted(le, a);
    SortBySorted(le, b);
    SortByPermutes(le, a);
    SortByPermutes(le, b);
    SortedPermutationsEqual(le, SortBy(le, a), SortBy(le, b));
  }
}
