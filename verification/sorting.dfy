/** Sorting by a total order, the way the source calls `Array.prototype.sort`.

    The library's algorithm is not modelled: SortIsUnique shows that every algorithm which returns
    an ordered permutation returns the same sequence, so nothing depends on which one is used. */
module Sorting {

  /** `le` orders the elements of `dom` totally. */
  ghost predicate TotalOn<T(!new)>(le: (T, T) -> bool, dom: set<T>) {
    && (forall x, y :: x in dom && y in dom ==> le(x, y) || le(y, x))
    && (forall x, y :: x in dom && y in dom && le(x, y) && le(y, x) ==> x == y)
    && (forall x, y, z :: x in dom && y in dom && z in dom && le(x, y) && le(y, z) ==> le(x, z))
  }

  ghost predicate Within<T>(s: seq<T>, dom: set<T>) {
    forall x :: x in s ==> x in dom
  }

  ghost predicate Ordered<T>(le: (T, T) -> bool, s: seq<T>) {
    forall i, j :: 0 <= i < j < |s| ==> le(s[i], s[j])
  }

  function Insert<T>(le: (T, T) -> bool, x: T, s: seq<T>): (r: seq<T>)
    ensures multiset(r) == multiset(s) + multiset{x}
  {
    if s == [] then [x]
    else if le(x, s[0]) then [x] + s
    else
      assert s == [s[0]] + s[1..];
      [s[0]] + Insert(le, x, s[1..])
  }

  function Sort<T>(le: (T, T) -> bool, s: seq<T>): (r: seq<T>)
    ensures multiset(r) == multiset(s)
  {
    if s == [] then []
    else
      assert s == [s[0]] + s[1..];
      Insert(le, s[0], Sort(le, s[1..]))
  }

  lemma SameElements<T>(a: seq<T>, b: seq<T>)
    requires multiset(a) == multiset(b)
    ensures |a| == |b|
    ensures forall x :: x in a <==> x in b
  {
    assert |a| == |multiset(a)| && |b| == |multiset(b)|;
    forall x ensures x in a <==> x in b {
      assert x in a <==> x in multiset(a);
      assert x in b <==> x in multiset(b);
    }
  }

  lemma {:induction false} InsertKeepsOrder<T(!new)>(le: (T, T) -> bool, x: T, s: seq<T>, dom: set<T>)
    requires TotalOn(le, dom) && Within(s, dom) && x in dom
    requires Ordered(le, s)
    ensures Ordered(le, Insert(le, x, s))
  {
    if s != [] && !le(x, s[0]) {
      assert Within(s[1..], dom) && Ordered(le, s[1..]);
      InsertKeepsOrder(le, x, s[1..], dom);
      SameElements(Insert(le, x, s[1..]), s[1..] + [x]);
      assert s[0] in s;
      assert le(s[0], x);
      assert forall k :: 0 <= k < |s[1..]| ==> le(s[0], s[1..][k]);
      forall y | y in Insert(le, x, s[1..]) ensures le(s[0], y) {
        assert y in s[1..] + [x];
      }
    } else if s != [] {
      assert forall k :: 0 <= k < |s| ==> le(s[0], s[k]) by {
        assert s[0] in s;
      }
      assert forall k :: 0 <= k < |s| ==> s[k] in s && le(x, s[k]);
    }
  }

  lemma {:induction false} SortIsOrdered<T(!new)>(le: (T, T) -> bool, s: seq<T>, dom: set<T>)
    requires TotalOn(le, dom) && Within(s, dom)
    ensures Ordered(le, Sort(le, s))
  {
    if s != [] {
      SortIsOrdered(le, s[1..], dom);
      SameElements(Sort(le, s[1..]), s[1..]);
      InsertKeepsOrder(le, s[0], Sort(le, s[1..]), dom);
    }
  }

  lemma HeadsAgree<T(!new)>(le: (T, T) -> bool, a: seq<T>, b: seq<T>, dom: set<T>)
    requires TotalOn(le, dom) && Within(a, dom) && a != []
    requires Ordered(le, a) && Ordered(le, b) && multiset(a) == multiset(b)
    ensures b != [] && a[0] == b[0]
  {
    SameElements(a, b);
    assert a[0] in a && b[0] in b;
    var i :| 0 <= i < |b| && b[i] == a[0];
    var j :| 0 <= j < |a| && a[j] == b[0];
    assert a[0] in dom && b[0] in dom;
    assert le(a[0], b[0]) by { assert 0 < j ==> le(a[0], a[j]); }
    assert le(b[0], a[0]) by { assert 0 < i ==> le(b[0], b[i]); }
  }

  /** Two ordered permutations of the same elements are the same sequence. */
  lemma {:induction false} OrderedIsUnique<T(!new)>(le: (T, T) -> bool, a: seq<T>, b: seq<T>, dom: set<T>)
    requires TotalOn(le, dom) && Within(a, dom)
    requires Ordered(le, a) && Ordered(le, b)
    requires multiset(a) == multiset(b)
    ensures a == b
  {
    SameElements(a, b);
    if a != [] {
      HeadsAgree(le, a, b, dom);
      assert a == [a[0]] + a[1..] && b == [b[0]] + b[1..];
      assert multiset(a[1..]) == multiset(a) - multiset{a[0]};
      assert multiset(b[1..]) == multiset(b) - multiset{b[0]};
      OrderedIsUnique(le, a[1..], b[1..], dom);
    }
  }

  /** Whatever ordered permutation a sort routine returns, it is `Sort(le, s)`; in particular the
      order in which the elements arrived does not matter. */
  lemma SortIsUnique<T(!new)>(le: (T, T) -> bool, s: seq<T>, sorted: seq<T>, dom: set<T>)
    requires TotalOn(le, dom) && Within(s, dom)
    requires Ordered(le, sorted) && multiset(sorted) == multiset(s)
    ensures sorted == Sort(le, s)
  {
    SortIsOrdered(le, s, dom);
    SameElements(s, sorted);
    OrderedIsUnique(le, sorted, Sort(le, s), dom);
  }

  function Mapped<S, T>(f: S -> T, s: seq<S>): seq<T> {
    if s == [] then [] else Mapped(f, s[..|s| - 1]) + [f(s[|s| - 1])]
  }

  lemma {:induction false} MappedFrom<S, T>(f: S -> T, s: seq<S>, y: T)
    requires y in Mapped(f, s)
    ensures exists x :: x in s && f(x) == y
  {
    var last := s[|s| - 1];
    if f(last) == y {
      assert last in s;
    } else {
      MappedFrom(f, s[..|s| - 1], y);
    }
  }

  lemma {:induction false} MappedConcat<S, T>(f: S -> T, a: seq<S>, b: seq<S>)
    ensures Mapped(f, a + b) == Mapped(f, a) + Mapped(f, b)
    decreases |b|
  {
    if b == [] {
      assert a + b == a;
    } else {
      MappedConcat(f, a, b[..|b| - 1]);
      assert (a + b)[..|a + b| - 1] == a + b[..|b| - 1];
    }
  }

  /** Images of permutations are permutations. */
  lemma {:induction false} MappedPermutes<S, T>(f: S -> T, a: seq<S>, b: seq<S>)
    requires multiset(a) == multiset(b)
    ensures multiset(Mapped(f, a)) == multiset(Mapped(f, b))
    decreases |a|
  {
    SameElements(a, b);
    if a != [] {
      var x, init := a[|a| - 1], a[..|a| - 1];
      assert a == init + [x];
      assert x in a;
      var k :| 0 <= k < |b| && b[k] == x;
      var lo, hi := b[..k], b[k + 1..];
      assert b == lo + ([x] + hi);
      assert multiset(lo + hi) == multiset(b) - multiset{x};
      assert multiset(init) == multiset(a) - multiset{x};
      MappedPermutes(f, init, lo + hi);
      MappedConcat(f, lo, hi);
      MappedConcat(f, lo, [x] + hi);
      MappedConcat(f, [x], hi);
      assert Mapped(f, [x]) == [f(x)];
    }
  }
}
