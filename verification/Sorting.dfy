/** The ascending sequence of a finite set: the order in which a B-tree map or set iterates. */
module Sorting {
  import opened Bytes

  ghost predicate TotalOrder<T(!new)>(less: (T, T) -> bool) {
    && (forall x :: !less(x, x))
    && (forall x, y, z {:trigger less(x, y), less(y, z)} :: less(x, y) && less(y, z) ==> less(x, z))
    && (forall x, y {:trigger less(x, y)} :: x == y || less(x, y) || less(y, x))
  }

  /** Byte strings are totally ordered. */
  lemma BytesOrder()
    ensures TotalOrder(Less)
  {
    forall x: seq<byte> ensures !Less(x, x) { LessIsTotal(x, x); }
    forall x: seq<byte>, y: seq<byte> ensures x == y || Less(x, y) || Less(y, x) { LessIsTotal(x, y); }
    forall x: seq<byte>, y: seq<byte>, z: seq<byte> | Less(x, y) && Less(y, z) ensures Less(x, z) {
      LessIsTransitive(x, y, z);
    }
  }

  ghost predicate IsLeast<T>(less: (T, T) -> bool, s: set<T>, m: T) {
    m in s && forall y :: y in s ==> y == m || less(m, y)
  }

  lemma LeastOf<T(!new)>(less: (T, T) -> bool, s: set<T>, m: T, y: T)
    requires TotalOrder(less) && IsLeast(less, s, m)
    ensures IsLeast(less, s + {y}, if less(y, m) then y else m)
  {
    forall z | z in s + {y} ensures less(y, m) ==> z == y || less(y, z) {
      assert less(m, z) || z == m || z == y;
    }
    assert y == m || less(y, m) || less(m, y);
  }

  /** The smallest member, by one pass over the set. */
  method FindLeast<T(!new, ==)>(less: (T, T) -> bool, s: set<T>) returns (m: T)
    requires TotalOrder(less) && s != {}
    ensures IsLeast(less, s, m)
  {
    m :| m in s;
    var rest := s - {m};
    while rest != {}
      invariant rest <= s && m in s && m !in rest
      invariant IsLeast(less, s - rest, m)
    {
      var y :| y in rest;
      LeastOf(less, s - rest, m, y);
      assert s - (rest - {y}) == (s - rest) + {y};
      if less(y, m) { m := y; }
      rest := rest - {y};
    }
    assert s - rest == s;
  }

  lemma {:induction false} LeastExists<T(!new)>(less: (T, T) -> bool, s: set<T>)
    requires TotalOrder(less) && s != {}
    ensures exists m :: IsLeast(less, s, m)
    decreases s
  {
    var x :| x in s;
    if s == {x} {
      assert IsLeast(less, s, x);
    } else {
      LeastExists(less, s - {x});
      var m :| IsLeast(less, s - {x}, m);
      LeastOf(less, s - {x}, m, x);
      assert s == (s - {x}) + {x};
    }
  }

  ghost function Least<T(!new)>(less: (T, T) -> bool, s: set<T>): (m: T)
    requires TotalOrder(less) && s != {}
    ensures IsLeast(less, s, m)
  {
    LeastExists(less, s);
    var m :| IsLeast(less, s, m);
    m
  }

  ghost function Ordered<T(!new)>(less: (T, T) -> bool, s: set<T>): seq<T>
    requires TotalOrder(less)
  {
    if s == {} then [] else [Least(less, s)] + Ordered(less, s - {Least(less, s)})
  }

  ghost predicate Sorted<T>(less: (T, T) -> bool, q: seq<T>) {
    forall i, j :: 0 <= i < j < |q| ==> less(q[i], q[j])
  }

  lemma {:induction false} OrderedMeaning<T(!new)>(less: (T, T) -> bool, s: set<T>)
    requires TotalOrder(less)
    ensures Sorted(less, Ordered(less, s))
    ensures forall x :: x in Ordered(less, s) <==> x in s
    ensures |Ordered(less, s)| == |s|
    decreases s
  {
    if s != {} {
      var m := Least(less, s);
      var rest := Ordered(less, s - {m});
      OrderedMeaning(less, s - {m});
      assert Ordered(less, s) == [m] + rest;
      forall j | 0 <= j < |rest| ensures less(m, rest[j]) { assert rest[j] in rest; }
    }
  }

  lemma SameMembersEmpty<T(!new)>(p: seq<T>, q: seq<T>)
    requires forall x :: x in p <==> x in q
    ensures p == [] <==> q == []
  {
    assert |q| > 0 ==> q[0] in q;
    assert |p| > 0 ==> p[0] in p;
  }

  /** A sorted sequence is determined by what it holds. */
  lemma {:induction false} SortedUnique<T(!new)>(less: (T, T) -> bool, p: seq<T>, q: seq<T>)
    requires TotalOrder(less) && Sorted(less, p) && Sorted(less, q)
    requires forall x :: x in p <==> x in q
    ensures p == q
    decreases |p|
  {
    SameMembersEmpty(p, q);
    if p != [] {
      assert p[0] in q;
      assert q[0] in p;
      var i :| 0 <= i < |p| && p[i] == q[0];
      var j :| 0 <= j < |q| && q[j] == p[0];
      assert p[0] == q[0];
      forall x ensures x in p[1..] <==> x in q[1..] {
        if x in p[1..] { assert x in p && x != p[0]; }
        if x in q[1..] { assert x in q && x != q[0]; }
      }
      SortedUnique(less, p[1..], q[1..]);
      assert p == [p[0]] + p[1..] && q == [q[0]] + q[1..];
    }
  }

  /** A sorted sequence of exactly `s` is the iteration order of `s`. */
  lemma OrderedIs<T(!new)>(less: (T, T) -> bool, s: set<T>, q: seq<T>)
    requires TotalOrder(less) && Sorted(less, q)
    requires forall x :: x in q <==> x in s
    ensures q == Ordered(less, s)
  {
    OrderedMeaning(less, s);
    SortedUnique(less, q, Ordered(less, s));
  }

  /** Draining a set from its smallest member up: the iteration a B-tree offers. */
  method Iterate<T(!new, ==)>(less: (T, T) -> bool, s: set<T>) returns (q: seq<T>)
    requires TotalOrder(less)
    ensures q == Ordered(less, s)
  {
    q := [];
    var rest := s;
    while rest != {}
      invariant rest <= s
      invariant Sorted(less, q)
      invariant forall x :: x in q <==> x in s - rest
      invariant forall x, y :: x in q && y in rest ==> less(x, y)
    {
      var m := FindLeast(less, rest);
      q, rest := q + [m], rest - {m};
    }
    OrderedIs(less, s, q);
  }
}
