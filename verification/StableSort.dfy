/**
 * Stable sorting by a byte-string key.
 *
 * A sorted sequence is pinned down by what it holds under each key and in which order, so stability and permutation are
 * one statement: `Under` is the same before and after.
 */
module StableSort {
  import opened Bytes

  /** The items under one key, in order. */
  function Under<T>(key: T -> ByteString, items: seq<T>, k: ByteString): seq<T> {
    if items == [] then []
    else Under(key, items[..|items| - 1], k)
         + if key(items[|items| - 1]) == k then [items[|items| - 1]] else []
  }

  ghost predicate SortedBy<T>(key: T -> ByteString, items: seq<T>) {
    forall i, j :: 0 <= i < j < |items| ==> AtMost(key(items[i]), key(items[j]))
  }

  /** Where an item goes: after everything not above it. */
  function Place<T>(key: T -> ByteString, items: seq<T>, x: T): (i: nat)
    ensures i <= |items|
  {
    if items == [] || !Less(key(x), key(items[|items| - 1])) then |items|
    else Place(key, items[..|items| - 1], x)
  }

  function Insert<T>(key: T -> ByteString, items: seq<T>, x: T): seq<T> {
    var i := Place(key, items, x);
    items[..i] + [x] + items[i..]
  }

  function SortBy<T>(key: T -> ByteString, items: seq<T>): seq<T> {
    if items == [] then [] else Insert(key, SortBy(key, items[..|items| - 1]), items[|items| - 1])
  }

  /** The sort the source calls, as an insertion sort. */
  method Sort<T>(key: T -> ByteString, items: seq<T>) returns (out: seq<T>)
    ensures out == SortBy(key, items)
  {
    out := [];
    for i := 0 to |items|
      invariant out == SortBy(key, items[..i])
    {
      var p := |out|;
      assert out[..|out|] == out;
      while p > 0 && Less(key(items[i]), key(out[p - 1]))
        invariant 0 <= p <= |out| && Place(key, out, items[i]) == Place(key, out[..p], items[i])
      {
        assert out[..p][..p - 1] == out[..p - 1];
        p := p - 1;
      }
      assert p > 0 ==> out[..p][p - 1] == out[p - 1];
      out := out[..p] + [items[i]] + out[p..];
      assert items[..i + 1][..i] == items[..i];
    }
    assert items[..|items|] == items;
  }

  // ---------------------------------------------------------------------
  // What sorting keeps
  // ---------------------------------------------------------------------

  lemma {:induction false} UnderAppends<T>(key: T -> ByteString, a: seq<T>, b: seq<T>, k: ByteString)
    ensures Under(key, a + b, k) == Under(key, a, k) + Under(key, b, k)
    decreases |b|
  {
    if b == [] {
      assert a + b == a;
    } else {
      UnderAppends(key, a, b[..|b| - 1], k);
      assert (a + b)[..|a + b| - 1] == a + b[..|b| - 1];
    }
  }

  lemma UnderOne<T>(key: T -> ByteString, x: T, k: ByteString)
    ensures Under(key, [x], k) == if key(x) == k then [x] else []
  {
    assert [x][..0] == [];
  }

  lemma {:induction false} UnderNone<T>(key: T -> ByteString, items: seq<T>, k: ByteString)
    requires forall x :: x in items ==> key(x) != k
    ensures Under(key, items, k) == []
    decreases |items|
  {
    if items != [] {
      assert items[|items| - 1] in items;
      UnderNone(key, items[..|items| - 1], k);
    }
  }

  /** Everything from the place on is above the item; everything before it is not. */
  lemma {:induction false} PlaceSplits<T>(key: T -> ByteString, items: seq<T>, x: T)
    requires SortedBy(key, items)
    ensures forall j :: Place(key, items, x) <= j < |items| ==> Less(key(x), key(items[j]))
    ensures forall j :: 0 <= j < Place(key, items, x) ==> !Less(key(x), key(items[j]))
    decreases |items|
  {
    if items != [] {
      var last := |items| - 1;
      if Less(key(x), key(items[last])) {
        PlaceSplits(key, items[..last], x);
      } else {
        forall j | 0 <= j < |items| ensures !Less(key(x), key(items[j])) {
          if j < last && Less(key(x), key(items[j])) {
            assert AtMost(key(items[j]), key(items[last]));
            if key(items[j]) != key(items[last]) { LessIsTransitive(key(x), key(items[j]), key(items[last])); }
          }
        }
      }
    }
  }

  lemma InsertSorts<T>(key: T -> ByteString, items: seq<T>, x: T)
    requires SortedBy(key, items)
    ensures SortedBy(key, Insert(key, items, x))
  {
    hide Place, Less;
    PlaceSplits(key, items, x);
    var p, out := Place(key, items, x), Insert(key, items, x);
    forall i, j | 0 <= i < j < |out| ensures AtMost(key(out[i]), key(out[j])) {
      var a := if i < p then i else i - 1;
      var b := if j < p then j else j - 1;
      if i != p && j != p {
        assert out[i] == items[a] && out[j] == items[b];
      } else if j == p {
        LessIsTotal(key(items[i]), key(x));
      }
    }
  }

  lemma InsertKeepsUnder<T>(key: T -> ByteString, items: seq<T>, x: T, k: ByteString)
    requires SortedBy(key, items)
    ensures Under(key, Insert(key, items, x), k) == Under(key, items + [x], k)
  {
    hide Place, Less, Under;
    PlaceSplits(key, items, x);
    var p := Place(key, items, x);
    var a, b := items[..p], items[p..];
    UnderAppends(key, a + [x], b, k);
    UnderAppends(key, a, [x], k);
    UnderAppends(key, a, b, k);
    UnderAppends(key, items, [x], k);
    assert items == a + b;
    UnderOne(key, x, k);
    if k == key(x) {
      forall y | y in b ensures key(y) != k { LessIsTotal(key(x), key(y)); }
      UnderNone(key, b, k);
    }
  }

  lemma {:induction false} SortByMeaning<T>(key: T -> ByteString, items: seq<T>)
    ensures SortedBy(key, SortBy(key, items))
    ensures forall k :: Under(key, SortBy(key, items), k) == Under(key, items, k)
    decreases |items|
  {
    hide Insert, Under;
    if items != [] {
      var front, x := items[..|items| - 1], items[|items| - 1];
      SortByMeaning(key, front);
      InsertSorts(key, SortBy(key, front), x);
      forall k ensures Under(key, SortBy(key, items), k) == Under(key, items, k) {
        InsertKeepsUnder(key, SortBy(key, front), x, k);
        UnderAppends(key, SortBy(key, front), [x], k);
        UnderAppends(key, front, [x], k);
        assert items == front + [x];
      }
    }
  }

  // ---------------------------------------------------------------------
  // Sorted sequences that agree under every key are equal
  // ---------------------------------------------------------------------

  ghost predicate SameUnder<T>(key: T -> ByteString, a: seq<T>, b: seq<T>) {
    forall k :: Under(key, a, k) == Under(key, b, k)
  }

  /** The last item under the greatest key is the last item. */
  lemma LastAgrees<T>(key: T -> ByteString, a: seq<T>, b: seq<T>)
    requires SortedBy(key, a) && SortedBy(key, b) && SameUnder(key, a, b) && a != []
    ensures b != [] && a[|a| - 1] == b[|b| - 1]
  {
    var x := a[|a| - 1];
    assert Under(key, a, key(x)) != [];
    assert Under(key, b, key(x)) == Under(key, a, key(x));
    assert b != [];
    var y := b[|b| - 1];
    assert Under(key, b, key(y)) != [] && Under(key, a, key(y)) == Under(key, b, key(y));
    HasUnder(key, b, key(x));
    HasUnder(key, a, key(y));
    BelowLast(key, b, key(x)); BelowLast(key, a, key(y));
    LessIsTotal(key(x), key(y));
    var u := Under(key, a, key(x));
    assert key(x) == key(y) && u[|u| - 1] == x;
  }

  lemma HasUnder<T>(key: T -> ByteString, items: seq<T>, k: ByteString)
    ensures Under(key, items, k) != [] <==> exists i :: 0 <= i < |items| && key(items[i]) == k
  {
    hide Under;
    var u := Under(key, items, k);
    if u != [] {
      UnderIsMember(key, items, k, u[0]);
      var i :| 0 <= i < |items| && items[i] == u[0];
    }
    if i :| 0 <= i < |items| && key(items[i]) == k { UnderIsMember(key, items, k, items[i]); }
  }

  lemma BelowLast<T>(key: T -> ByteString, items: seq<T>, k: ByteString)
    requires SortedBy(key, items) && items != [] && exists i :: 0 <= i < |items| && key(items[i]) == k
    ensures AtMost(k, key(items[|items| - 1]))
  {}

  lemma {:induction false} SortedAgree<T>(key: T -> ByteString, a: seq<T>, b: seq<T>)
    requires SortedBy(key, a) && SortedBy(key, b) && SameUnder(key, a, b)
    ensures a == b
    decreases |a| + |b|
  {
    if a != [] {
      LastAgrees(key, a, b);
      var f, g := a[..|a| - 1], b[..|b| - 1];
      forall k ensures Under(key, f, k) == Under(key, g, k) { UnderFront(key, a, b, k); }
      SortedAgree(key, f, g);
      assert a == f + [a[|a| - 1]] && b == g + [b[|b| - 1]];
    } else if b != [] {
      LastAgrees(key, b, a);
    }
  }

  lemma UnderFront<T>(key: T -> ByteString, a: seq<T>, b: seq<T>, k: ByteString)
    requires a != [] && b != [] && a[|a| - 1] == b[|b| - 1] && Under(key, a, k) == Under(key, b, k)
    ensures Under(key, a[..|a| - 1], k) == Under(key, b[..|b| - 1], k)
  {
    var u, v := Under(key, a[..|a| - 1], k), Under(key, b[..|b| - 1], k);
    var last := if key(a[|a| - 1]) == k then [a[|a| - 1]] else [];
    assert u + last == v + last;
    assert |u| == |v|;
    assert u == (u + last)[..|u|] && v == (v + last)[..|v|];
  }

  /** Two sequences sort alike exactly when they hold the same items in the same order under each key. */
  lemma SortsAlike<T>(key: T -> ByteString, a: seq<T>, b: seq<T>)
    ensures SortBy(key, a) == SortBy(key, b) <==> SameUnder(key, a, b)
  {
    hide SortBy, SortedBy, Under;
    SortByMeaning(key, a); SortByMeaning(key, b);
    if SameUnder(key, a, b) { SortedAgree(key, SortBy(key, a), SortBy(key, b)); }
    if SortBy(key, a) == SortBy(key, b) {
      forall k ensures Under(key, a, k) == Under(key, b, k) {
        assert Under(key, SortBy(key, a), k) == Under(key, SortBy(key, b), k);
      }
    }
  }

  // ---------------------------------------------------------------------
  // Permutations
  // ---------------------------------------------------------------------

  /** With a key of its own for each item, any permutation sorts alike. */
  ghost predicate DistinctKeys<T>(key: T -> ByteString, items: seq<T>) {
    forall i, j :: 0 <= i < j < |items| ==> key(items[i]) != key(items[j])
  }

  lemma {:induction false} UnderIsMember<T>(key: T -> ByteString, items: seq<T>, k: ByteString, x: T)
    ensures x in Under(key, items, k) <==> x in items && key(x) == k
    decreases |items|
  {
    if items != [] {
      var front, last := items[..|items| - 1], items[|items| - 1];
      UnderIsMember(key, front, k, x);
      assert items == front + [last];
    }
  }

  lemma {:induction false} UnderIsShort<T>(key: T -> ByteString, items: seq<T>, k: ByteString)
    requires DistinctKeys(key, items)
    ensures |Under(key, items, k)| <= 1
    decreases |items|
  {
    if items != [] {
      var front, last := items[..|items| - 1], items[|items| - 1];
      UnderIsShort(key, front, k);
      if key(last) == k {
        forall x | x in front ensures key(x) != k {
          var i :| 0 <= i < |front| && front[i] == x;
          assert key(items[i]) != key(items[|items| - 1]);
        }
        UnderNone(key, front, k);
      }
    }
  }

  lemma PermutationSortsAlike<T>(key: T -> ByteString, a: seq<T>, b: seq<T>)
    requires DistinctKeys(key, a) && DistinctKeys(key, b)
    requires forall x :: x in a <==> x in b
    ensures SortBy(key, a) == SortBy(key, b)
  {
    hide SortBy, DistinctKeys, Under;
    forall k ensures Under(key, a, k) == Under(key, b, k) {
      UnderIsShort(key, a, k); UnderIsShort(key, b, k);
      var u, v := Under(key, a, k), Under(key, b, k);
      if |u| == 1 { UnderIsMember(key, a, k, u[0]); UnderIsMember(key, b, k, u[0]); }
      if |v| == 1 { UnderIsMember(key, a, k, v[0]); UnderIsMember(key, b, k, v[0]); }
    }
    SortsAlike(key, a, b);
  }

  // ---------------------------------------------------------------------
  // Texts under their own key
  // ---------------------------------------------------------------------

  function Itself(t: ByteString): ByteString { t }

  lemma {:induction false} UnderItself(items: seq<ByteString>, k: ByteString)
    ensures Under(Itself, items, k) == seq(multiset(items)[k], i => k)
    decreases |items|
  {
    if items != [] {
      var front, last := items[..|items| - 1], items[|items| - 1];
      UnderItself(front, k);
      assert items == front + [last];
      assert multiset(items)[k] == multiset(front)[k] + if last == k then 1 else 0;
    }
  }

  /** Texts sort alike exactly when they are the same up to order. */
  lemma TextsSortAlike(a: seq<ByteString>, b: seq<ByteString>)
    ensures SortBy(Itself, a) == SortBy(Itself, b) <==> multiset(a) == multiset(b)
  {
    hide SortBy, Under;
    SortsAlike(Itself, a, b);
    forall k ensures Under(Itself, a, k) == Under(Itself, b, k) <==> multiset(a)[k] == multiset(b)[k] {
      UnderItself(a, k); UnderItself(b, k);
      assert multiset(a)[k] != multiset(b)[k] ==> |Under(Itself, a, k)| != |Under(Itself, b, k)|;
    }
    if multiset(a) == multiset(b) { assert SameUnder(Itself, a, b); }
  }
}
