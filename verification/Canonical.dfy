/**
 * The canonical encoder behind schema digests: every field written as its byte length, a colon, the bytes, a
 * newline.
 */
module Canonical {
  import opened Bytes
  import opened Decimals
  import opened Options

  const COLON: byte := 58
  const NEWLINE: byte := 10

  /** ASCII text as bytes. */
  function Ascii(s: string): ByteString { seq(|s|, i requires 0 <= i < |s| => (s[i] as int % 256) as byte) }

  /** A count in decimal. */
  function Count(n: nat): ByteString { Ascii(Digits(n)) }

  function Field(v: ByteString): ByteString { Count(|v|) + [COLON] + v + [NEWLINE] }

  function Fields(vs: seq<ByteString>): ByteString {
    if vs == [] then [] else Fields(vs[..|vs| - 1]) + Field(vs[|vs| - 1])
  }

  // ---------------------------------------------------------------------
  // The buffer
  // ---------------------------------------------------------------------

  class Encoder {
    var out: ByteString

    constructor ()
      ensures out == []
    {
      out := [];
    }

    method WriteField(v: ByteString)
      modifies this
      ensures out == old(out) + Field(v)
    {
      out := out + Count(|v|);
      out := out + [COLON];
      out := out + v;
      out := out + [NEWLINE];
    }

    method WriteOptional(v: Option<ByteString>)
      modifies this
      ensures out == old(out) + Fields(Optional(v, []))
    {
      if v.Some? {
        WriteField(Ascii("some"));
        WriteField(v.value);
        assert Optional(v, [])[..1] == [Ascii("some")] && [Ascii("some")][..0] == [];
      } else {
        WriteField(Ascii("none"));
        assert Optional(v, []) == [Ascii("none")] && [Ascii("none")][..0] == [];
      }
    }

    method WriteFields(vs: seq<ByteString>)
      modifies this
      ensures out == old(out) + Fields(vs)
    {
      for i := 0 to |vs|
        invariant out == old(out) + Fields(vs[..i])
      {
        WriteField(vs[i]);
        assert vs[..i + 1][..i] == vs[..i];
      }
      assert vs[..|vs|] == vs;
    }

    /** A count and then each item. */
    method WriteList(vs: seq<ByteString>)
      modifies this
      ensures out == old(out) + Fields(List(vs, []))
    {
      hide Count, Fields;
      WriteField(Count(|vs|));
      WriteFields(vs);
      FieldsAppend([Count(|vs|)], vs);
      OneField(Count(|vs|));
      assert List(vs, []) == [Count(|vs|)] + vs;
    }
  }

  // ---------------------------------------------------------------------
  // Fields are self-delimiting
  // ---------------------------------------------------------------------

  lemma CountIsDigits(n: nat)
    ensures |Count(n)| == |Digits(n)| && forall i :: 0 <= i < |Count(n)| ==> Count(n)[i] == Digits(n)[i] as int
    ensures COLON !in Count(n)
  {
    DigitsAreNumber(n);
  }

  lemma CountIsInjective(m: nat, n: nat)
    requires Count(m) == Count(n)
    ensures m == n
  {
    CountIsDigits(m); CountIsDigits(n);
    DigitsAreNumber(m); DigitsAreNumber(n);
    assert Digits(m) == Digits(n) by {
      forall i | 0 <= i < |Digits(m)| ensures Digits(m)[i] == Digits(n)[i] {
        assert Count(m)[i] == Count(n)[i];
      }
    }
  }

  /** A first separator splits a text in one way. */
  lemma SplitsOnce(a: ByteString, x: ByteString, b: ByteString, y: ByteString)
    requires COLON !in a && COLON !in b && a + [COLON] + x == b + [COLON] + y
    ensures a == b && x == y
  {
    var s, t := a + [COLON] + x, b + [COLON] + y;
    assert s[|a|] == COLON && t[|b|] == COLON;
    assert forall i :: 0 <= i < |a| ==> s[i] == a[i];
    assert forall i :: 0 <= i < |b| ==> t[i] == b[i];
    assert |a| == |b|;
    assert a == s[..|a|] && b == t[..|b|];
    assert x == s[|a| + 1..] && y == t[|b| + 1..];
  }

  lemma FieldReads(v: ByteString, r: ByteString, w: ByteString, s: ByteString)
    requires Field(v) + r == Field(w) + s
    ensures v == w && r == s
  {
    hide Count;
    CountIsDigits(|v|); CountIsDigits(|w|);
    var x, y := v + [NEWLINE] + r, w + [NEWLINE] + s;
    assert Field(v) + r == Count(|v|) + [COLON] + x;
    assert Field(w) + s == Count(|w|) + [COLON] + y;
    SplitsOnce(Count(|v|), x, Count(|w|), y);
    CountIsInjective(|v|, |w|);
    assert v == x[..|v|] && w == y[..|w|];
    assert r == x[|v| + 1..] && s == y[|w| + 1..];
  }

  lemma {:induction false} FieldsFromFront(vs: seq<ByteString>)
    requires vs != []
    ensures Fields(vs) == Field(vs[0]) + Fields(vs[1..])
    decreases |vs|
  {
    hide Field;
    var front := vs[..|vs| - 1];
    if front == [] {
      assert vs[1..] == [];
    } else {
      FieldsFromFront(front);
      assert front[1..] == vs[1..][..|vs| - 2];
      assert vs[1..][|vs| - 2] == vs[|vs| - 1];
    }
  }

  /** No two lists of fields have one encoding. */
  lemma {:induction false} FieldsAreInjective(vs: seq<ByteString>, ws: seq<ByteString>)
    requires Fields(vs) == Fields(ws)
    ensures vs == ws
    decreases |vs|
  {
    hide Field;
    FieldIsNotEmpty(vs); FieldIsNotEmpty(ws);
    if vs != [] && ws != [] {
      FieldsFromFront(vs); FieldsFromFront(ws);
      FieldReads(vs[0], Fields(vs[1..]), ws[0], Fields(ws[1..]));
      FieldsAreInjective(vs[1..], ws[1..]);
      assert vs == [vs[0]] + vs[1..] && ws == [ws[0]] + ws[1..];
    }
  }

  lemma FieldIsNotEmpty(vs: seq<ByteString>)
    ensures Fields(vs) == [] <==> vs == []
  {}

  lemma OneField(v: ByteString)
    ensures Fields([v]) == Field(v)
  {
    assert [v][..0] == [];
  }

  lemma {:induction false} FieldsAppend(vs: seq<ByteString>, ws: seq<ByteString>)
    ensures Fields(vs + ws) == Fields(vs) + Fields(ws)
    decreases |ws|
  {
    hide Field;
    if ws == [] {
      assert vs + ws == vs;
    } else {
      var front, last := ws[..|ws| - 1], ws[|ws| - 1];
      FieldsAppend(vs, front);
      assert (vs + ws)[..|vs + ws| - 1] == vs + front && (vs + ws)[|vs + ws| - 1] == last;
      assert Fields(vs) + (Fields(front) + Field(last)) == (Fields(vs) + Fields(front)) + Field(last);
    }
  }

  // ---------------------------------------------------------------------
  // Optional values and lists, in front of further fields
  // ---------------------------------------------------------------------

  function Optional(v: Option<ByteString>, rest: seq<ByteString>): seq<ByteString> {
    match v
    case Some(t) => [Ascii("some"), t] + rest
    case None => [Ascii("none")] + rest
  }

  function List(vs: seq<ByteString>, rest: seq<ByteString>): seq<ByteString> { [Count(|vs|)] + vs + rest }

  lemma OptionalRest(v: Option<ByteString>, rest: seq<ByteString>)
    ensures Optional(v, rest) == Optional(v, []) + rest
  {}

  lemma ListRest(vs: seq<ByteString>, rest: seq<ByteString>)
    ensures List(vs, rest) == List(vs, []) + rest
  {}

  lemma OneReads(v: ByteString, r: seq<ByteString>, w: ByteString, s: seq<ByteString>)
    requires [v] + r == [w] + s
    ensures v == w && r == s
  {
    assert v == ([v] + r)[0] && w == ([w] + s)[0];
    assert r == ([v] + r)[1..] && s == ([w] + s)[1..];
  }

  lemma OptionalReads(v: Option<ByteString>, r: seq<ByteString>, w: Option<ByteString>, s: seq<ByteString>)
    requires Optional(v, r) == Optional(w, s)
    ensures v == w && r == s
  {
    assert Ascii("some")[0] == 115 && Ascii("none")[0] == 110;
    var front, back := Optional(v, r), Optional(w, s);
    assert front[0] == back[0];
    assert v.Some? ==> front[1] == v.value && front[2..] == r;
    assert w.Some? ==> back[1] == w.value && back[2..] == s;
    assert v.None? ==> front[1..] == r;
    assert w.None? ==> back[1..] == s;
  }

  lemma ListReads(vs: seq<ByteString>, r: seq<ByteString>, ws: seq<ByteString>, s: seq<ByteString>)
    requires List(vs, r) == List(ws, s)
    ensures vs == ws && r == s
  {
    hide Count;
    var front, back := List(vs, r), List(ws, s);
    assert front[0] == Count(|vs|) && back[0] == Count(|ws|);
    CountIsInjective(|vs|, |ws|);
    assert vs == front[1..1 + |vs|] && ws == back[1..1 + |ws|];
    assert r == front[1 + |vs|..] && s == back[1 + |ws|..];
  }
}
