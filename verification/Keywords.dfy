/** Keywords, their text, and the interner: a durable table with a reader-local overlay. */
module Keywords {
  import opened Bytes
  import opened Options
  import Values

  const SLASH: byte := 0x2F

  datatype Keyword = Keyword(namespace: Option<Values.Text>, name: Values.Text)

  // ---------------------------------------------------------------------
  // UTF-8 around a slash
  // ---------------------------------------------------------------------

  /** How many bytes the first character takes. */
  function FirstLength(b: seq<byte>): (n: nat)
    requires b != [] && Values.Utf8(b)
    ensures 1 <= n <= |b| && Values.Utf8(b[n..]) && (b[0] == SLASH ==> n == 1)
    ensures forall i :: 1 <= i < n ==> Values.Continuation(b[i])
  {
    if b[0] <= 0x7F then 1 else if b[0] <= 0xDF then 2 else if b[0] <= 0xEF then 3 else 4
  }

  /** Well-formedness looks at the first character and then at the rest. */
  lemma FirstThenRest(a: seq<byte>, b: seq<byte>)
    requires a != [] && Values.Utf8(a)
    ensures Values.Utf8(a + b) <==> Values.Utf8(a[FirstLength(a)..] + b)
  {
    var n := FirstLength(a);
    assert (a + b)[n..] == a[n..] + b;
  }

  lemma {:induction false} Utf8Joins(a: seq<byte>, b: seq<byte>)
    requires Values.Utf8(a) && Values.Utf8(b)
    ensures Values.Utf8(a + b)
    decreases |a|
  {
    if a == [] {
      assert a + b == b;
    } else {
      Utf8Joins(a[FirstLength(a)..], b);
      FirstThenRest(a, b);
    }
  }

  /** A slash is a character of its own, so both sides of it are text. */
  lemma {:induction false} Utf8Splits(a: seq<byte>, b: seq<byte>)
    requires Values.Utf8(a + [SLASH] + b)
    ensures Values.Utf8(a) && Values.Utf8(b)
    decreases |a|
  {
    hide Values.Utf8, FirstLength;
    var whole := a + [SLASH] + b;
    assert whole[|a|] == SLASH;
    var n := FirstLength(whole);
    if a == [] {
      assert Values.Utf8([]) by { NoBytesAreText(); }
      assert whole[1..] == b;
    } else {
      assert n <= |a|;
      assert whole[n..] == a[n..] + [SLASH] + b;
      Utf8Splits(a[n..], b);
      assert whole[..n] == a[..n];
      FirstIsEnough(whole, a, n);
    }
  }

  lemma NoBytesAreText()
    ensures Values.Utf8([])
  {}

  /** Whether bytes begin with a character depends on its own bytes alone. */
  lemma FirstIsEnough(b: seq<byte>, a: seq<byte>, n: nat)
    requires b != [] && Values.Utf8(b) && n == FirstLength(b) && n <= |a| && a[..n] == b[..n]
    requires Values.Utf8(a[n..])
    ensures Values.Utf8(a)
  {
    assert forall i :: 0 <= i < n ==> a[i] == a[..n][i] && b[i] == b[..n][i];
  }

  // ---------------------------------------------------------------------
  // Text
  // ---------------------------------------------------------------------

  /** Text as `Keyword::parse` reads it: namespace and name joined by a slash. */
  function TextOf(k: Keyword): Values.Text {
    match k.namespace
    case None => k.name
    case Some(namespace) =>
      Utf8Joins(namespace, [SLASH]);
      Utf8Joins(namespace + [SLASH], k.name);
      namespace + [SLASH] + k.name
  }

  /** The first slash, or the length. */
  function FirstSlash(t: seq<byte>): (i: nat)
    ensures i <= |t| && (i < |t| ==> t[i] == SLASH) && SLASH !in t[..i]
  {
    if t == [] || t[0] == SLASH then 0
    else
      var i := 1 + FirstSlash(t[1..]);
      assert t[..i] == [t[0]] + t[1..][..i - 1];
      i
  }

  /** `Keyword::parse`. */
  function Parse(t: Values.Text): Keyword {
    var i := FirstSlash(t);
    if 0 < i < |t| - 1 then
      assert t == t[..i] + [SLASH] + t[i + 1..];
      Utf8Splits(t[..i], t[i + 1..]);
      Keyword(Some(t[..i]), t[i + 1..])
    else Keyword(None, t)
  }

  /** A first slash with text on both sides. */
  predicate Separates(t: seq<byte>) { 0 < FirstSlash(t) < |t| - 1 }

  /** What parsing can give: a namespace without slashes and a name, or a name no slash separates. */
  predicate Parsable(k: Keyword) {
    match k.namespace
    case Some(namespace) => namespace != [] && SLASH !in namespace && k.name != []
    case None => !Separates(k.name)
  }

  lemma FirstSlashAfter(a: seq<byte>, b: seq<byte>)
    requires SLASH !in a
    ensures FirstSlash(a + [SLASH] + b) == |a|
  {
    var t := a + [SLASH] + b;
    var i := FirstSlash(t);
    assert t[|a|] == SLASH && forall j :: 0 <= j < |a| ==> t[j] == a[j];
    assert forall j :: |a| < j <= |t| ==> t[..j][|a|] == SLASH;
  }

  /** Parsing undoes rendering exactly for the keywords parsing can give; rendering always undoes parsing. */
  lemma TextRoundTrip(k: Keyword)
    ensures Parse(TextOf(k)) == k <==> Parsable(k)
  {
    if k.namespace.Some? {
      var a, b := k.namespace.value, k.name;
      if SLASH !in a {
        FirstSlashAfter(a, b);
        assert (a + [SLASH] + b)[..|a|] == a && (a + [SLASH] + b)[|a| + 1..] == b;
      }
    }
  }

  lemma ParseIsParsable(t: Values.Text)
    ensures Parsable(Parse(t)) && TextOf(Parse(t)) == t
  {
    var i := FirstSlash(t);
    if Separates(t) { assert t == t[..i] + [SLASH] + t[i + 1..]; }
  }

  // ---------------------------------------------------------------------
  // The interner
  // ---------------------------------------------------------------------

  const FIRST_LOCAL_KW_ID: nat := 0x100_0000_0000_0000

  /** A table of dense ids from a first one, and its inverse. */
  ghost predicate Dense(byKeyword: map<Keyword, nat>, byId: map<nat, Keyword>, first: nat, next: nat) {
    && (forall i :: i in byId <==> first <= i < next)
    && (forall k :: k in byKeyword ==> byKeyword[k] in byId && byId[byKeyword[k]] == k)
    && (forall i :: i in byId ==> byId[i] in byKeyword && byKeyword[byId[i]] == i)
  }

  /** A table with one more keyword at the end. */
  lemma DenseExtends(byKeyword: map<Keyword, nat>, byId: map<nat, Keyword>, first: nat, next: nat, k: Keyword)
    requires Dense(byKeyword, byId, first, next) && first <= next && k !in byKeyword
    ensures Dense(byKeyword[k := next], byId[next := k], first, next + 1)
  {}

  lemma DenseFinds(byKeyword: map<Keyword, nat>, byId: map<nat, Keyword>, first: nat, next: nat, k: Keyword)
    requires Dense(byKeyword, byId, first, next) && k in byKeyword
    ensures byKeyword[k] in byId && byId[byKeyword[k]] == k && first <= byKeyword[k] < next
  {}

  lemma DenseRange(byKeyword: map<Keyword, nat>, byId: map<nat, Keyword>, first: nat, next: nat, i: nat)
    requires Dense(byKeyword, byId, first, next)
    ensures i in byId <==> first <= i < next
  {}

  /** Every id that resolved still resolves, to the same keyword. */
  ghost predicate KeepsMeaning(before: map<nat, Keyword>, after: map<nat, Keyword>) {
    forall i :: i in before ==> i in after && after[i] == before[i]
  }

  lemma SameMeaning(names: map<nat, Keyword>)
    ensures KeepsMeaning(names, names)
  {}

  lemma NewDurableId(local: map<nat, Keyword>, byId: map<nat, Keyword>, id: nat, k: Keyword)
    requires id !in byId
    ensures KeepsMeaning(local + byId, local + byId[id := k]) <==> id !in local || local[id] == k
  {
    var before, after := local + byId, local + byId[id := k];
    assert forall i :: i != id ==> (i in before <==> i in after) && (i in before ==> after[i] == before[i]);
    assert after[id] == k && (id in before <==> id in local) && (id in local ==> before[id] == local[id]);
  }

  lemma NewLocalId(local: map<nat, Keyword>, byId: map<nat, Keyword>, id: nat, k: Keyword)
    requires id !in byId && id !in local
    ensures KeepsMeaning(local + byId, local[id := k] + byId) && (local[id := k] + byId)[id] == k
  {}

  /** Keywords read out of sealed values, shared by the clones of an interner. */
  class LocalKeywords {
    var byKeyword: map<Keyword, nat>
    var byId: map<nat, Keyword>

    constructor ()
      ensures byKeyword == map[] && byId == map[]
    {
      byKeyword, byId := map[], map[];
    }

    ghost predicate Valid()
      reads this
    {
      Dense(byKeyword, byId, FIRST_LOCAL_KW_ID, FIRST_LOCAL_KW_ID + |byId|)
    }

    /** The keyword's id, the next one when it has none. */
    method Add(k: Keyword) returns (id: nat)
      requires Valid()
      modifies this
      ensures Valid() && id >= FIRST_LOCAL_KW_ID && id in byId && byId[id] == k
      ensures if old(k in byKeyword) then byId == old(byId)
              else id !in old(byId) && byId == old(byId)[id := k] && |byId| == old(|byId|) + 1
    {
      hide Dense;
      if k in byKeyword {
        DenseFinds(byKeyword, byId, FIRST_LOCAL_KW_ID, FIRST_LOCAL_KW_ID + |byId|, k);
        return byKeyword[k];
      }
      id := FIRST_LOCAL_KW_ID + |byId|;
      DenseExtends(byKeyword, byId, FIRST_LOCAL_KW_ID, id, k);
      DenseRange(byKeyword, byId, FIRST_LOCAL_KW_ID, id, id);
      byId := byId[id := k];
      byKeyword := byKeyword[k := id];
    }
  }

  class KeywordInterner {
    var byKeyword: map<Keyword, nat>
    var byId: map<nat, Keyword>
    var next: nat
    const local: LocalKeywords

    constructor ()
      ensures Valid() && fresh(local) && Names() == map[] && next == 0 && byId == map[]
    {
      byKeyword, byId, next := map[], map[], 0;
      local := new LocalKeywords();
    }

    /** Both tables are dense and their own inverses. */
    ghost predicate Consistent()
      reads this, local
    {
      Dense(byKeyword, byId, 0, next) && local.Valid()
    }

    /** Durable ids also stay below the local range. */
    ghost predicate Valid()
      reads this, local
    {
      Consistent() && next <= FIRST_LOCAL_KW_ID
    }

    /** What ids resolve to, durable entries first. */
    function Names(): map<nat, Keyword>
      reads this, local
    {
      local.byId + byId
    }

    /** Every id keeps its meaning exactly when the next durable id was not handed out locally to another keyword. */
    method Intern(k: Keyword) returns (id: nat)
      requires Consistent()
      modifies this
      ensures Consistent() && id in byId && byId[id] == k && id < next
      ensures byId == old(byId)[id := k] && old(byId.Keys) <= byId.Keys
      ensures if old(k in byKeyword) then next == old(next) else next == old(next) + 1 && id == old(next)
      ensures KeepsMeaning(old(Names()), Names())
              <==> old(k in byKeyword || next !in local.byId || local.byId[next] == k)
      ensures old(Valid() && next < FIRST_LOCAL_KW_ID) ==> Valid() && KeepsMeaning(old(Names()), Names())
    {
      hide Dense, KeepsMeaning;
      SameMeaning(Names());
      if k in byKeyword {
        DenseFinds(byKeyword, byId, 0, next, k);
        id := byKeyword[k];
        assert byId[id := k] == byId;
        return;
      }
      id := next;
      DenseExtends(byKeyword, byId, 0, next, k);
      DenseRange(byKeyword, byId, 0, next, id);
      DenseRange(local.byKeyword, local.byId, FIRST_LOCAL_KW_ID, FIRST_LOCAL_KW_ID + |local.byId|, id);
      NewDurableId(local.byId, byId, id, k);
      next := next + 1;
      byId := byId[id := k];
      byKeyword := byKeyword[k := id];
    }

    /** Interns without touching the durable table. */
    method InternLocal(k: Keyword) returns (id: nat)
      requires Valid()
      modifies local
      ensures Valid() && id in Names() && Names()[id] == k
      ensures old(k in byKeyword) ==> id == old(byKeyword[k]) && local.byId == old(local.byId)
      ensures id >= FIRST_LOCAL_KW_ID <==> k !in byKeyword
      ensures KeepsMeaning(old(Names()), Names())
      ensures |local.byId| <= old(|local.byId|) + 1
    {
      hide Dense, KeepsMeaning;
      SameMeaning(Names());
      if k in byKeyword {
        DenseFinds(byKeyword, byId, 0, next, k);
        return byKeyword[k];
      }
      ghost var before := local.byId;
      id := local.Add(k);
      DenseRange(byKeyword, byId, 0, next, id);
      if id !in before { NewLocalId(before, byId, id, k); }
    }

    method Get(k: Keyword) returns (id: Option<nat>)
      requires Valid()
      ensures id.Some? <==> k in byKeyword || k in local.byKeyword
      ensures id.Some? ==> id.value in Names() && Names()[id.value] == k
    {
      id := if k in byKeyword then Some(byKeyword[k])
            else if k in local.byKeyword then Some(local.byKeyword[k]) else None;
    }

    method Resolve(id: nat) returns (k: Option<Keyword>)
      ensures k == if id in Names() then Some(Names()[id]) else None
    {
      k := if id in byId then Some(byId[id]) else if id in local.byId then Some(local.byId[id]) else None;
    }
  }

  /** The ids of a table in order. */
  ghost predicate Lists(byId: map<nat, Keyword>, order: seq<Keyword>) {
    && (forall i :: i in byId <==> 0 <= i < |order|)
    && (forall i :: 0 <= i < |order| ==> byId[i] == order[i])
  }

  ghost predicate Distinct(order: seq<Keyword>) { forall i, j :: 0 <= i < j < |order| ==> order[i] != order[j] }

  lemma NotYetInterned(byKeyword: map<Keyword, nat>, byId: map<nat, Keyword>, order: seq<Keyword>, i: nat)
    requires i < |order| && Dense(byKeyword, byId, 0, i) && Lists(byId, order[..i]) && Distinct(order)
    ensures order[i] !in byKeyword
  {}

  lemma ListsOneMore(byId: map<nat, Keyword>, order: seq<Keyword>, i: nat)
    requires i < |order| && Lists(byId, order[..i])
    ensures Lists(byId[i := order[i]], order[..i + 1])
  {}

  lemma ListsOnce(m: map<nat, Keyword>, n: map<nat, Keyword>, order: seq<Keyword>)
    requires Lists(m, order) && Lists(n, order)
    ensures m == n
  {}

  /** Interning a durable table's keywords again in id order gives every keyword its id. */
  method Reintern(byId: map<nat, Keyword>, order: seq<Keyword>) returns (copy: KeywordInterner)
    requires Lists(byId, order) && Distinct(order) && |order| <= FIRST_LOCAL_KW_ID
    ensures fresh(copy) && copy.Valid() && copy.byId == byId
  {
    copy := new KeywordInterner();
    assert Lists(copy.byId, order[..0]);
    hide Dense, Lists, Distinct;
    for i := 0 to |order|
      invariant fresh(copy) && fresh(copy.local) && copy.Valid() && copy.next == i && Lists(copy.byId, order[..i])
    {
      NotYetInterned(copy.byKeyword, copy.byId, order, i);
      ListsOneMore(copy.byId, order, i);
      var id := copy.Intern(order[i]);
    }
    assert order[..|order|] == order;
    ListsOnce(copy.byId, byId, order);
  }
}
