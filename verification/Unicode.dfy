/** The byte strings taken as text are exactly the encodings of sequences of Unicode scalar values. */
module Unicode {
  import opened Bytes
  import opened Values

  /** A code point that is not a surrogate. */
  predicate IsScalar(c: int) { 0 <= c <= 0x10FFFF && !(0xD800 <= c <= 0xDFFF) }

  /** The shortest form of a scalar value, as section 3.9 of the Unicode Standard defines UTF-8. */
  function CharBytes(c: int): seq<byte>
    requires IsScalar(c)
  {
    if c < 0x80 then [c]
    else if c < 0x800 then [0xC0 + c / 64, 0x80 + c % 64]
    else if c < 0x10000 then [0xE0 + c / 4096, 0x80 + c / 64 % 64, 0x80 + c % 64]
    else [0xF0 + c / 262144, 0x80 + c / 4096 % 64, 0x80 + c / 64 % 64, 0x80 + c % 64]
  }

  predicate AllScalars(cs: seq<int>) { forall i :: 0 <= i < |cs| ==> IsScalar(cs[i]) }

  function TextBytes(cs: seq<int>): seq<byte>
    requires AllScalars(cs)
  {
    if cs == [] then [] else CharBytes(cs[0]) + TextBytes(cs[1..])
  }

  lemma CharIsUtf8(c: int, rest: seq<byte>)
    requires IsScalar(c) && Utf8(rest)
    ensures Utf8(CharBytes(c) + rest)
  {
    var b := CharBytes(c) + rest;
    assert b[|CharBytes(c)|..] == rest;
    if 0x10000 <= c { assert 0 <= c / 262144 <= 4; }
  }

  lemma {:induction false} TextIsUtf8(cs: seq<int>)
    requires AllScalars(cs)
    ensures Utf8(TextBytes(cs))
    decreases |cs|
  {
    if cs != [] {
      TextIsUtf8(cs[1..]);
      CharIsUtf8(cs[0], TextBytes(cs[1..]));
    }
  }

  /** The first scalar of a text. */
  lemma FirstChar(b: seq<byte>) returns (c: int)
    requires b != [] && Utf8(b)
    ensures IsScalar(c) && CharBytes(c) <= b && Utf8(b[|CharBytes(c)|..])
  {
    if b[0] <= 0x7F {
      c := b[0];
      assert CharBytes(c) == b[..1];
    } else if b[0] <= 0xDF {
      c := TwoBytes(b[0], b[1]);
      assert CharBytes(c) == b[..2];
    } else if b[0] <= 0xEF {
      c := ThreeBytes(b[0], b[1], b[2]);
      assert CharBytes(c) == b[..3];
    } else {
      c := FourBytes(b[0], b[1], b[2], b[3]);
      assert CharBytes(c) == b[..4];
    }
  }

  lemma TwoBytes(x: byte, y: byte) returns (c: int)
    requires 0xC2 <= x <= 0xDF && Continuation(y)
    ensures IsScalar(c) && CharBytes(c) == [x, y]
  {
    c := (x - 0xC0) * 64 + (y - 0x80);
  }

  lemma ThreeBytes(x: byte, y: byte, z: byte) returns (c: int)
    requires 0xE0 <= x <= 0xEF && Continuation(y) && Continuation(z)
    requires (x == 0xE0 ==> y >= 0xA0) && (x == 0xED ==> y <= 0x9F)
    ensures IsScalar(c) && CharBytes(c) == [x, y, z]
  {
    var high := (x - 0xE0) * 64 + (y - 0x80);
    c := high * 64 + (z - 0x80);
    assert c / 64 == high && c / 4096 == x - 0xE0;
  }

  lemma FourBytes(x: byte, y: byte, z: byte, w: byte) returns (c: int)
    requires 0xF0 <= x <= 0xF4 && Continuation(y) && Continuation(z) && Continuation(w)
    requires (x == 0xF0 ==> y >= 0x90) && (x == 0xF4 ==> y <= 0x8F)
    ensures IsScalar(c) && CharBytes(c) == [x, y, z, w]
  {
    var top := (x - 0xF0) * 64 + (y - 0x80);
    var high := top * 64 + (z - 0x80);
    c := high * 64 + (w - 0x80);
    assert c / 64 == high && c / 4096 == top && c / 262144 == x - 0xF0;
  }

  lemma {:induction false} Utf8IsText(b: seq<byte>) returns (cs: seq<int>)
    requires Utf8(b)
    ensures AllScalars(cs) && TextBytes(cs) == b
    decreases |b|
  {
    if b == [] {
      cs := [];
    } else {
      var c := FirstChar(b);
      var n := |CharBytes(c)|;
      var rest := Utf8IsText(b[n..]);
      cs := [c] + rest;
      assert cs[1..] == rest && b == b[..n] + b[n..];
    }
  }

  /** Both ways: no overlong form, surrogate or stray byte is taken, and no text refused. */
  lemma Utf8IsExact(b: seq<byte>)
    ensures Utf8(b) <==> exists cs :: AllScalars(cs) && TextBytes(cs) == b
  {
    hide Utf8;
    if Utf8(b) { var cs := Utf8IsText(b); }
    if cs :| AllScalars(cs) && TextBytes(cs) == b { TextIsUtf8(cs); }
  }
}
