/** Decimal text: how integers are written, padded and read. */
module Decimals {
  import opened Bytes
  import opened Options

  predicate IsDigit(c: char) { '0' <= c <= '9' }

  predicate AllDigits(s: string) { forall i :: 0 <= i < |s| ==> IsDigit(s[i]) }

  function Digit(n: int): char
    requires 0 <= n < 10
  {
    ('0' as int + n) as char
  }

  /** The shortest decimal text of a number. */
  function Digits(n: nat): string {
    if n < 10 then [Digit(n)] else Digits(n / 10) + [Digit(n % 10)]
  }

  /** Decimal text of at least the given width, zeros in front. */
  function Pad(n: nat, width: nat): string {
    Zeros(if |Digits(n)| < width then width - |Digits(n)| else 0) + Digits(n)
  }

  function Zeros(n: nat): string { seq(n, i => '0') }

  /** The number decimal digits write. */
  function Number(s: string): int {
    if s == [] then 0 else 10 * Number(s[..|s| - 1]) + (s[|s| - 1] as int - '0' as int)
  }

  /** Text read as a 64-bit integer: an optional sign, then digits only, within range. */
  function ParseI64(s: string): Option<int> {
    var negative := s != [] && s[0] == '-';
    var body := if s != [] && (s[0] == '-' || s[0] == '+') then s[1..] else s;
    if body == [] || !AllDigits(body) then None else
    var n := if negative then -Number(body) else Number(body);
    if -U63_LIMIT <= n < U63_LIMIT then Some(n) else None
  }

  lemma {:induction false} DigitsAreNumber(n: nat)
    ensures Digits(n) != [] && AllDigits(Digits(n)) && Number(Digits(n)) == n
  {
    if n >= 10 {
      DigitsAreNumber(n / 10);
      assert Digits(n)[..|Digits(n)| - 1] == Digits(n / 10);
    } else {
      assert Digits(n)[..0] == [];
    }
  }

  lemma {:induction false} LeadingZeros(k: nat, s: string)
    ensures Number(Zeros(k) + s) == Number(s)
    decreases k + |s|
  {
    var t := Zeros(k) + s;
    if s != [] {
      assert t[..|t| - 1] == Zeros(k) + s[..|s| - 1];
      LeadingZeros(k, s[..|s| - 1]);
    } else if k > 0 {
      assert t[..|t| - 1] == Zeros(k - 1) + [];
      LeadingZeros(k - 1, []);
    }
  }

  /** Padded text reads back, has the width asked for when it is enough, and holds digits only. */
  lemma PadReads(n: nat, width: nat)
    requires n < U63_LIMIT
    ensures Pad(n, width) != [] && AllDigits(Pad(n, width)) && ParseI64(Pad(n, width)) == Some(n)
    ensures |Digits(n)| <= width ==> |Pad(n, width)| == width
  {
    hide Digits, Number;
    DigitsAreNumber(n);
    LeadingZeros(if |Digits(n)| < width then width - |Digits(n)| else 0, Digits(n));
  }

  /** A sign is read as one, and the range is that of 64 bits. */
  lemma SignedReads(n: int)
    requires n >= 0
    ensures ParseI64(Digits(n)) == ParseI64("+" + Digits(n)) == if n < U63_LIMIT then Some(n) else None
    ensures ParseI64("-" + Digits(n)) == if n <= U63_LIMIT then Some(-n) else None
  {
    hide Digits, Number;
    DigitsAreNumber(n);
    assert ("+" + Digits(n))[1..] == Digits(n) && ("-" + Digits(n))[1..] == Digits(n);
    assert IsDigit(Digits(n)[0]);
  }

  lemma ThreeDigits(n: nat)
    requires n < 1000
    ensures |Digits(n)| <= 3
  {
    var m := n / 10;
    assert n >= 10 ==> Digits(n) == Digits(m) + [Digit(n % 10)];
    assert m >= 10 ==> Digits(m) == Digits(m / 10) + [Digit(m % 10)];
  }

  lemma {:induction false} NumberIsNatural(s: string)
    requires AllDigits(s)
    ensures Number(s) >= 0
    decreases |s|
  {
    if s != [] { NumberIsNatural(s[..|s| - 1]); }
  }

  /** Without a minus sign the number read is not negative. */
  lemma UnsignedIsNatural(s: string)
    requires ParseI64(s).Some? && '-' !in s
    ensures ParseI64(s).value >= 0
  {
    assert s != [];
    NumberIsNatural(if s[0] == '+' then s[1..] else s);
  }
}
