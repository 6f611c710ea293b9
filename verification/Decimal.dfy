/** Decimal numerals: what utoa writes and what strtoul reads, as functions. */
module Decimal {
  import opened Machine

  const ULONG_MAX: nat := TWO64 - 1

  predicate IsDigit(c: byte) { 48 <= c <= 57 }

  predicate AllDigits(s: seq<byte>) { forall i | 0 <= i < |s| :: IsDigit(s[i]) }

  /** The number a digit string denotes. */
  function Value(s: seq<byte>): nat
    requires AllDigits(s)
  {
    if s == [] then 0 else Value(s[..|s| - 1]) * 10 + (s[|s| - 1] as int) - 48
  }

  function DigitByte(d: nat): byte
    requires d < 10
  {
    48 + d
  }

  lemma DigitIsCharacter(d: nat)
    requires d < 10
    ensures DigitByte(d) == "0123456789"[d] as int
  {
  }

  /** The numeral without leading zeros. */
  function Numeral(v: nat): (s: seq<byte>)
    ensures s != [] && AllDigits(s)
  {
    if v < 10 then [DigitByte(v)] else Numeral(v / 10) + [DigitByte(v % 10)]
  }

  lemma {:induction false} ValueOfNumeral(v: nat)
    ensures Value(Numeral(v)) == v
  {
    if v >= 10 {
      var s := Numeral(v);
      assert s[..|s| - 1] == Numeral(v / 10);
      ValueOfNumeral(v / 10);
    } else {
      assert Numeral(v)[..0] == [];
    }
  }

  /** Only zero is written with a leading zero, and then it is the only digit. */
  lemma {:induction false} NoLeadingZero(v: nat)
    ensures Numeral(v)[0] == 48 <==> v == 0
    ensures |Numeral(v)| == 1 <==> v < 10
  {
    if v >= 10 { NoLeadingZero(v / 10); }
  }

  /** 64-bit values need at most 20 digits. */
  lemma {:induction false} NumeralLength(v: nat, n: nat, bound: nat)
    requires n > 0 && v < bound && bound == Pow10(n)
    ensures |Numeral(v)| <= n
  {
    if v >= 10 {
      NumeralLength(v / 10, n - 1, Pow10(n - 1));
    }
  }

  function Pow10(n: nat): nat { if n == 0 then 1 else 10 * Pow10(n - 1) }

  lemma {:induction false} ValueGrows(s: seq<byte>, i: nat)
    requires AllDigits(s) && i <= |s|
    ensures Value(s[..i]) <= Value(s)
    decreases |s|
  {
    if i < |s| {
      ValueGrows(s[..|s| - 1], i);
      assert s[..|s| - 1][..i] == s[..i];
    } else {
      assert s[..i] == s;
    }
  }

  lemma ValueStep(s: seq<byte>, i: nat)
    requires i < |s| && AllDigits(s[..i + 1])
    ensures AllDigits(s[..i]) && IsDigit(s[i])
    ensures Value(s[..i + 1]) == Value(s[..i]) * 10 + (s[i] as int) - 48
  {
    assert s[..i + 1][..i] == s[..i];
    assert s[..i + 1][i] == s[i];
  }
}
