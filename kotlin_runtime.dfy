/**
 * The small part of the Kotlin runtime that the agenda's value types rely on:
 * 32-bit `Int` with wrap-around, thrown exceptions as values, `Int.toString`,
 * `String.toInt` on runs of ASCII digits, `String.padStart`, and ASCII
 * `toLowerCase` / `replace(Char, Char)`.
 */
module KotlinRuntime {

  /** Kotlin's `Int`: a signed 32-bit integer. */
  type Int32 = x: int | -0x8000_0000 <= x <= 0x7fff_ffff

  const MinInt: int := -0x8000_0000
  const MaxInt: int := 0x7fff_ffff

  /** Two's-complement wrap-around to 32 bits, as every Kotlin `Int` operation does. */
  function Wrap(x: int): (r: Int32)
    ensures (r - x) % 0x1_0000_0000 == 0
    ensures MinInt <= x <= MaxInt ==> r == x
  {
    (x - MinInt) % 0x1_0000_0000 + MinInt
  }

  /** Wrapping identifies exactly the integers that agree modulo 2^32. */
  lemma WrapCongruent(x: int, y: int)
    ensures Wrap(x) == Wrap(y) <==> (x - y) % 0x1_0000_0000 == 0
  {
    var q := (x - MinInt) / 0x1_0000_0000;
    var p := (y - MinInt) / 0x1_0000_0000;
    assert x - MinInt == q * 0x1_0000_0000 + (x - MinInt) % 0x1_0000_0000;
    assert y - MinInt == p * 0x1_0000_0000 + (y - MinInt) % 0x1_0000_0000;
    assert x - y == (q - p) * 0x1_0000_0000 + (Wrap(x) - Wrap(y));
  }

  /** Wrapping an intermediate result changes nothing once the final result is wrapped. */
  lemma WrapInner(a: int, b: int)
    ensures Wrap(Wrap(a) + b) == Wrap(a + b)
    ensures Wrap(31 * Wrap(a)) == Wrap(31 * a)
  {
    var q := (Wrap(a) - a) / 0x1_0000_0000;
    assert Wrap(a) - a == q * 0x1_0000_0000;
    WrapCongruent(Wrap(a) + b, a + b);
    assert 31 * Wrap(a) - 31 * a == (31 * q) * 0x1_0000_0000;
    WrapCongruent(31 * Wrap(a), 31 * a);
  }

  /** The exceptions the modelled code can throw. */
  datatype Exception =
    | IllegalArgumentException(message: string)
    | IllegalStateException(message: string)
    | NumberFormatException(input: string)

  /** A call either returns a value or throws. */
  datatype Outcome<+T> = Returned(value: T) | Thrown(exception: Exception)

  // ---------------------------------------------------------------------------
  // Decimal digits

  /** The ASCII digits, which is what `\d` matches in a JVM regex without UNICODE_CHARACTER_CLASS. */
  predicate IsDigit(c: char) {
    '0' <= c <= '9'
  }

  predicate AllDigits(s: string) {
    forall i :: 0 <= i < |s| ==> IsDigit(s[i])
  }

  function DigitValue(c: char): (d: nat)
    requires IsDigit(c)
    ensures d < 10
  {
    c as int - '0' as int
  }

  function DigitChar(d: nat): (c: char)
    requires d < 10
    ensures IsDigit(c) && DigitValue(c) == d
  {
    ('0' as int + d) as char
  }

  function Pow10(n: nat): (p: nat)
    ensures p >= 1
  {
    if n == 0 then 1 else 10 * Pow10(n - 1)
  }

  /** The number a run of decimal digits denotes, leading zeros allowed. */
  function DigitsValue(s: string): (v: nat)
    requires AllDigits(s)
    ensures v < Pow10(|s|)
  {
    if s == [] then 0
    else
      var v0 := DigitsValue(s[..|s| - 1]);
      assert v0 * 10 <= (Pow10(|s| - 1) - 1) * 10;
      v0 * 10 + DigitValue(s[|s| - 1])
  }

  lemma {:induction false} Pow10Monotone(a: nat, b: nat)
    requires a <= b
    ensures Pow10(a) <= Pow10(b)
  {
    if a < b {
      Pow10Monotone(a, b - 1);
    }
  }

  /** A digit run that does not start with '0' denotes at least 10^(length - 1). */
  lemma {:induction false} LeadingDigitBound(s: string)
    requires |s| > 0 && AllDigits(s) && s[0] != '0'
    ensures DigitsValue(s) >= Pow10(|s| - 1)
  {
    if |s| > 1 {
      var p := s[..|s| - 1];
      assert p[0] == s[0];
      LeadingDigitBound(p);
    }
  }

  /** A digit run as `Int.toString` prints it: non-empty, no leading zero unless it is "0". */
  predicate Canonical(s: string) {
    |s| > 0 && AllDigits(s) && (s[0] == '0' ==> |s| == 1)
  }

  /** `Int.toString` of a non-negative value. */
  function NatToString(n: nat): (s: string)
    ensures Canonical(s)
    ensures n < 10 <==> |s| == 1
  {
    if n < 10 then [DigitChar(n)]
    else
      var s0 := NatToString(n / 10);
      assert (s0 + [DigitChar(n % 10)])[0] == s0[0];
      s0 + [DigitChar(n % 10)]
  }

  /** `Int.toString`: a minus sign, then the digits of the magnitude. */
  function IntToString(n: int): string {
    if n < 0 then "-" + NatToString(-n) else NatToString(n)
  }

  /** Reading back what `Int.toString` printed gives the number again. */
  lemma {:induction false} ValueOfNatToString(n: nat)
    ensures DigitsValue(NatToString(n)) == n
  {
    if n >= 10 {
      var s := NatToString(n);
      ValueOfNatToString(n / 10);
      assert s[..|s| - 1] == NatToString(n / 10);
    }
  }

  /** Printing the value of a canonical digit run gives that run again. */
  lemma {:induction false} NatToStringOfValue(s: string)
    requires Canonical(s)
    ensures NatToString(DigitsValue(s)) == s
  {
    var n := DigitsValue(s);
    if |s| == 1 {
      assert n == DigitValue(s[0]);
      assert NatToString(n) == [DigitChar(n)];
    } else {
      var p := s[..|s| - 1];
      assert p[0] == s[0];
      NatToStringOfValue(p);
      var d := DigitValue(s[|s| - 1]);
      assert n == DigitsValue(p) * 10 + d;
      assert p[0] != '0';
      assert NatToString(0) == "0";
      assert DigitsValue(p) != 0;
      assert n / 10 == DigitsValue(p) && n % 10 == d;
      assert s == p + [s[|s| - 1]];
    }
  }

  /** `Int.toString` is injective on non-negative values. */
  lemma NatToStringInjective(a: nat, b: nat)
    requires NatToString(a) == NatToString(b)
    ensures a == b
  {
    ValueOfNatToString(a);
    ValueOfNatToString(b);
  }

  /** The value of a prefix never exceeds the value of the whole digit run. */
  lemma {:induction false} PrefixValueBound(s: string, k: nat)
    requires AllDigits(s) && k <= |s|
    ensures DigitsValue(s[..k]) <= DigitsValue(s)
  {
    if k < |s| {
      var p := s[..|s| - 1];
      assert p[..k] == s[..k];
      PrefixValueBound(p, k);
      assert DigitsValue(s) == DigitsValue(p) * 10 + DigitValue(s[|s| - 1]);
    } else {
      assert s[..k] == s;
    }
  }

  /**
   * The digit loop of `Integer.parseInt`: `acc` is the value of the digits
   * read so far; a non-digit, or a next value above `Int.MAX_VALUE`, throws on
   * the spot.
   */
  function ParseDigits(s: string, i: nat, acc: Int32): (r: Outcome<Int32>)
    requires i <= |s| && AllDigits(s[..i]) && acc == DigitsValue(s[..i])
    ensures r.Returned? <==> AllDigits(s) && DigitsValue(s) <= MaxInt
    ensures r.Returned? ==> r.value == DigitsValue(s)
    ensures r.Thrown? ==> r.exception == NumberFormatException(s)
    decreases |s| - i
  {
    if i == |s| then
      assert s[..i] == s;
      Returned(acc)
    else if !IsDigit(s[i]) then
      Thrown(NumberFormatException(s))
    else
      var next := acc * 10 + DigitValue(s[i]);
      assert s[..i + 1][..i] == s[..i];
      assert AllDigits(s[..i + 1]) && next == DigitsValue(s[..i + 1]);
      if next > MaxInt then
        assert AllDigits(s) ==> DigitsValue(s) > MaxInt by {
          if AllDigits(s) {
            PrefixValueBound(s, i + 1);
          }
        }
        Thrown(NumberFormatException(s))
      else
        ParseDigits(s, i + 1, next)
  }

  /**
   * `String.toInt` (`Integer.parseInt`) on unsigned input: the value of a
   * non-empty run of ASCII digits up to `Int.MAX_VALUE`, and
   * `NumberFormatException` for the empty string, a non-digit, or a larger
   * value.
   */
  function ToInt(s: string): (r: Outcome<Int32>)
    ensures r.Returned? <==> |s| > 0 && AllDigits(s) && DigitsValue(s) <= MaxInt
    ensures r.Returned? ==> r.value == DigitsValue(s)
    ensures r.Thrown? ==> r.exception == NumberFormatException(s)
  {
    if |s| == 0 then Thrown(NumberFormatException(s))
    else
      assert s[..0] == [];
      ParseDigits(s, 0, 0)
  }

  // ---------------------------------------------------------------------------
  // String helpers

  /** `s.padStart(length, padChar)`: prefix `padChar`s until the string is `length` long. */
  function PadStart(s: string, length: nat, padChar: char): (r: string)
    ensures |r| == if |s| >= length then |s| else length
    ensures r[|r| - |s|..] == s
    ensures forall i :: 0 <= i < |r| - |s| ==> r[i] == padChar
  {
    if |s| >= length then s else seq(length - |s|, _ => padChar) + s
  }

  predicate IsUpper(c: char) {
    'A' <= c <= 'Z'
  }

  /** ASCII lower-casing of one character. */
  function LowerChar(c: char): (r: char)
    ensures !IsUpper(r)
    ensures IsUpper(c) ==> r as int == c as int + 32
    ensures !IsUpper(c) ==> r == c
  {
    if IsUpper(c) then (c as int + 32) as char else c
  }

  /** `s.toLowerCase()` restricted to ASCII letters. */
  function Lowercase(s: string): (r: string)
    ensures |r| == |s|
    ensures forall i :: 0 <= i < |s| ==> r[i] == LowerChar(s[i])
  {
    if s == [] then [] else [LowerChar(s[0])] + Lowercase(s[1..])
  }

  /** `s.replace(oldChar, newChar)`: every occurrence of `oldChar` becomes `newChar`. */
  function Replace(s: string, oldChar: char, newChar: char): (r: string)
    ensures |r| == |s|
    ensures forall i :: 0 <= i < |s| ==> r[i] == if s[i] == oldChar then newChar else s[i]
  {
    if s == [] then []
    else [if s[0] == oldChar then newChar else s[0]] + Replace(s[1..], oldChar, newChar)
  }
}
