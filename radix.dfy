/**
 * Number.prototype.toString(36) on a non-negative integer (ECMA-262, section
 * 21.1.3.6): digits 0-9 then a-z, most significant first, no sign and no leading
 * zero. FromBase36 reads such a numeral back.
 */
module Radix {
  import opened JsStrings

  const Base: nat := 36
  const Zero: CodeUnit := 0x30

  predicate IsDigit36(c: CodeUnit) {
    (0x30 <= c <= 0x39) || (0x61 <= c <= 0x7A)
  }

  function DigitValue(c: CodeUnit): (d: nat)
    requires IsDigit36(c)
    ensures d < Base
  {
    if c <= 0x39 then c - 0x30 else c - 0x61 + 10
  }

  function DigitChar(d: nat): (c: CodeUnit)
    requires d < Base
    ensures IsDigit36(c) && DigitValue(c) == d
    ensures c == Zero <==> d == 0
  {
    if d < 10 then 0x30 + d else 0x61 + d - 10
  }

  predicate AllDigits(s: JsString) {
    forall i :: 0 <= i < |s| ==> IsDigit36(s[i])
  }

  /** What toString(36) can return for a non-negative integer: digits only, no leading zero. */
  predicate IsCanonical(s: JsString) {
    s != [] && AllDigits(s) && (s[0] == Zero ==> |s| == 1)
  }

  /** The base-36 numeral of `n`; it starts with the digit 0 only when `n` is 0. */
  function ToBase36(n: nat): (s: JsString)
    ensures IsCanonical(s)
    ensures s[0] == Zero <==> n == 0
  {
    if n < Base then [DigitChar(n)] else ToBase36(n / Base) + [DigitChar(n % Base)]
  }

  /** The value of a numeral made of base-36 digits. */
  function FromBase36(s: JsString): nat
    requires AllDigits(s)
  {
    if s == [] then 0 else FromBase36(s[..|s| - 1]) * Base + DigitValue(s[|s| - 1])
  }

  /** Reading back the numeral of `n` gives `n`. */
  lemma {:induction false} FromToBase36(n: nat)
    ensures FromBase36(ToBase36(n)) == n
  {
    if n >= Base {
      var s := ToBase36(n);
      assert s[..|s| - 1] == ToBase36(n / Base);
      FromToBase36(n / Base);
    }
  }

  /** A numeral whose first digit is not 0 has a positive value. */
  lemma {:induction false} LeadingDigitPositive(s: JsString)
    requires s != [] && AllDigits(s) && s[0] != Zero
    ensures FromBase36(s) >= 1
  {
    if |s| > 1 {
      LeadingDigitPositive(s[..|s| - 1]);
    }
  }

  /** Every canonical numeral is the numeral of its value, so numerals and values correspond one to one. */
  lemma {:induction false} ToFromBase36(s: JsString)
    requires IsCanonical(s)
    ensures ToBase36(FromBase36(s)) == s
  {
    if |s| > 1 {
      var p := s[..|s| - 1];
      var d := DigitValue(s[|s| - 1]);
      LeadingDigitPositive(p);
      ToFromBase36(p);
      var n := FromBase36(s);
      assert n == FromBase36(p) * Base + d;
      assert n / Base == FromBase36(p) && n % Base == d;
      assert DigitChar(d) == s[|s| - 1];
      assert s == p + [s[|s| - 1]];
    } else {
      assert DigitChar(DigitValue(s[0])) == s[0];
    }
  }
}
