/** Coercion of a command-line reference token: a non-empty token of decimal
    digits is a position, any other token is a cell id. Only ASCII digits are
    modelled. */
module Coercion {
  import opened Wrappers
  import opened Cells

  predicate IsDigit(c: char) { '0' <= c <= '9' }

  /** Every character is a decimal digit (true of the empty string). */
  predicate AllDigits(s: string) { forall i :: 0 <= i < |s| ==> IsDigit(s[i]) }

  /** Python's `str.isdigit` over ASCII: non-empty and all digits. */
  predicate IsDigitString(s: string) { |s| > 0 && AllDigits(s) }

  function DigitValue(c: char): (d: nat)
    requires IsDigit(c)
    ensures d < 10
  {
    (c as int) - ('0' as int)
  }

  /** The number a digit string denotes, read most significant digit first. */
  function DigitsValue(s: string): nat
    requires AllDigits(s)
  {
    if |s| == 0 then 0
    else DigitsValue(s[..|s| - 1]) * 10 + DigitValue(s[|s| - 1])
  }

  function DigitChar(d: nat): (c: char)
    requires d < 10
    ensures IsDigit(c) && DigitValue(c) == d
  {
    ('0' as int + d) as char
  }

  /** The canonical decimal rendering of `n`, without leading zeros. */
  function ShowNat(n: nat): (s: string)
    ensures IsDigitString(s)
  {
    if n < 10 then [DigitChar(n)]
    else ShowNat(n / 10) + [DigitChar(n % 10)]
  }

  /** Turns an optional token into an optional reference. */
  function ConvertToIntIfNeeded(v: Option<string>): (r: Option<CellRef>)
    ensures v.None? <==> r.None?
    ensures v.Some? && IsDigitString(v.value) ==>
      r.Some? && r.value.ByIndex? && r.value.index >= 0
    ensures v.Some? && !IsDigitString(v.value) ==> r == Some(ById(v.value))
    // an id produced here can never be mistaken for a position
    ensures r.Some? && r.value.ById? ==> !IsDigitString(r.value.id)
  {
    match v
    case None => None
    case Some(s) => if IsDigitString(s) then Some(ByIndex(DigitsValue(s))) else Some(ById(s))
  }

  /** Reading back a rendered number gives the number. */
  lemma {:induction false} DigitsValueShowNat(n: nat)
    ensures DigitsValue(ShowNat(n)) == n
  {
    var s := ShowNat(n);
    if n >= 10 {
      assert s[..|s| - 1] == ShowNat(n / 10);
      DigitsValueShowNat(n / 10);
    } else {
      assert s[..0] == [];
    }
  }

  /** The decimal rendering of any position coerces back to that position. */
  lemma ConvertShowNat(n: nat)
    ensures ConvertToIntIfNeeded(Some(ShowNat(n))) == Some(ByIndex(n))
  {
    DigitsValueShowNat(n);
  }

  /** Leading zeros do not change the denoted number. */
  lemma {:induction false} LeadingZeroIgnored(s: string)
    requires AllDigits(s)
    ensures AllDigits("0" + s) && DigitsValue("0" + s) == DigitsValue(s)
    decreases |s|
  {
    var z := "0" + s;
    if |s| == 0 {
      assert z[..0] == [];
    } else {
      assert z[..|z| - 1] == "0" + s[..|s| - 1];
      LeadingZeroIgnored(s[..|s| - 1]);
    }
  }

  /** A token with leading zeros coerces to the same position as without. */
  lemma ConvertLeadingZero(s: string)
    requires IsDigitString(s)
    ensures ConvertToIntIfNeeded(Some("0" + s)) == ConvertToIntIfNeeded(Some(s))
  {
    LeadingZeroIgnored(s);
  }

  /** The empty token is an id, not a position. */
  lemma ConvertEmptyIsId()
    ensures ConvertToIntIfNeeded(Some("")) == Some(ById(""))
  {
  }
}
