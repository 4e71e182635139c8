/**
 * `safe_int` (main.py): Python's `int(text)` with every failure replaced by a
 * default. The accepted grammar is an optional sign followed by one to
 * `MaxStrDigits` ASCII decimal digits, which covers the scores and counts
 * Hacker News renders; `int`'s underscores and non-ASCII digits are not
 * modelled.
 */
module PyInt {
  import opened Wrappers

  predicate IsDigit(c: char) {
    '0' <= c <= '9'
  }

  predicate IsDigits(s: string) {
    |s| > 0 && forall i :: 0 <= i < |s| ==> IsDigit(s[i])
  }

  /**
   * CPython's default `sys.int_max_str_digits`: `int()` raises `ValueError`
   * on a decimal digit run longer than this, and `str()` on an integer whose
   * rendering would be longer.
   */
  const MaxStrDigits: nat := 4300

  /** Strings `int()` accepts in this model: `[+-]?[0-9]+` with at most `MaxStrDigits` digits. */
  predicate IsIntLiteral(s: string) {
    || (IsDigits(s) && |s| <= MaxStrDigits)
    || (|s| > 0 && (s[0] == '+' || s[0] == '-') && IsDigits(s[1..]) && |s| - 1 <= MaxStrDigits)
  }

  function DigitValue(c: char): nat
    requires IsDigit(c)
  {
    (c as int) - ('0' as int)
  }

  function DigitChar(d: nat): char
    requires d < 10
  {
    (('0' as int) + d) as char
  }

  /** The value of a run of decimal digits, most significant first (leading zeros allowed). */
  function DigitsValue(s: string): nat
    requires forall i :: 0 <= i < |s| ==> IsDigit(s[i])
  {
    if |s| == 0 then 0 else 10 * DigitsValue(s[..|s| - 1]) + DigitValue(s[|s| - 1])
  }

  /** Python's `int(s)` on the modelled grammar; `None` where `int` raises `ValueError`. */
  function ParseInt(s: string): (r: Option<int>)
    ensures r.Some? <==> IsIntLiteral(s)
    ensures r.Some? && s[0] == '-' ==> r.value <= 0
    ensures r.Some? && s[0] != '-' ==> r.value >= 0
  {
    if !IsIntLiteral(s) then None
    else if IsDigits(s) then Some(DigitsValue(s))
    else
      var magnitude: int := DigitsValue(s[1..]);
      var value: int := if s[0] == '-' then -magnitude else magnitude;
      Some(value)
  }

  /** `safe_int(text, default)`: the parsed integer, or `default` whenever `int` would raise. */
  function SafeInt(text: string, default: int): (r: int)
    ensures IsIntLiteral(text) ==> Some(r) == ParseInt(text)
    ensures !IsIntLiteral(text) ==> r == default
  {
    ParseInt(text).GetOr(default)
  }

  /** Python's `str(n)` for a natural number: shortest decimal rendering. */
  function NatToString(n: nat): (r: string)
    ensures IsDigits(r)
    ensures r[0] == '0' ==> n == 0
  {
    if n < 10 then [DigitChar(n)] else NatToString(n / 10) + [DigitChar(n % 10)]
  }

  /** `str(n)` succeeds: the decimal rendering of `|n|` has at most `MaxStrDigits` digits. */
  predicate Renderable(n: int) {
    |NatToString(if n < 0 then -n else n)| <= MaxStrDigits
  }

  /** Python's `str(n)` for an integer, as the digits it would print; it raises unless `Renderable(n)`. */
  function IntToString(n: int): (r: string)
    ensures IsIntLiteral(r) <==> Renderable(n)
    ensures forall i :: 0 <= i < |r| ==> r[i] == '-' || IsDigit(r[i])
  {
    if n < 0 then "-" + NatToString(-n) else NatToString(n)
  }

  // ---------------------------------------------------------------------
  // Partner properties

  lemma {:induction false} DigitsValueOfNatToString(n: nat)
    ensures DigitsValue(NatToString(n)) == n
  {
    if n >= 10 {
      var s := NatToString(n);
      assert s[..|s| - 1] == NatToString(n / 10);
      DigitsValueOfNatToString(n / 10);
    }
  }

  /** Parsing inverts rendering: `int(str(n)) == n` for every integer `str` can render. */
  lemma ParseIntOfIntToString(n: int)
    requires Renderable(n)
    ensures ParseInt(IntToString(n)) == Some(n)
  {
    if n < 0 {
      var s := IntToString(n);
      assert s[1..] == NatToString(-n);
      DigitsValueOfNatToString(-n);
    } else {
      DigitsValueOfNatToString(n);
    }
  }

  /** `safe_int` returns the number a rendered integer denotes, whatever the default. */
  lemma SafeIntOfIntToString(n: int, default: int)
    requires Renderable(n)
    ensures SafeInt(IntToString(n), default) == n
  {
    ParseIntOfIntToString(n);
  }

  /** `safe_int` never fails: off the grammar it returns exactly `default`. */
  lemma SafeIntFallback(text: string, default: int)
    requires !IsIntLiteral(text)
    ensures SafeInt(text, default) == default
  {
  }

  /**
   * A leading minus negates: `int("-" + t) == -int(t)` for a digit run `t`,
   * and both raise together when `t` is too long.
   */
  lemma ParseIntNegative(t: string)
    requires IsDigits(t)
    ensures ParseInt("-" + t).Some? <==> ParseInt(t).Some?
    ensures ParseInt(t).Some? ==> ParseInt("-" + t) == Some(-ParseInt(t).value)
  {
    assert ("-" + t)[1..] == t;
  }

  /** An explicit plus sign changes nothing: `int("+" + t) == int(t)` for a digit run `t`. */
  lemma ParseIntPlus(t: string)
    requires IsDigits(t)
    ensures ParseInt("+" + t) == ParseInt(t)
  {
    assert ("+" + t)[1..] == t;
  }

  /** A leading zero does not change the value of a digit run. */
  lemma {:induction false} DigitsValueLeadingZero(t: string)
    requires forall i :: 0 <= i < |t| ==> IsDigit(t[i])
    ensures DigitsValue("0" + t) == DigitsValue(t)
  {
    if |t| > 0 {
      var s := "0" + t;
      assert s[..|s| - 1] == "0" + t[..|t| - 1];
      assert s[|s| - 1] == t[|t| - 1];
      DigitsValueLeadingZero(t[..|t| - 1]);
    }
  }

  /** Leading zeros are accepted and ignored: `int("0" + t) == int(t)` while the digit limit allows it. */
  lemma ParseIntLeadingZero(t: string)
    requires IsDigits(t) && |t| < MaxStrDigits
    ensures ParseInt("0" + t) == ParseInt(t)
  {
    assert IsDigits("0" + t);
    DigitsValueLeadingZero(t);
  }

  /** A digit run longer than `MaxStrDigits` makes `int` raise, so `safe_int` falls back to its default. */
  lemma OverlongDigitsRejected(t: string, default: int)
    requires IsDigits(t) && |t| > MaxStrDigits
    ensures ParseInt(t) == None && ParseInt("+" + t) == None && ParseInt("-" + t) == None
    ensures SafeInt(t, default) == default
  {
    assert ("+" + t)[1..] == t;
    assert ("-" + t)[1..] == t;
  }
}
