/**
 * Decimal text for one matrix entry. The Go program formats entries with
 * `%f` and reads them back with strconv.ParseFloat; with integer entries
 * the model uses an exact decimal form: an optional sign followed by
 * digits. ParseInt accepts that form and nothing else.
 */
module Numbers {
  import opened Wrappers

  predicate IsDigit(c: char) { '0' <= c <= '9' }

  function DigitChar(d: nat): (c: char)
    requires d < 10
    ensures IsDigit(c)
  {
    ('0' as int + d) as char
  }

  function DigitValue(c: char): (d: nat)
    requires IsDigit(c)
    ensures d < 10
  {
    (c as int - '0' as int) as nat
  }

  predicate AllDigits(s: string) { forall i :: 0 <= i < |s| ==> IsDigit(s[i]) }

  /** The decimal digits of `n`, most significant first, without leading zeros. */
  function FormatNat(n: nat): (s: string)
    ensures |s| >= 1 && AllDigits(s)
  {
    if n < 10 then [DigitChar(n)] else FormatNat(n / 10) + [DigitChar(n % 10)]
  }

  /** `x` in decimal: a leading '-' for negatives, then the digits of its magnitude. */
  function FormatInt(x: int): string {
    if x < 0 then "-" + FormatNat(-x) else FormatNat(x)
  }

  /** The value of a non-empty or empty run of digits, read left to right; None as soon as a character is not a digit. */
  function ParseDigits(s: string): Option<nat> {
    if s == [] then Some(0)
    else
      match ParseDigits(s[..|s| - 1])
      case None => None
      case Some(v) => if IsDigit(s[|s| - 1]) then Some(v * 10 + DigitValue(s[|s| - 1])) else None
  }

  /** Reads an optional '+' or '-' followed by at least one digit; anything else does not parse. */
  function ParseInt(s: string): Option<int> {
    if |s| >= 2 && (s[0] == '-' || s[0] == '+') then
      match ParseDigits(s[1..])
      case None => None
      case Some(v) =>
        var magnitude: int := v;
        Some(if s[0] == '-' then -magnitude else magnitude)
    else if |s| >= 1 then
      match ParseDigits(s)
      case None => None
      case Some(v) => Some(v)
    else
      None
  }

  /** A run of characters reads as a number exactly when every one of them is a digit. */
  lemma {:induction false} ParseDigitsAccepts(s: string)
    ensures ParseDigits(s).Some? <==> AllDigits(s)
  {
    if s != [] {
      ParseDigitsAccepts(s[..|s| - 1]);
      assert forall i :: 0 <= i < |s| - 1 ==> s[..|s| - 1][i] == s[i];
    }
  }

  lemma {:induction false} NatRoundTrip(n: nat)
    ensures ParseDigits(FormatNat(n)) == Some(n)
  {
    if n >= 10 {
      NatRoundTrip(n / 10);
      var s := FormatNat(n);
      assert s[..|s| - 1] == FormatNat(n / 10);
      assert DigitValue(DigitChar(n % 10)) == n % 10;
    } else {
      assert [DigitChar(n)][..0] == [];
      assert DigitValue(DigitChar(n)) == n;
    }
  }

  /** Formatting then parsing gives the number back. */
  lemma IntRoundTrip(x: int)
    ensures ParseInt(FormatInt(x)) == Some(x)
  {
    var s := FormatInt(x);
    if x < 0 {
      var digits := FormatNat(-x);
      NatRoundTrip(-x);
      assert s == "-" + digits && s[1..] == digits;
    } else {
      NatRoundTrip(x);
      assert IsDigit(s[0]);
    }
  }

  /**
   * What the codec relies on about one formatted entry: it is not empty,
   * its characters are digits or '-', it starts with one of those and ends
   * with a digit, and every '-' in it is followed by a digit.
   */
  lemma FormatIntShape(x: int)
    ensures |FormatInt(x)| >= 1
    ensures forall i :: 0 <= i < |FormatInt(x)| ==> IsDigit(FormatInt(x)[i]) || FormatInt(x)[i] == '-'
    ensures IsDigit(FormatInt(x)[|FormatInt(x)| - 1])
    ensures forall i :: 0 <= i < |FormatInt(x)| && FormatInt(x)[i] == '-' ==> i + 1 < |FormatInt(x)| && IsDigit(FormatInt(x)[i + 1])
  {
  }
}
