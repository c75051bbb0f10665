/** Decimal text of integers: Python's `str(int)` (the serialiser of
    `encrypt`) and a simple model of `int(text)` (the parser of `decrypt`). */
module Decimal {
  import opened Options

  predicate IsDigit(c: char) { '0' <= c <= '9' }

  predicate AllDigits(s: string) { forall i :: 0 <= i < |s| ==> IsDigit(s[i]) }

  function DigitChar(d: nat): (c: char)
    requires d < 10
    ensures IsDigit(c) && c as int - '0' as int == d
  {
    ('0' as int + d) as char
  }

  /** The value of a string of decimal digits, most significant first. */
  function DigitsValue(s: string): nat
    requires AllDigits(s)
  {
    if s == [] then 0
    else DigitsValue(s[..|s| - 1]) * 10 + (s[|s| - 1] as int - '0' as int)
  }

  /** Minimal decimal text of a natural number (no leading zeros). */
  function ShowNat(n: nat): (s: string)
    ensures |s| > 0 && AllDigits(s)
    ensures s[0] == '0' ==> n == 0
    ensures |s| > 1 ==> s[0] != '0'
    ensures n == 0 <==> s == "0"
  {
    if n < 10 then [DigitChar(n)] else ShowNat(n / 10) + [DigitChar(n % 10)]
  }

  /** `str(n)` for a Python int: an optional minus sign, then the digits. */
  function Show(n: int): (s: string)
    ensures |s| > 0
    ensures forall i :: 0 <= i < |s| ==> IsDigit(s[i]) || (i == 0 && s[i] == '-')
  {
    if n < 0 then "-" + ShowNat(-n) else ShowNat(n)
  }

  /** A non-empty run of decimal digits, or nothing. */
  function ParseDigits(s: string): Option<nat>
  {
    if |s| > 0 && AllDigits(s) then Some(DigitsValue(s)) else None
  }

  /** `int(text)` on text that has already been stripped: an optional sign
      `+` or `-` followed by at least one ASCII digit. */
  function ParseInt(s: string): (r: Option<int>)
    ensures s == [] ==> r == None
    ensures r.Some? && r.value < 0 ==> s[0] == '-'
  {
    if |s| > 0 && s[0] == '-' then
      match ParseDigits(s[1..])
      case Some(v) => Some(-(v as int))
      case None => None
    else if |s| > 0 && s[0] == '+' then
      match ParseDigits(s[1..])
      case Some(v) => Some(v)
      case None => None
    else
      match ParseDigits(s)
      case Some(v) => Some(v)
      case None => None
  }

  lemma {:induction false} DigitsValueShowNat(n: nat)
    ensures DigitsValue(ShowNat(n)) == n
  {
    if n >= 10 {
      var s := ShowNat(n);
      assert s[..|s| - 1] == ShowNat(n / 10);
      DigitsValueShowNat(n / 10);
    }
  }

  /** Printing an integer and reading it back gives the same integer. */
  lemma ParseShow(n: int)
    ensures ParseInt(Show(n)) == Some(n)
  {
    if n < 0 {
      assert Show(n)[1..] == ShowNat(-n);
      DigitsValueShowNat(-n);
    } else {
      DigitsValueShowNat(n);
    }
  }

  /** `n` zero digits. */
  function Zeros(n: nat): (s: string)
    ensures |s| == n && AllDigits(s)
    ensures forall i :: 0 <= i < n ==> s[i] == '0'
  {
    seq(n, _ => '0')
  }

  /** A leading zero digit does not change the value. */
  lemma {:induction false} DigitsValueLeadingZero(s: string)
    requires AllDigits(s)
    ensures DigitsValue("0" + s) == DigitsValue(s)
  {
    if s != [] {
      var t := "0" + s;
      assert t[..|t| - 1] == "0" + s[..|s| - 1];
      DigitsValueLeadingZero(s[..|s| - 1]);
    } else {
      assert ("0" + s)[..0] == [];
    }
  }

  /** Any number of leading zeros does not change the value. */
  lemma {:induction false} DigitsValueZeros(z: nat, s: string)
    requires AllDigits(s)
    ensures DigitsValue(Zeros(z) + s) == DigitsValue(s)
  {
    if z > 0 {
      assert Zeros(z) + s == "0" + (Zeros(z - 1) + s);
      DigitsValueZeros(z - 1, s);
      DigitsValueLeadingZero(Zeros(z - 1) + s);
    } else {
      assert Zeros(z) + s == s;
    }
  }

  /** `int()` accepts leading zeros: zero digits in front of `str(n)`, with
      or without a sign, read back as `n` (or `-n`). */
  lemma ParseLeadingZeros(z: nat, n: nat)
    ensures ParseInt(Zeros(z) + ShowNat(n)) == Some(n)
    ensures ParseInt("+" + Zeros(z) + ShowNat(n)) == Some(n)
    ensures ParseInt("-" + Zeros(z) + ShowNat(n)) == Some(-(n as int))
  {
    var d := Zeros(z) + ShowNat(n);
    DigitsValueZeros(z, ShowNat(n));
    DigitsValueShowNat(n);
    assert ParseDigits(d) == Some(n);
    assert "+" + Zeros(z) + ShowNat(n) == "+" + d;
    assert "-" + Zeros(z) + ShowNat(n) == "-" + d;
    assert ("+" + d)[1..] == d;
    assert ("-" + d)[1..] == d;
    assert d[0] != '-' && d[0] != '+' by {
      assert IsDigit(d[0]);
    }
  }

  /** `"007"` reads as 7. */
  lemma ExampleLeadingZeros()
    ensures ParseInt("007") == Some(7)
  {
    assert Zeros(2) + ShowNat(7) == "007";
    ParseLeadingZeros(2, 7);
  }
}
