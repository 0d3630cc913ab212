/** Column headers as numbers and back.

    The consumption file's header row mixes year columns ("2006", ...) with
    annotation columns. `pd.to_numeric(..., errors="coerce")` turns each
    header into a number or NaN; the years are then kept as ints, written
    back with `astype(str)` for the animation steps, and read again with
    `int(...)` to select a column. Only decimal integer literals are
    modelled here. */
module Headers {
  import opened Tables

  predicate IsDigit(c: char)
  {
    '0' <= c <= '9'
  }

  predicate AllDigits(s: string)
  {
    forall k :: 0 <= k < |s| ==> IsDigit(s[k])
  }

  /** The value of a string of decimal digits, most significant first. */
  function DigitsValue(s: string): nat
    requires AllDigits(s)
  {
    if s == [] then 0 else 10 * DigitsValue(s[..|s| - 1]) + (s[|s| - 1] as int - '0' as int)
  }

  /** Whether a sign character opens the string. */
  predicate Signed(s: string)
  {
    s != [] && (s[0] == '-' || s[0] == '+')
  }

  /** An integer literal: after an optional leading sign, one or more
      characters, every one of them a decimal digit. */
  predicate IntLiteral(s: string)
  {
    var start := if Signed(s) then 1 else 0;
    start < |s| && forall k :: start <= k < |s| ==> IsDigit(s[k])
  }

  /** A header read as an integer: an optional sign followed by one or more
      decimal digits; anything else is not a number (NaN after coercion). */
  function ParseInt(s: string): (r: Option<int>)
    ensures r.Some? <==> IntLiteral(s)
    ensures s != [] && AllDigits(s) ==> r == Some(DigitsValue(s))
    ensures |s| > 1 && s[0] == '-' && AllDigits(s[1..]) ==> r == Some(0 - DigitsValue(s[1..]) as int)
    ensures |s| > 1 && s[0] == '+' && AllDigits(s[1..]) ==> r == Some(DigitsValue(s[1..]))
  {
    if |s| > 1 && (s[0] == '-' || s[0] == '+') && AllDigits(s[1..]) then
      (if s[0] == '-' then Some(0 - DigitsValue(s[1..]) as int) else Some(DigitsValue(s[1..])))
    else if s != [] && AllDigits(s) then Some(DigitsValue(s))
    else None
  }

  lemma ParseIntExamples()
    ensures ParseInt("2006") == Some(2006)
    ensures ParseInt("+7") == Some(7)
    ensures ParseInt("-15") == Some(-15)
    ensures ParseInt("a2006").None? && ParseInt("-").None? && ParseInt("+").None? && ParseInt("").None?
    ensures ParseInt("2006 (p)").None?
  {
    assert !IsDigit("a2006"[0]);
    assert !IsDigit("2006 (p)"[4]);
    assert DigitsValue("2006") == 2006 by {
      assert "2006"[..3] == "200" && "200"[..2] == "20" && "20"[..1] == "2" && "2"[..0] == "";
    }
    assert "+7"[1..] == "7" && "-15"[1..] == "15";
    assert DigitsValue("15") == 15 by {
      assert "15"[..1] == "1" && "1"[..0] == "";
    }
    assert DigitsValue("7") == 7 by {
      assert "7"[..0] == "";
    }
  }

  function DigitChar(d: nat): (c: char)
    requires d < 10
    ensures IsDigit(c) && c as int - '0' as int == d
  {
    ('0' as int + d) as char
  }

  /** Python's `str` on a non-negative integer: its shortest decimal form. */
  function ShowNat(n: nat): (s: string)
    ensures s != [] && AllDigits(s)
    ensures s[0] == '0' ==> n == 0
  {
    if n < 10 then [DigitChar(n)] else ShowNat(n / 10) + [DigitChar(n % 10)]
  }

  /** Python's `str` on an integer. */
  function ShowInt(n: int): (s: string)
    ensures s != []
    ensures n < 0 <==> s[0] == '-'
  {
    if n < 0 then "-" + ShowNat(-n) else ShowNat(n)
  }

  lemma {:induction false} DigitsValueShowNat(n: nat)
    ensures DigitsValue(ShowNat(n)) == n
  {
    if n >= 10 {
      var s := ShowNat(n / 10);
      var t := s + [DigitChar(n % 10)];
      assert t[..|t| - 1] == s;
      DigitsValueShowNat(n / 10);
    }
  }

  /** Writing a year out with `str` and reading it back with `int` gives
      the same year, so the animation step names select the right column. */
  lemma ParseShowInt(n: int)
    ensures ParseInt(ShowInt(n)) == Some(n)
  {
    var s := ShowInt(n);
    if n < 0 {
      var t := ShowNat(-n);
      assert s == "-" + t && s[1..] == t;
      DigitsValueShowNat(-n);
      assert |s| > 1 && s[0] == '-' && AllDigits(s[1..]);
    } else {
      assert s == ShowNat(n);
      DigitsValueShowNat(n);
    }
  }
}
