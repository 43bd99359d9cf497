/**
 * Python's `int()` applied to a token that contains no whitespace, in base 10:
 * an optional `+` or `-` followed by one or more ASCII digits. Anything else
 * makes `int()` raise `ValueError`, which this model reports as `None`.
 */
module PyInt {
  import opened Wrappers

  predicate IsDigit(c: char)
  {
    '0' <= c <= '9'
  }

  predicate AllDigits(s: string)
  {
    forall k :: 0 <= k < |s| ==> IsDigit(s[k])
  }

  predicate IsSign(c: char)
  {
    c == '+' || c == '-'
  }

  function DigitValue(c: char): (d: nat)
    requires IsDigit(c)
    ensures d < 10
  {
    c as int - '0' as int
  }

  function DigitChar(d: nat): (c: char)
    requires d < 10
    ensures IsDigit(c) && DigitValue(c) == d
  {
    ('0' as int + d) as char
  }

  /** The value of a run of digits, most significant first; leading zeros are allowed. */
  function DigitsValue(s: string): nat
    requires AllDigits(s)
  {
    if s == [] then 0 else 10 * DigitsValue(s[..|s| - 1]) + DigitValue(s[|s| - 1])
  }

  /** A non-empty run of digits, or `None`. */
  function ParseDigits(s: string): (r: Option<nat>)
    ensures r.Some? <==> s != [] && AllDigits(s)
  {
    if s != [] && AllDigits(s) then Some(DigitsValue(s)) else None
  }

  /** `int(t)` in base 10 for a whitespace-free token `t`; `None` is `ValueError`. */
  function ParseInt(t: string): (r: Option<int>)
    ensures r.Some? <==> t != [] && ParseDigits(if IsSign(t[0]) then t[1..] else t).Some?
  {
    if t == [] then None
    else if IsSign(t[0]) then
      match ParseDigits(t[1..])
      case None => None
      case Some(n) => var v: int := n; Some(if t[0] == '-' then -v else v)
    else
      match ParseDigits(t)
      case None => None
      case Some(n) => Some(n)
  }

  /** The shortest decimal spelling of a natural number. */
  function Decimal(n: nat): (s: string)
    decreases n
  {
    if n < 10 then [DigitChar(n)] else Decimal(n / 10) + [DigitChar(n % 10)]
  }

  /** What `str()` gives for an integer: a `-` for negative numbers, then `Decimal`. */
  function IntToDecimal(i: int): string
  {
    if i < 0 then "-" + Decimal(-i) else Decimal(i)
  }

  /** `Decimal` is a non-empty run of digits worth exactly `n`. */
  lemma {:induction false} DecimalDigits(n: nat)
    ensures Decimal(n) != [] && AllDigits(Decimal(n)) && DigitsValue(Decimal(n)) == n
    decreases n
  {
    var s := Decimal(n);
    if n < 10 {
      assert s[..|s| - 1] == [];
    } else {
      DecimalDigits(n / 10);
      var p := Decimal(n / 10);
      assert s == p + [DigitChar(n % 10)];
      assert s[..|s| - 1] == p;
      assert forall k :: 0 <= k < |s| ==> IsDigit(s[k]) by {
        forall k | 0 <= k < |s| ensures IsDigit(s[k]) {
          if k < |p| {
            assert s[k] == p[k];
          }
        }
      }
    }
  }

  /** `int(str(i)) == i` for every integer. */
  lemma IntToDecimalRoundTrip(i: int)
    ensures ParseInt(IntToDecimal(i)) == Some(i)
  {
    if i < 0 {
      SignedDecimal(-i, '-');
    } else {
      UnsignedDecimal(i);
    }
  }

  lemma UnsignedDecimal(n: nat)
    ensures ParseInt(Decimal(n)) == Some(n)
  {
    DecimalDigits(n);
  }

  lemma SignedDecimal(n: nat, c: char)
    requires IsSign(c)
    ensures ParseInt([c] + Decimal(n)) == Some(if c == '-' then -(n as int) else n)
  {
    DecimalDigits(n);
    assert ([c] + Decimal(n))[1..] == Decimal(n);
  }

  /** A run of digits is worth 0 exactly when every digit is `0`. */
  lemma {:induction false} DigitsValueZero(s: string)
    requires AllDigits(s)
    ensures DigitsValue(s) == 0 <==> forall k :: 0 <= k < |s| ==> s[k] == '0'
  {
    if s != [] {
      var p := s[..|s| - 1];
      DigitsValueZero(p);
      assert forall k :: 0 <= k < |p| ==> p[k] == s[k];
    }
  }

  /**
   * `int(t)` is zero exactly when `t` is an optional sign followed by one or
   * more `0`s: the counts that Python's truthiness test throws away.
   */
  lemma ParseIntZero(t: string)
    ensures ParseInt(t) == Some(0) <==>
      t != [] && var d := if IsSign(t[0]) then t[1..] else t;
      d != [] && forall k :: 0 <= k < |d| ==> d[k] == '0'
  {
    if t != [] {
      var d := if IsSign(t[0]) then t[1..] else t;
      if d != [] && AllDigits(d) {
        DigitsValueZero(d);
      }
    }
  }

  /** Leading zeros do not change the value. */
  lemma {:induction false} LeadingZero(s: string)
    requires AllDigits(s)
    ensures AllDigits("0" + s) && DigitsValue("0" + s) == DigitsValue(s)
  {
    var z := "0" + s;
    assert forall k :: 0 <= k < |z| ==> IsDigit(z[k]) by {
      forall k | 0 <= k < |z| ensures IsDigit(z[k]) {
        if 0 < k {
          assert z[k] == s[k - 1];
        }
      }
    }
    if s != [] {
      var p := s[..|s| - 1];
      LeadingZero(p);
      assert z[..|z| - 1] == "0" + p;
    }
  }
}
