/**
 * The part of JavaScript's `parseInt(s, 10)` that the chat client relies on,
 * and the decimal rendering that the remote board uses for its counters.
 *
 * `ParseInt` accepts one optional sign character, then needs at least one
 * decimal digit; it reads the longest run of digits and ignores whatever
 * follows. When no digit follows the sign the result is `None`, which stands
 * for `NaN`.
 */
module JsNumbers {
  import opened Wrappers

  predicate IsDigit(c: char) {
    '0' <= c <= '9'
  }

  predicate AllDigits(s: string) {
    forall k :: 0 <= k < |s| ==> IsDigit(s[k])
  }

  /** Length of the longest run of decimal digits at the start of `s`. */
  function DigitRun(s: string): (n: nat)
    ensures n <= |s|
    ensures AllDigits(s[..n])
    ensures n < |s| ==> !IsDigit(s[n])
  {
    if |s| == 0 || !IsDigit(s[0]) then 0
    else
      var m := DigitRun(s[1..]);
      assert s[..m + 1] == [s[0]] + s[1..][..m];
      1 + m
  }

  /** The number a string of decimal digits denotes, most significant digit first. */
  function DigitsValue(s: string): nat
    requires AllDigits(s)
  {
    if |s| == 0 then 0
    else 10 * DigitsValue(s[..|s| - 1]) + (s[|s| - 1] as int - '0' as int)
  }

  /** The input with one leading sign character removed, if there is one. */
  function Unsigned(s: string): string {
    if |s| > 0 && (s[0] == '-' || s[0] == '+') then s[1..] else s
  }

  function ParseInt(s: string): (r: Option<int>)
    ensures r.None? <==> |Unsigned(s)| == 0 || !IsDigit(Unsigned(s)[0])
    ensures r.Some? && r.value < 0 ==> s[0] == '-'
  {
    var u := Unsigned(s);
    var n := DigitRun(u);
    var magnitude: int := if n == 0 then 0 else DigitsValue(u[..n]);
    if n == 0 then None
    else if s[0] == '-' then Some(-magnitude)
    else Some(magnitude)
  }

  /** Decimal rendering of a natural number, without leading zeros. */
  function FormatNat(n: nat): (r: string)
    ensures |r| > 0 && AllDigits(r)
  {
    var last := [(('0' as int) + n % 10) as char];
    if n < 10 then last else FormatNat(n / 10) + last
  }

  /** Decimal rendering of an integer, with a leading minus sign when it is negative. */
  function FormatInt(i: int): (r: string)
    ensures |r| > 0
  {
    if i < 0 then "-" + FormatNat(-i) else FormatNat(i)
  }

  lemma {:induction false} FormatNatValue(n: nat)
    ensures DigitsValue(FormatNat(n)) == n
  {
    var s := FormatNat(n);
    if n >= 10 {
      var prefix := FormatNat(n / 10);
      assert s[..|s| - 1] == prefix;
      FormatNatValue(n / 10);
    }
  }

  lemma {:induction false} DigitRunOfDigits(d: string, tail: string)
    requires AllDigits(d)
    requires |tail| == 0 || !IsDigit(tail[0])
    ensures DigitRun(d + tail) == |d|
  {
    if |d| > 0 {
      assert (d + tail)[1..] == d[1..] + tail;
      DigitRunOfDigits(d[1..], tail);
    } else {
      assert d + tail == tail;
    }
  }

  /** A run of digits followed by anything that is not a digit parses to the run's value. */
  lemma ParseDigitsThenTail(d: string, tail: string)
    requires |d| > 0 && AllDigits(d)
    requires |tail| == 0 || !IsDigit(tail[0])
    ensures ParseInt(d + tail) == Some(DigitsValue(d))
  {
    assert Unsigned(d + tail) == d + tail;
    DigitRunOfDigits(d, tail);
    assert (d + tail)[..|d|] == d;
  }

  /** A minus sign in front of an unsigned numeral negates its value. */
  lemma ParseMinus(rest: string, v: int)
    requires |rest| > 0 && IsDigit(rest[0])
    requires ParseInt(rest) == Some(v)
    ensures ParseInt("-" + rest) == Some(-v)
  {
    assert Unsigned("-" + rest) == rest;
    assert Unsigned(rest) == rest;
  }

  /** Rendering an integer and parsing it back gives the integer, whatever non-digit text follows. */
  lemma ParseFormatInt(i: int, tail: string)
    requires |tail| == 0 || !IsDigit(tail[0])
    ensures ParseInt(FormatInt(i) + tail) == Some(i)
  {
    if i < 0 {
      var f := FormatNat(-i);
      ParseFormatNat(-i, tail);
      assert IsDigit((f + tail)[0]);
      calc {
        ParseInt(FormatInt(i) + tail);
        { NegativeNumeral(i, tail); }
        ParseInt("-" + (f + tail));
        { ParseMinus(f + tail, -i); }
        Some(i);
      }
    } else {
      ParseFormatNat(i, tail);
    }
  }

  lemma ParseFormatNat(n: nat, tail: string)
    requires |tail| == 0 || !IsDigit(tail[0])
    ensures ParseInt(FormatNat(n) + tail) == Some(n)
  {
    FormatNatValue(n);
    ParseDigitsThenTail(FormatNat(n), tail);
  }

  lemma NegativeNumeral(i: int, tail: string)
    requires i < 0
    ensures FormatInt(i) + tail == "-" + (FormatNat(-i) + tail)
  {
  }
}
