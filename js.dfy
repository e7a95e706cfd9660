/** The few JavaScript value semantics the chat server and client rely on:
    truthiness of optional strings and `String(n)` for the integer user ids
    that key the presence table. */
module Js {
  import opened Wrappers

  /** `!!v` for a value that is a string, `undefined` or `null`: only a
      non-empty string is truthy. */
  predicate Truthy(v: Option<string>) {
    v.Some? && v.value != ""
  }

  function Digit(d: nat): (c: char)
    requires d < 10
    ensures '0' <= c <= '9'
  {
    "0123456789"[d]
  }

  /** The value of a decimal digit character. */
  function DigitValue(c: char): int {
    c as int - '0' as int
  }

  lemma DigitValueOfDigit(d: nat)
    requires d < 10
    ensures DigitValue(Digit(d)) == d
  {
  }

  /** The number a string of decimal digits denotes, most significant digit
      first; the reference reading of `NatToString`. */
  ghost function DigitsValue(s: string): int {
    if s == [] then 0 else DigitsValue(s[..|s| - 1]) * 10 + DigitValue(s[|s| - 1])
  }

  /** Decimal rendering of a natural number, most significant digit first. */
  function NatToString(n: nat): (s: string)
    ensures |s| >= 1
    ensures forall i :: 0 <= i < |s| ==> '0' <= s[i] <= '9'
    ensures n >= 10 <==> |s| >= 2
  {
    if n < 10 then [Digit(n)] else NatToString(n / 10) + [Digit(n % 10)]
  }

  /** The digits `NatToString` writes denote `n`. */
  lemma {:induction false} NatToStringValue(n: nat)
    ensures DigitsValue(NatToString(n)) == n
  {
    var s := NatToString(n);
    if n < 10 {
      DigitValueOfDigit(n);
    } else {
      assert s[..|s| - 1] == NatToString(n / 10);
      NatToStringValue(n / 10);
      DigitValueOfDigit(n % 10);
    }
  }

  /** `String(n)` for an integer `n`: an optional `-` followed by the decimal
      digits of `|n|`. */
  function IntToString(n: int): (s: string)
    ensures |s| >= 1
    ensures s[0] == '-' <==> n < 0
  {
    if n < 0 then "-" + NatToString(-n) else NatToString(n)
  }

  /** The number a decimal string with an optional leading `-` denotes. */
  ghost function SignedValue(s: string): int {
    if s != [] && s[0] == '-' then -DigitsValue(s[1..]) else DigitsValue(s)
  }

  lemma IntToStringNegative(n: int)
    requires n < 0
    ensures IntToString(n) == "-" + NatToString(-n)
  {
  }

  lemma MinusValue(s: string, t: string, m: int)
    requires DigitsValue(t) == m && s == "-" + t
    ensures SignedValue(s) == -m
  {
    assert s[1..] == t;
  }

  lemma UnsignedValue(s: string, m: int)
    requires DigitsValue(s) == m && s != [] && s[0] != '-'
    ensures SignedValue(s) == m
  {
  }

  /** `String(n)` reads back as `n`: it is `n` written in decimal, with a
      leading `-` exactly when `n` is negative. */
  lemma {:induction false} IntToStringValue(n: int)
    ensures SignedValue(IntToString(n)) == n
  {
    if n < 0 {
      NatToStringValue(-n);
      IntToStringNegative(n);
      MinusValue(IntToString(n), NatToString(-n), -n);
    } else {
      NatToStringValue(n);
      UnsignedValue(IntToString(n), n);
    }
  }

  /** Distinct user ids give distinct presence keys: `String` loses nothing on integers. */
  lemma IntToStringInjective(a: int, b: int)
    requires IntToString(a) == IntToString(b)
    ensures a == b
  {
    IntToStringValue(a);
    IntToStringValue(b);
  }

  /** `String(v)` for a user id that may be missing: `String(undefined)` is "undefined". */
  function KeyOf(v: Option<int>): (k: string)
    ensures v.Some? ==> k == IntToString(v.value)
  {
    match v
    case Some(n) => IntToString(n)
    case None => "undefined"
  }

  /** A missing id never collides with the key of a real id. */
  lemma MissingKeyIsNoUserKey(n: int)
    ensures KeyOf(None) != IntToString(n)
  {
    var s := IntToString(n);
    if n < 0 {
      assert s[0] == '-';
    } else {
      assert '0' <= s[0] <= '9';
    }
  }
}
