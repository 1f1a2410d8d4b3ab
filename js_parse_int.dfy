/** The part of ECMAScript's `parseInt(string)` (no radix argument) that the
    controllers rely on: skip leading white space, read an optional sign and
    an optional `0x`/`0X` prefix, then the longest run of digits of the radix.
    No digit at all gives NaN, here `None`. The result is an unbounded
    integer; JavaScript rounds it to a double, which is exact only up to
    `MaxSafe` in magnitude, so the lemmas below are stated within that range. */
module JsParseInt {
  import opened Wrappers

  /** 2^53: every integer of at most this magnitude is a double. */
  const MaxSafe: int := 0x20_0000_0000_0000

  /** ECMAScript WhiteSpace and LineTerminator code points. */
  predicate IsJsSpace(c: char) {
    || c == '\U{0009}' || c == '\U{000B}' || c == '\U{000C}' || c == ' ' || c == '\U{00A0}'
    || c == '\U{FEFF}' || c == '\U{1680}' || ('\U{2000}' <= c <= '\U{200A}') || c == '\U{202F}'
    || c == '\U{205F}' || c == '\U{3000}'
    || c == '\U{000A}' || c == '\U{000D}' || c == '\U{2028}' || c == '\U{2029}'
  }

  function TrimStart(s: string): (r: string)
    ensures |r| <= |s| && r == s[|s| - |r|..]
    ensures |r| > 0 ==> !IsJsSpace(r[0])
    ensures forall i :: 0 <= i < |s| - |r| ==> IsJsSpace(s[i])
  {
    if |s| > 0 && IsJsSpace(s[0]) then TrimStart(s[1..]) else s
  }

  /** The value of `c` as a digit of radix 36; 36 for a character that is no digit. */
  function DigitOf(c: char): nat {
    if '0' <= c <= '9' then c as nat - '0' as nat
    else if 'a' <= c <= 'z' then c as nat - 'a' as nat + 10
    else if 'A' <= c <= 'Z' then c as nat - 'A' as nat + 10
    else 36
  }

  /** The length of the longest prefix of `s` made of digits of `radix`. */
  function DigitRun(s: string, radix: nat): (n: nat)
    ensures n <= |s|
    ensures forall i :: 0 <= i < n ==> DigitOf(s[i]) < radix
    ensures n < |s| ==> DigitOf(s[n]) >= radix
  {
    if |s| > 0 && DigitOf(s[0]) < radix then 1 + DigitRun(s[1..], radix) else 0
  }

  /** The number the digits `d` spell in `radix`, most significant first. */
  function ValueOf(d: string, radix: nat): nat {
    if |d| == 0 then 0 else ValueOf(d[..|d| - 1], radix) * radix + DigitOf(d[|d| - 1])
  }

  /** `t` starts with a minus sign. */
  predicate Negative(t: string) {
    |t| > 0 && t[0] == '-'
  }

  /** `t` without its leading sign, if any. */
  function Unsigned(t: string): string {
    if |t| > 0 && (t[0] == '-' || t[0] == '+') then t[1..] else t
  }

  /** The digits after the sign: hexadecimal after a `0x` or `0X` prefix,
      decimal otherwise; `None` when there is no digit. */
  function ParseDigits(u: string): Option<nat> {
    var hex := |u| >= 2 && u[0] == '0' && (u[1] == 'x' || u[1] == 'X');
    var radix := if hex then 16 else 10;
    var body := if hex then u[2..] else u;
    var n := DigitRun(body, radix);
    if n == 0 then None else Some(ValueOf(body[..n], radix))
  }

  /** The text `u` after white space and sign starts with no digit: with a
      `0x` or `0X` prefix, none of radix 16 follows it, and otherwise `u` does
      not start with a decimal digit. */
  predicate NoLeadingDigit(u: string) {
    if |u| >= 2 && u[0] == '0' && (u[1] == 'x' || u[1] == 'X') then |u| == 2 || DigitOf(u[2]) >= 16
    else |u| == 0 || DigitOf(u[0]) >= 10
  }

  /** `parseInt(s)`, or `None` for NaN. NaN comes exactly when no digit leads
      the text after white space and sign; a result below zero needs a minus
      sign. */
  function ParseInt(s: string): (r: Option<int>)
    ensures r.None? <==> NoLeadingDigit(Unsigned(TrimStart(s)))
    ensures r.Some? && r.value < 0 ==> Negative(TrimStart(s))
  {
    var t := TrimStart(s);
    match ParseDigits(Unsigned(t))
    case None => None
    case Some(v) => var n: int := v; Some(if Negative(t) then -n else n)
  }

  /** An absent query parameter reads as "undefined", which is NaN. */
  lemma ParseIntOfUndefined()
    ensures ParseInt("undefined") == None
  {
    var s := "undefined";
    assert !IsJsSpace(s[0]);
    assert TrimStart(s) == s;
    assert Unsigned(s) == s;
    assert DigitOf(s[0]) == 30;
  }

  /** `parseInt(q) || fallback` for a query parameter; an absent parameter is
      the string "undefined". NaN and 0 are both falsy. */
  function QueryNumber(q: Option<string>, fallback: int): (r: int)
    ensures q.None? ==> r == fallback
    ensures fallback != 0 ==> r != 0
  {
    ParseIntOfUndefined();
    match ParseInt(if q.Some? then q.value else "undefined")
    case None => fallback
    case Some(n) => if n == 0 then fallback else n
  }

  function DecimalDigit(d: nat): char
    requires d < 10
  {
    ['0', '1', '2', '3', '4', '5', '6', '7', '8', '9'][d]
  }

  /** The decimal numeral of `n`, without leading zeros. */
  function NatToDecimal(n: nat): (r: string)
    ensures |r| > 0
  {
    if n < 10 then [DecimalDigit(n)] else NatToDecimal(n / 10) + [DecimalDigit(n % 10)]
  }

  /** The decimal numeral of `n`, with a `-` when negative. */
  function IntToDecimal(n: int): string {
    if n < 0 then "-" + NatToDecimal(-n) else NatToDecimal(n)
  }

  /** A decimal numeral is made of decimal digits, starts with `0` only when it
      is "0", and spells its number. */
  lemma {:induction false} NatToDecimalSpells(n: nat)
    ensures forall i :: 0 <= i < |NatToDecimal(n)| ==> DigitOf(NatToDecimal(n)[i]) < 10
    ensures NatToDecimal(n)[0] == '0' ==> n == 0
    ensures ValueOf(NatToDecimal(n), 10) == n
  {
    var d := NatToDecimal(n);
    if n >= 10 {
      NatToDecimalSpells(n / 10);
      assert d[..|d| - 1] == NatToDecimal(n / 10);
      assert d[0] == NatToDecimal(n / 10)[0];
    }
  }

  lemma DigitIsNoSpace(c: char)
    requires DigitOf(c) < 10
    ensures !IsJsSpace(c) && c != '-' && c != '+'
  {
    assert '0' <= c <= '9';
  }

  lemma NoLeadingSpace(s: string)
    requires |s| > 0 && !IsJsSpace(s[0])
    ensures TrimStart(s) == s
  {
  }

  /** The digits of a decimal numeral followed by a non-digit read back as
      its number. */
  lemma ParseDigitsOfDecimal(m: nat, rest: string)
    requires rest == [] || (DigitOf(rest[0]) >= 10 && (m != 0 || (rest[0] != 'x' && rest[0] != 'X')))
    ensures ParseDigits(NatToDecimal(m) + rest) == Some(m)
  {
    var d := NatToDecimal(m);
    NatToDecimalSpells(m);
    var u := d + rest;
    assert !(|u| >= 2 && u[0] == '0' && (u[1] == 'x' || u[1] == 'X')) by {
      if |u| >= 2 && u[0] == '0' {
        assert m == 0 && |d| == 1 && u[1] == rest[0];
      }
    }
    var k := DigitRun(u, 10);
    assert forall i :: 0 <= i < |d| ==> DigitOf(u[i]) < 10 by {
      forall i | 0 <= i < |d| ensures DigitOf(u[i]) < 10 {
        assert u[i] == d[i];
      }
    }
    assert |u| > |d| ==> DigitOf(u[|d|]) >= 10 by {
      if |u| > |d| {
        assert u[|d|] == rest[0];
      }
    }
    assert k == |d|;
    assert u[..k] == d;
  }

  /** `parseInt` reads the decimal numeral of `n` back as `n`, and stops at a
      following character that is no decimal digit (after "0", also no `x`
      or `X`, which would make it a hexadecimal prefix). */
  lemma {:induction false} ParseIntOfDecimal(n: int, rest: string)
    requires -MaxSafe <= n <= MaxSafe
    requires rest == [] || (DigitOf(rest[0]) >= 10 && (n != 0 || (rest[0] != 'x' && rest[0] != 'X')))
    ensures ParseInt(IntToDecimal(n) + rest) == Some(n)
  {
    var m: nat := if n < 0 then -n else n;
    ParseDigitsOfDecimal(m, rest);
    if n < 0 {
      ParseIntOfMinus(m, rest);
    } else {
      ParseIntOfUnsigned(m, rest);
    }
  }

  lemma ParseIntOfMinus(m: nat, rest: string)
    requires ParseDigits(NatToDecimal(m) + rest) == Some(m)
    ensures ParseInt("-" + NatToDecimal(m) + rest) == Some(-(m as int))
  {
    var u := NatToDecimal(m) + rest;
    var s := "-" + NatToDecimal(m) + rest;
    assert s == "-" + u;
    assert s[1..] == u;
    ParseIntOfSigned(s, m);
  }

  lemma ParseIntOfUnsigned(m: nat, rest: string)
    requires ParseDigits(NatToDecimal(m) + rest) == Some(m)
    ensures ParseInt(NatToDecimal(m) + rest) == Some(m)
  {
    var d := NatToDecimal(m);
    var u := d + rest;
    NatToDecimalSpells(m);
    assert u[0] == d[0];
    DigitIsNoSpace(d[0]);
    ParseIntOfSigned(u, m);
  }

  lemma ParseIntOfSigned(s: string, v: nat)
    requires |s| > 0 && !IsJsSpace(s[0])
    requires ParseDigits(Unsigned(s)) == Some(v)
    ensures ParseInt(s) == Some(if Negative(s) then -(v as int) else v as int)
  {
    NoLeadingSpace(s);
  }

  /** A value with no digit after white space and an optional sign, such as
      "abc", "", "-", "x1", "0x" or "0xg", is NaN, so the parameter falls back
      to the default. */
  lemma QueryNumberOfNonNumeral(s: string, fallback: int)
    requires NoLeadingDigit(Unsigned(TrimStart(s)))
    ensures ParseInt(s) == None
    ensures QueryNumber(Some(s), fallback) == fallback
  {
  }

  /** A query parameter holding the decimal numeral of `n` yields `n`, unless
      `n` is 0, which yields the fallback. */
  lemma QueryNumberOfDecimal(n: int, fallback: int)
    requires -MaxSafe <= n <= MaxSafe
    ensures QueryNumber(Some(IntToDecimal(n)), fallback) == if n == 0 then fallback else n
  {
    ParseIntOfDecimal(n, []);
    assert IntToDecimal(n) + [] == IntToDecimal(n);
  }
}
