/**
 std::to_string and std::stoi / std::stoll on whole strings.
 */
module Decimal {
  import opened Common

  predicate IsDigit(c: char) {
    '0' <= c <= '9'
  }

  predicate AllDigits(s: string) {
    forall i :: 0 <= i < |s| ==> IsDigit(s[i])
  }

  function Digit(d: nat): char
    requires d < 10
  {
    '0' + d as char
  }

  /** std::to_string of a non-negative number. */
  function NatText(n: nat): (s: string)
    ensures s != "" && AllDigits(s)
  {
    if n < 10 then [Digit(n)] else NatText(n / 10) + [Digit(n % 10)]
  }

  /** std::to_string. */
  function ToText(n: int): string {
    if n < 0 then "-" + NatText(-n) else NatText(n)
  }

  function NatValue(s: string): nat
    requires AllDigits(s)
  {
    if s == "" then 0 else 10 * NatValue(s[..|s| - 1]) + (s[|s| - 1] as int - '0' as int)
  }

  datatype Parsed = Invalid | Number(value: int)

  /** std::stoi / std::stoll, accepted only when the whole string is consumed and the value is in
      range; Invalid also stands for their exceptions. */
  function Parse(s: string, lo: int, hi: int): Parsed {
    var t := SkipSpace(s);
    var negative := t != "" && t[0] == '-';
    var d := if t != "" && (t[0] == '-' || t[0] == '+') then t[1..] else t;
    if d == "" || !AllDigits(d) then Invalid
    else
      var v := if negative then 0 - NatValue(d) else NatValue(d);
      if lo <= v <= hi then Number(v) else Invalid
  }

  const INT_MIN: int := -0x8000_0000
  const INT_MAX: int := 0x7FFF_FFFF
  const INT64_MIN: int := -0x8000_0000_0000_0000
  const INT64_MAX: int := 0x7FFF_FFFF_FFFF_FFFF

  /** Blanks, a sign at most and digits are read, whatever zeros are in front. */
  lemma {:induction false} ParseForm(w: string, sign: string, d: string, lo: int, hi: int)
    requires (forall i :: 0 <= i < |w| ==> IsSpace(w[i])) && sign in {"", "+", "-"} && d != "" && AllDigits(d)
    ensures var v := if sign == "-" then 0 - NatValue(d) else NatValue(d);
            Parse(w + sign + d, lo, hi) == if lo <= v <= hi then Number(v) else Invalid
    decreases |w|
  {
    if w == "" {
      assert w + sign + d == sign + d;
      SignedDigits(sign, d, lo, hi);
    } else {
      ParseForm(w[1..], sign, d, lo, hi);
      assert (w + sign + d)[1..] == w[1..] + sign + d;
      SpaceInFront(w + sign + d, lo, hi);
    }
  }

  lemma SpaceInFront(s: string, lo: int, hi: int)
    requires s != "" && IsSpace(s[0])
    ensures Parse(s, lo, hi) == Parse(s[1..], lo, hi)
  {
  }

  lemma SignedDigits(sign: string, d: string, lo: int, hi: int)
    requires sign in {"", "+", "-"} && d != "" && AllDigits(d)
    ensures var v := if sign == "-" then 0 - NatValue(d) else NatValue(d);
            Parse(sign + d, lo, hi) == if lo <= v <= hi then Number(v) else Invalid
  {
    var s := sign + d;
    assert IsDigit(d[0]);
    assert s == if sign == "" then d else [sign[0]] + d;
    assert SkipSpace(s) == s;
    if sign != "" {
      assert s[1..] == d;
    }
  }

  /** And nothing else is. */
  lemma {:induction false} ParseOnlyForms(s: string, lo: int, hi: int) returns (w: string, sign: string, d: string)
    requires Parse(s, lo, hi).Number?
    ensures s == w + sign + d && (forall i :: 0 <= i < |w| ==> IsSpace(w[i])) && sign in {"", "+", "-"}
    ensures d != "" && AllDigits(d)
    decreases |s|
  {
    if s != "" && IsSpace(s[0]) {
      SpaceInFront(s, lo, hi);
      w, sign, d := ParseOnlyForms(s[1..], lo, hi);
      assert s == [s[0]] + s[1..];
      w := [s[0]] + w;
    } else {
      w := "";
      if s[0] == '-' || s[0] == '+' {
        sign, d := [s[0]], s[1..];
        assert s == [s[0]] + s[1..];
      } else {
        sign, d := "", s;
      }
    }
  }

  lemma {:induction false} LeadingZero(d: string)
    requires AllDigits(d)
    ensures AllDigits("0" + d) && NatValue("0" + d) == NatValue(d)
    decreases |d|
  {
    var z := "0" + d;
    if d != "" {
      LeadingZero(d[..|d| - 1]);
      assert z[..|z| - 1] == "0" + d[..|d| - 1];
    } else {
      assert z[..0] == "";
    }
  }

  lemma {:induction false} NatTextValue(n: nat)
    ensures NatValue(NatText(n)) == n
    decreases n
  {
    if n >= 10 {
      NatTextValue(n / 10);
      var s := NatText(n);
      assert s[..|s| - 1] == NatText(n / 10);
    }
  }

  lemma NatTextHead(n: nat)
    ensures IsDigit(NatText(n)[0])
  {
  }

  /** A sign at most, then digits. */
  lemma ParseDigits(s: string, d: string, negative: bool, lo: int, hi: int)
    requires s != "" && SkipSpace(s) == s && negative == (s[0] == '-') && s[0] != '+'
    requires d == (if negative then s[1..] else s) && d != "" && AllDigits(d)
    ensures var v := if negative then 0 - NatValue(d) else NatValue(d);
            Parse(s, lo, hi) == if lo <= v <= hi then Number(v) else Invalid
  {
    hide AllDigits, NatValue, SkipSpace;
  }

  /** A printed number reads back as itself exactly when it is in range. */
  lemma ParseToText(n: int, lo: int, hi: int)
    ensures Parse(ToText(n), lo, hi) == if lo <= n <= hi then Number(n) else Invalid
  {
    hide NatValue, NatText, AllDigits, Parse;
    var s := ToText(n);
    if n < 0 {
      NatTextValue(-n);
      assert s[1..] == NatText(-n);
      ParseDigits(s, NatText(-n), true, lo, hi);
    } else {
      NatTextValue(n);
      NatTextHead(n);
      ParseDigits(s, s, false, lo, hi);
    }
  }

  lemma ToTextInjective(m: int, n: int)
    requires ToText(m) == ToText(n)
    ensures m == n
  {
    var lo := if m < n then m else n;
    var hi := if m < n then n else m;
    ParseToText(m, lo, hi);
    ParseToText(n, lo, hi);
  }

  lemma ToTextClean(n: int, c: char)
    requires !IsDigit(c) && c != '-'
    ensures c !in ToText(n)
  {
  }
}
