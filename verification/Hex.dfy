/**
 Chunk sizes: from_i_to_hex (httplib.h:2745-2753) and the C library's strtoul in base 16, which
 read_content_chunked applies to the size line (httplib.h:4776-4779).
 */
module Hex {
  import opened Common
  import opened Text

  const ULONG_MAX: nat := 0xFFFF_FFFF_FFFF_FFFF
  const CHARSET: string := "0123456789abcdef"

  function DigitValue(c: char): int {
    if '0' <= c <= '9' then c as int - '0' as int
    else if 'a' <= c <= 'f' then c as int - 'a' as int + 10
    else if 'A' <= c <= 'F' then c as int - 'A' as int + 10
    else -1
  }

  predicate IsHexDigit(c: char) {
    DigitValue(c) >= 0
  }

  function ToHex(n: nat): (s: string)
    ensures s != "" && forall i :: 0 <= i < |s| ==> IsHexDigit(s[i])
  {
    if n < 16 then [CHARSET[n]] else ToHex(n / 16) + [CHARSET[n % 16]]
  }

  /** from_i_to_hex: low digit first, each new digit in front. */
  method FromIToHex(size: nat) returns (ret: string)
    ensures ret == ToHex(size)
  {
    var n := size;
    ret := [CHARSET[n % 16]];
    n := n / 16;
    while n > 0
      invariant n == 0 ==> ret == ToHex(size)
      invariant n > 0 ==> ToHex(n) + ret == ToHex(size)
    {
      DigitInFront(n, ret);
      ret := [CHARSET[n % 16]] + ret;
      n := n / 16;
    }
  }

  lemma Regroup(a: string, b: string, c: string)
    ensures a + b + c == a + (b + c) && "" + (b + c) == b + c
  {
  }

  lemma DigitInFront(n: nat, ret: string)
    ensures ToHex(n) + ret == (if n < 16 then "" else ToHex(n / 16)) + ([CHARSET[n % 16]] + ret)
  {
    var c := [CHARSET[n % 16]];
    if n >= 16 {
      Regroup(ToHex(n / 16), c, ret);
    } else {
      Regroup("", c, ret);
    }
  }

  /** The value of the longest run of hex digits at the front, on top of `acc`. */
  function DigitsFrom(s: string, acc: nat): nat {
    if s == "" || !IsHexDigit(s[0]) then acc else DigitsFrom(s[1..], 16 * acc + DigitValue(s[0]))
  }

  datatype Parsed = NoDigits | Number(value: nat)

  /** strtoul(s, &end, 16): NoDigits when `end` stays at the start. */
  function Strtoul16(s: string): (r: Parsed)
    ensures r.Number? ==> r.value <= ULONG_MAX
  {
    var t := SkipSpace(s);
    var negative := t != "" && t[0] == '-';
    var u := if t != "" && (t[0] == '-' || t[0] == '+') then t[1..] else t;
    var v := if |u| > 2 && u[0] == '0' && (u[1] == 'x' || u[1] == 'X') && IsHexDigit(u[2]) then u[2..] else u;
    if v == "" || !IsHexDigit(v[0]) then NoDigits
    else
      var n := DigitsFrom(v, 0);
      if n > ULONG_MAX then Number(ULONG_MAX)
      else if negative && n > 0 then Number(ULONG_MAX + 1 - n)
      else Number(n)
  }

  lemma {:induction false} DigitsOfHex(n: nat, rest: string)
    requires rest != "" ==> !IsHexDigit(rest[0])
    ensures DigitsFrom(ToHex(n) + rest, 0) == n
    decreases n
  {
    DigitsAfterHex(n, rest, 0);
  }

  /** How far `acc` moves left under the digits of `n`. */
  function Shift(n: nat): nat {
    if n < 16 then 16 else 16 * Shift(n / 16)
  }

  lemma {:induction false} DigitsAfterHex(n: nat, rest: string, acc: nat)
    ensures DigitsFrom(ToHex(n) + rest, acc) == DigitsFrom(rest, acc * Shift(n) + n)
    decreases n
  {
    hide DigitValue, IsHexDigit, DigitsFrom;
    var c := CHARSET[n % 16];
    OneDigit(n % 16, rest, if n < 16 then acc else acc * Shift(n / 16) + n / 16);
    if n >= 16 {
      DigitsAfterHex(n / 16, [c] + rest, acc);
      assert ToHex(n) + rest == ToHex(n / 16) + ([c] + rest);
      ShiftOut(acc, Shift(n / 16), n);
    }
  }

  lemma OneDigit(d: nat, rest: string, acc: nat)
    requires d < 16
    ensures DigitsFrom([CHARSET[d]] + rest, acc) == DigitsFrom(rest, 16 * acc + d)
  {
    assert ([CHARSET[d]] + rest)[1..] == rest;
    assert DigitValue(CHARSET[d]) == d;
  }

  lemma ShiftOut(acc: nat, shift: nat, n: nat)
    ensures 16 * (acc * shift + n / 16) + n % 16 == acc * (16 * shift) + n
  {
  }

  /** The printed size is read back, whatever follows the digits. */
  lemma SizeReadBack(n: nat, rest: string)
    requires n <= ULONG_MAX && (rest != "" ==> !IsHexDigit(rest[0]) && rest[0] != 'x' && rest[0] != 'X')
    ensures Strtoul16(ToHex(n) + rest) == Number(n)
  {
    hide ToHex, DigitsFrom;
    var s := ToHex(n) + rest;
    DigitsOfHex(n, rest);
    DigitIsNoSign(s[0]);
    SkipNothing(s);
    ToHexNoX(n);
  }

  lemma DigitIsNoSign(c: char)
    requires IsHexDigit(c)
    ensures !IsSpace(c) && c != '-' && c != '+'
  {
  }

  lemma SkipNothing(s: string)
    requires s != "" && !IsSpace(s[0])
    ensures SkipSpace(s) == s
  {
  }

  lemma ToHexNoX(n: nat)
    ensures |ToHex(n)| > 1 ==> ToHex(n)[1] != 'x' && ToHex(n)[1] != 'X'
  {
  }

  /** Sizes are printed without leading zeros, in lower case. */
  lemma {:induction false} HexText(n: nat)
    ensures forall i :: 0 <= i < |ToHex(n)| ==> '0' <= ToHex(n)[i] <= '9' || 'a' <= ToHex(n)[i] <= 'f'
    ensures ToHex(n)[0] == '0' <==> n == 0
    decreases n
  {
    HexCharacter(n % 16);
    if n >= 16 { HexText(n / 16); }
  }

  lemma HexCharacter(d: nat)
    requires d < 16
    ensures '0' <= CHARSET[d] <= '9' || 'a' <= CHARSET[d] <= 'f'
    ensures CHARSET[d] == '0' <==> d == 0
  {
  }
}
