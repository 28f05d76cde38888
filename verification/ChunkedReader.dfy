/**
 Chunked bodies that httplib's own writer does not produce (section 7.1 of RFC 9112), as
 read_content_chunked reads them (httplib.h:4760-4881): other spellings of a size, chunk extensions,
 trailer fields, and what ends the read with an error.
 */
module ChunkedReader {
  import opened Common
  import opened Text
  import opened Hex
  import opened Streams
  import opened ChunkedSpec
  import opened ChunkedRoundTrip

  // ---- sizes ----

  function Upper(c: char): char {
    if 'a' <= c <= 'f' then c - 32 as char else c
  }

  function UpperHex(n: nat): string {
    var s := ToHex(n);
    seq(|s|, i requires 0 <= i < |s| => Upper(s[i]))
  }

  function Zeros(k: nat): string {
    seq(k, _ => '0')
  }

  /** `a` is a spelling of the digits of `b`. */
  predicate SameDigits(a: string, b: string) {
    |a| == |b| && forall i :: 0 <= i < |a| ==> IsHexDigit(a[i]) && DigitValue(a[i]) == DigitValue(b[i])
  }

  lemma {:induction false} DigitsSame(a: string, b: string, rest: string, acc: nat)
    requires SameDigits(a, b)
    ensures DigitsFrom(a + rest, acc) == DigitsFrom(b + rest, acc)
    decreases |a|
  {
    if a == "" {
      assert a + rest == b + rest;
    } else {
      assert (a + rest)[1..] == a[1..] + rest && (b + rest)[1..] == b[1..] + rest;
      DigitsSame(a[1..], b[1..], rest, 16 * acc + DigitValue(a[0]));
    }
  }

  lemma {:induction false} DigitsZeros(k: nat, rest: string)
    ensures DigitsFrom(Zeros(k) + rest, 0) == DigitsFrom(rest, 0)
    decreases k
  {
    if k == 0 {
      assert Zeros(k) + rest == rest;
    } else {
      assert (Zeros(k) + rest)[1..] == Zeros(k - 1) + rest && (Zeros(k) + rest)[0] == '0';
      DigitsZeros(k - 1, rest);
    }
  }

  lemma UpperSame(n: nat)
    ensures SameDigits(UpperHex(n), ToHex(n)) && SameDigits(ToHex(n), ToHex(n))
  {
  }

  lemma PlainDigits(s: string)
    requires s != "" && IsHexDigit(s[0]) && (|s| > 1 ==> s[1] != 'x' && s[1] != 'X')
    ensures Strtoul16(s) == if DigitsFrom(s, 0) > ULONG_MAX then Number(ULONG_MAX) else Number(DigitsFrom(s, 0))
  {
    DigitIsNoSign(s[0]);
    SkipNothing(s);
  }

  /** Leading zeros and the case of the digits do not matter, nor does what stands behind them. */
  lemma SizeSpelled(n: nat, k: nat, digits: string, ext: string)
    requires n <= ULONG_MAX && SameDigits(digits, ToHex(n))
    requires ext != "" ==> !IsHexDigit(ext[0]) && ext[0] != 'x' && ext[0] != 'X'
    ensures Strtoul16(Zeros(k) + digits + ext) == Number(n)
  {
    hide ToHex, DigitsFrom;
    var s := Zeros(k) + digits + ext;
    assert s == Zeros(k) + (digits + ext);
    DigitsZeros(k, digits + ext);
    DigitsSame(digits, ToHex(n), ext, 0);
    DigitsOfHex(n, ext);
    assert forall i :: 0 <= i < |digits| ==> IsHexDigit(digits[i]);
    SecondIsNoX(k, digits, ext);
    PlainDigits(s);
  }

  lemma SecondIsNoX(k: nat, digits: string, ext: string)
    requires digits != "" && forall i :: 0 <= i < |digits| ==> IsHexDigit(digits[i])
    requires ext != "" ==> ext[0] != 'x' && ext[0] != 'X'
    ensures var s := Zeros(k) + digits + ext;
            s != "" && IsHexDigit(s[0]) && (|s| > 1 ==> s[1] != 'x' && s[1] != 'X')
  {
    var s := Zeros(k) + digits + ext;
    assert s[0] == if k > 0 then '0' else digits[0];
    if |s| > 1 {
      assert s[1] == if 1 < k then '0' else if 1 < k + |digits| then digits[1 - k] else ext[0];
    }
  }

  /** White space, a sign and 0x may stand in front of a size; behind a minus it is taken modulo 2^64, so that
      minus one is the error value and any other negative size is huge. */
  lemma {:induction false} SizeInFront(w: string, sign: string, x: string, n: nat, rest: string)
    requires n <= ULONG_MAX && (rest != "" ==> !IsHexDigit(rest[0]) && rest[0] != 'x' && rest[0] != 'X')
    requires (forall i :: 0 <= i < |w| ==> IsSpace(w[i])) && sign in {"", "+", "-"} && x in {"", "0x", "0X"}
    ensures Strtoul16(w + sign + x + (ToHex(n) + rest)) ==
            Number(if sign == "-" && n > 0 then ULONG_MAX + 1 - n else n)
    decreases |w|
  {
    hide ToHex, Strtoul16;
    var t := ToHex(n) + rest;
    if w == "" {
      assert w + sign + x + t == sign + x + t;
      SizeHead(sign, x, n, rest);
    } else {
      SizeInFront(w[1..], sign, x, n, rest);
      var s := w + sign + x + t;
      assert s[1..] == w[1..] + sign + x + t && s[0] == w[0];
      SizeSpace(s);
    }
  }

  lemma SizeSpace(s: string)
    requires s != "" && IsSpace(s[0])
    ensures Strtoul16(s) == Strtoul16(s[1..])
  {
    hide DigitsFrom;
  }

  lemma SizeHead(sign: string, x: string, n: nat, rest: string)
    requires n <= ULONG_MAX && (rest != "" ==> !IsHexDigit(rest[0]) && rest[0] != 'x' && rest[0] != 'X')
    requires sign in {"", "+", "-"} && x in {"", "0x", "0X"}
    ensures Strtoul16(sign + x + (ToHex(n) + rest)) ==
            Number(if sign == "-" && n > 0 then ULONG_MAX + 1 - n else n)
  {
    hide ToHex, DigitsFrom, Strtoul16;
    var t := ToHex(n) + rest;
    DigitsOfHex(n, rest);
    ToHexNoX(n);
    assert sign + x + t == sign + (x + t);
    if x != "" {
      assert (x + t)[2..] == t && (x + t)[2] == t[0];
      ZeroIsDigit();
    } else {
      assert x + t == t;
    }
    AfterSign(sign, x + t, t, n);
  }

  lemma ZeroIsDigit()
    ensures IsHexDigit('0')
  {
  }

  /** What is behind the sign, with and without a prefix. */
  lemma AfterSign(sign: string, u: string, v: string, n: nat)
    requires sign in {"", "+", "-"} && u != "" && IsHexDigit(u[0]) && v != "" && IsHexDigit(v[0])
    requires v == if |u| > 2 && u[0] == '0' && (u[1] == 'x' || u[1] == 'X') && IsHexDigit(u[2]) then u[2..] else u
    requires DigitsFrom(v, 0) == n <= ULONG_MAX
    ensures Strtoul16(sign + u) == Number(if sign == "-" && n > 0 then ULONG_MAX + 1 - n else n)
  {
    hide DigitsFrom, IsHexDigit;
    DigitIsNoSign(u[0]);
    FirstOf(sign, u);
    SkipNothing(sign + u);
  }

  lemma FirstOf(sign: string, s: string)
    requires sign in {"", "+", "-"} && s != "" && !IsSpace(s[0]) && s[0] != '-' && s[0] != '+'
    ensures var t := sign + s;
            t != "" && !IsSpace(t[0]) && (t[0] == '-' <==> sign == "-") && (t[0] == '+' <==> sign == "+")
            && (sign != "" ==> t[1..] == s) && (sign == "" ==> t == s)
  {
  }

  // ---- chunks with extensions ----

  lemma {:induction false} CStringPlus(h: string, t: string)
    requires '\0' !in h
    ensures CString(h + t) == h + CString(t)
    decreases |h|
  {
    if h == "" {
      assert h + t == t;
    } else {
      assert (h + t)[1..] == h[1..] + t;
      CStringPlus(h[1..], t);
    }
  }

  predicate Extension(ext: string) {
    '\r' !in ext && (ext != "" ==> !IsHexDigit(ext[0]) && ext[0] != 'x' && ext[0] != 'X')
  }

  lemma DigitsClean(n: nat, k: nat, digits: string)
    requires SameDigits(digits, ToHex(n))
    ensures '\0' !in Zeros(k) + digits && '\r' !in Zeros(k) + digits && digits != ""
  {
    assert digits != "" by { assert ToHex(n) != ""; }
    forall i | 0 <= i < |digits|
      ensures digits[i] != '\0' && digits[i] != '\r'
    {
      assert IsHexDigit(digits[i]);
    }
  }

  /** A size line in any spelling, with any extension, is the size. */
  lemma SpelledLine(n: nat, k: nat, digits: string, ext: string, rest: string)
    requires n <= ULONG_MAX && SameDigits(digits, ToHex(n)) && Extension(ext)
    requires |Zeros(k) + digits + ext| + 2 <= 32768
    ensures var s := Zeros(k) + digits + ext + CRLF + rest;
            LineReadable(s) && AfterLine(s) == rest && Strtoul16(CString(LineOf(s))) == Number(n)
  {
    hide ToHex, Strtoul16, LineReadable, LineOf, AfterLine, SameDigits, CString;
    var h := Zeros(k) + digits;
    DigitsClean(n, k, digits);
    LineAt(h + ext, rest);
    assert (h + ext) + CRLF == h + (ext + CRLF);
    CStringPlus(h, ext + CRLF);
    CStringHead(ext + CRLF);
    SizeSpelled(n, k, digits, CString(ext + CRLF));
  }

  lemma CStringHead(s: string)
    requires s != ""
    ensures CString(s) != "" ==> CString(s)[0] == s[0]
  {
  }

  /** A chunk in any spelling is delivered whole, and the reader continues behind it. */
  lemma SpelledChunkDecodes(d: string, k: nat, digits: string, ext: string, rest: string, limit: nat, total: nat)
    requires 0 < |d| < ULONG_MAX && total + |d| <= limit
    requires SameDigits(digits, ToHex(|d|)) && Extension(ext) && |Zeros(k) + digits + ext| + 2 <= 32768
    ensures Decode(Zeros(k) + digits + ext + CRLF + (d + (CRLF + rest)), limit, total) ==
            Prepend(d, Decode(rest, limit, total + |d|))
  {
    hide *;
    SpelledLine(|d|, k, digits, ext, d + (CRLF + rest));
    var s := Zeros(k) + digits + ext + CRLF + (d + (CRLF + rest));
    SizedLine(s, |d|, d + (CRLF + rest), limit, total);
    ChunkBytes(d, rest, limit, total + |d|);
  }

  // ---- trailers ----

  /** Trailer fields, each on its line. */
  function Trailers(fields: seq<string>): string {
    if fields == [] then CRLF else fields[0] + CRLF + Trailers(fields[1..])
  }

  predicate IsTrailer(field: string) {
    field != "" && '\r' !in field && '\0' !in field && |field| + 2 <= 8192
  }

  lemma {:induction false} TrailersSkipped(fields: seq<string>, rest: string)
    requires forall i :: 0 <= i < |fields| ==> IsTrailer(fields[i])
    ensures LineReadable(Trailers(fields) + rest)
    ensures SkipTrailers(Trailers(fields) + rest) == Outcome(Success, "", rest)
    decreases |fields|
  {
    hide LineReadable, LineOf, CString, SkipTrailers;
    var s := Trailers(fields) + rest;
    if fields == [] {
      BlankLine(rest);
      TrailerStep(s);
    } else {
      var (f, t) := (fields[0], Trailers(fields[1..]) + rest);
      assert s == f + CRLF + t;
      TrailersSkipped(fields[1..], rest);
      LineAt(f, t);
      CStringClean(f + CRLF);
      assert f + CRLF != CRLF by { assert |f + CRLF| > |CRLF|; }
      TrailerStep(s);
    }
  }

  /** Trailer fields behind the last chunk are passed over; what follows the blank line is left. */
  lemma LastChunkWithTrailers(k: nat, ext: string, fields: seq<string>, rest: string, limit: nat, total: nat)
    requires Extension(ext) && k + |ext| + 3 <= 32768 && forall i :: 0 <= i < |fields| ==> IsTrailer(fields[i])
    ensures Decode(Zeros(k) + "0" + ext + CRLF + (Trailers(fields) + rest), limit, total) == Outcome(Success, "", rest)
  {
    hide *;
    ZeroText();
    var s := Zeros(k) + "0" + ext + CRLF + (Trailers(fields) + rest);
    ZerosLength(k, ext);
    SpelledLine(0, k, "0", ext, Trailers(fields) + rest);
    TrailersSkipped(fields, rest);
    LastSizeLine(s, limit, total);
  }

  /** A stream that ends behind the last chunk's size line has ended. */
  lemma NothingBehindLastChunk(k: nat, ext: string, limit: nat, total: nat)
    requires Extension(ext) && k + |ext| + 3 <= 32768
    ensures Decode(Zeros(k) + "0" + ext + CRLF + "", limit, total) == Outcome(Success, "", "")
  {
    hide *;
    ZeroText();
    ZerosLength(k, ext);
    SpelledLine(0, k, "0", ext, "");
    LastSizeLine(Zeros(k) + "0" + ext + CRLF + "", limit, total);
    EmptyUnreadable();
  }

  lemma EmptyUnreadable()
    ensures !LineReadable("") && Unread("") == ""
  {
  }

  /** One that ends behind trailer fields, without the blank line, is an error. */
  lemma {:induction false} TrailersCutFail(fields: seq<string>)
    requires fields != [] && forall i :: 0 <= i < |fields| ==> IsTrailer(fields[i])
    ensures LineReadable(Lines(fields)) && SkipTrailers(Lines(fields)) == Outcome(Error, "", "")
    decreases |fields|
  {
    hide LineReadable, LineOf, CString, SkipTrailers;
    var (f, t) := (fields[0], Lines(fields[1..]));
    if fields[1..] == [] {
      EmptyUnreadable();
    } else {
      TrailersCutFail(fields[1..]);
    }
    assert Lines(fields) == f + CRLF + t;
    LineAt(f, t);
    CStringClean(f + CRLF);
    assert f + CRLF != CRLF by { assert |f + CRLF| > |CRLF|; }
    TrailerStep(Lines(fields));
  }

  function Lines(fields: seq<string>): string {
    if fields == [] then "" else fields[0] + CRLF + Lines(fields[1..])
  }

  lemma ZeroText()
    ensures ToHex(0) == "0" && SameDigits("0", ToHex(0))
  {
  }

  lemma ZerosLength(k: nat, ext: string)
    ensures |Zeros(k) + "0" + ext| == k + 1 + |ext|
  {
  }

  // ---- errors ----

  /** A size line that does not start with a number is an error, and nothing is delivered. */
  lemma NoSizeFails(line: string, rest: string, limit: nat, total: nat)
    requires '\r' !in line && |line| + 2 <= 32768
    requires line == "" || (!IsHexDigit(line[0]) && !IsSpace(line[0]) && line[0] != '-' && line[0] != '+')
    ensures Decode(line + CRLF + rest, limit, total) == Outcome(Error, "", "")
  {
    hide LineReadable, LineOf, AfterLine, Strtoul16, Decode;
    LineAt(line, rest);
    NoNumber(line);
    BadSizeLine(line + CRLF + rest, limit, total);
  }

  lemma NoNumber(line: string)
    requires line == "" || (!IsHexDigit(line[0]) && !IsSpace(line[0]) && line[0] != '-' && line[0] != '+')
    ensures Strtoul16(CString(line + CRLF)) == NoDigits
  {
    var s := line + CRLF;
    if line == "" {
      assert s == CRLF && CRLF[1..] == "\n";
      CStringClean(CRLF);
      assert SkipSpace("\n") == "" by { assert "\n"[1..] == ""; }
      assert SkipSpace(CRLF) == "";
    } else {
      CStringHead(s);
      var t := CString(s);
      assert s[0] == line[0];
      if t != "" { assert SkipSpace(t) == t; }
    }
  }

  /** Data that is not followed by a line end is delivered, and is an error. */
  lemma NoLineEndFails(d: string, tail: string, limit: nat, total: nat)
    requires 0 < |d| < ULONG_MAX && total + |d| <= limit && !StartsWith(tail, CRLF)
    ensures Decode(ToHex(|d|) + CRLF + (d + tail), limit, total) == Outcome(Error, d, "")
  {
    hide Strtoul16, CString, LineReadable, LineOf, AfterLine, Decode, ToHex, EndsWithCrlf;
    var s := ToHex(|d|) + CRLF + (d + tail);
    SizeLine(|d|, d + tail);
    ChunkFollows(s, |d|, limit, total);
    assert (d + tail)[|d|..] == tail && (d + tail)[..|d|] == d;
    if LineReadable(tail) { NotALineEnd(tail); }
    EndsWithIs(d, tail);
  }

  lemma EndsWithIs(d: string, tail: string)
    ensures EndsWithCrlf(d + tail, |d|) <==> LineReadable(tail) && CString(LineOf(tail)) == CRLF
  {
    hide LineReadable, LineOf, CString;
    assert (d + tail)[|d|..] == tail;
  }

  lemma NotALineEnd(tail: string)
    requires !StartsWith(tail, CRLF) && LineReadable(tail)
    ensures CString(LineOf(tail)) != CRLF
  {
    var line := LineOf(tail);
    if CString(line) == CRLF {
      CStringPrefix(line);
    }
  }

  lemma {:induction false} CStringPrefix(s: string)
    ensures |CString(s)| <= |s| && CString(s) == s[..|CString(s)|]
    decreases |s|
  {
    if s != "" && s[0] != '\0' {
      CStringPrefix(s[1..]);
    }
  }

  /** A size line over the limit of a line is an error. */
  lemma LongLineFails(line: string, rest: string, limit: nat, total: nat)
    requires '\r' !in line && |line| + 2 > 32768
    ensures Decode(line + CRLF + rest, limit, total) == Outcome(Error, "", "")
  {
    var s := line + CRLF + rest;
    assert s[|line|..|line| + 2] == CRLF;
    forall j: nat | j < |line|
      ensures !OccursAt(s, CRLF, j)
    {
      assert s[j] == line[j];
      Mismatch(s, CRLF, j, 0);
    }
    FindIs(s, CRLF, |line|);
  }
}
