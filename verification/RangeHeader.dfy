/**
 The Range field (section 14.2 of RFC 9110): make_range_header of the client (httplib.h:6702-6714) and
 parse_range_header of the server (httplib.h:5358-5406).
 */
module RangeHeaderSpec {
  import opened Common
  import opened Text
  import opened Decimal
  import opened Disposition
  import opened Ranges

  const UNIT: string := "bytes="

  // ---- the client ----

  function Position(n: int): string {
    if n == -1 then "" else ToText(n)
  }

  function RangeText(r: Range): string {
    Position(r.first) + "-" + Position(r.last)
  }

  function Joined(rs: seq<Range>): string {
    if rs == [] then ""
    else if |rs| == 1 then RangeText(rs[0])
    else RangeText(rs[0]) + ", " + Joined(rs[1..])
  }

  // ---- the server ----

  /** -1 for an absent position, nothing for one that is no number of 64 bits. */
  function ReadPosition(s: string): Option<int> {
    if s == "" then Some(-1)
    else if !AllDigits(s) then None
    else match Parse(s, INT64_MIN, INT64_MAX)
      case Invalid => None
      case Number(n) => Some(n)
  }

  function ReadRange(piece: string): Option<Range> {
    var i := IndexOf(piece, '-');
    if i == |piece| then None
    else
      match (ReadPosition(piece[..i]), ReadPosition(piece[i + 1..]))
      case (Some(first), Some(last)) =>
        if (first == -1 && last == -1) || (first != -1 && last != -1 && first > last) then None
        else Some(Range(first, last))
      case _ => None
  }

  function ReadRanges(pieces: seq<string>): Option<seq<Range>> {
    if pieces == [] then Some([])
    else
      match (ReadRange(pieces[0]), ReadRanges(pieces[1..]))
      case (Some(r), Some(rest)) => Some([r] + rest)
      case _ => None
  }

  /** The ranges of the field, or None where the server answers 416. */
  function ReadHeader(s: string): Option<seq<Range>> {
    if |s| > 7 && StartsWith(s, UNIT) then
      match ReadRanges(Split(s[|UNIT|..], ','))
      case Some(rs) => if rs == [] then None else Some(rs)
      case None => None
    else None
  }
}

module RangeHeader {
  import opened Common
  import opened Text
  import opened Decimal
  import opened Disposition
  import opened DispositionRoundTrip
  import opened HeaderForms
  import opened Ranges
  import opened RangeHeaderSpec

  /** A range that the field can express: a position at least, none negative, and not backwards. */
  predicate Expressible(r: Range) {
    && -1 <= r.first <= INT64_MAX && -1 <= r.last <= INT64_MAX
    && (r.first != -1 || r.last != -1)
    && (r.first != -1 && r.last != -1 ==> r.first <= r.last)
  }

  predicate Wide(r: Range) {
    INT64_MIN <= r.first <= INT64_MAX && INT64_MIN <= r.last <= INT64_MAX
  }

  // ---- one position ----

  lemma DigitsOf(n: nat)
    ensures ToText(n) != "" && AllDigits(ToText(n))
  {
    assert ToText(n) == NatText(n);
  }

  lemma PositionReads(n: int)
    requires -1 <= n <= INT64_MAX
    ensures ReadPosition(Position(n)) == Some(n) && AllDigits(Position(n))
  {
    hide Parse, ToText;
    if n >= 0 {
      DigitsOf(n);
      ParseToText(n, INT64_MIN, INT64_MAX);
    }
  }

  lemma NegativeText(n: int)
    requires n < -1
    ensures Position(n) != "" && Position(n)[0] == '-' && AllDigits(Position(n)[1..])
  {
    assert ("-" + NatText(-n))[1..] == NatText(-n);
  }

  lemma MinusIsNoDigit(s: string)
    requires '-' in s
    ensures ReadPosition(s) == None
  {
    var i :| 0 <= i < |s| && s[i] == '-';
    assert !IsDigit(s[i]);
  }

  lemma PieceParts(a: string, b: string)
    requires '-' !in a
    ensures var s := a + "-" + b; IndexOf(s, '-') == |a| < |s| && s[..|a|] == a && s[|a| + 1..] == b
  {
    IndexOfIs(a + "-" + b, '-', |a|);
  }

  lemma DigitsFree(s: string)
    requires AllDigits(s)
    ensures '-' !in s && ',' !in s && (forall i :: 0 <= i < |s| ==> !IsBlank(s[i]))
  {
  }

  /** A printed range is read back, unless the field cannot express it; then it is refused. */
  lemma RangeReads(r: Range)
    requires Wide(r)
    ensures ReadRange(RangeText(r)) == if Expressible(r) then Some(r) else None
  {
    hide ReadPosition, Position, AllDigits;
    var (a, b) := (Position(r.first), Position(r.last));
    if r.first < -1 {
      NegativeText(r.first);
      assert a + "-" + b == "" + "-" + (a[1..] + "-" + b);
      PieceParts("", a[1..] + "-" + b);
      MinusIsNoDigit(a[1..] + "-" + b);
    } else {
      PositionReads(r.first);
      DigitsFree(a);
      PieceParts(a, b);
      if r.last < -1 {
        NegativeText(r.last);
        MinusIsNoDigit(b);
      } else {
        PositionReads(r.last);
      }
    }
  }

  // ---- the list ----

  predicate PositionChar(c: char) {
    IsDigit(c) || c == '-'
  }

  lemma PositionChars(n: int)
    ensures forall i :: 0 <= i < |Position(n)| ==> PositionChar(Position(n)[i])
  {
    if n >= 0 {
      DigitsOf(n);
    } else if n < -1 {
      NegativeText(n);
      var s := Position(n);
      assert forall i :: 1 <= i < |s| ==> s[i] == s[1..][i - 1];
    }
  }

  lemma RangeTextClean(r: Range)
    ensures RangeText(r) != "" && NoEdgeBlank(RangeText(r)) && ',' !in RangeText(r)
  {
    PositionChars(r.first);
    PositionChars(r.last);
    var s := RangeText(r);
    assert forall i :: 0 <= i < |s| ==> PositionChar(s[i]);
  }

  function Pieces(rs: seq<Range>): (pieces: seq<string>)
    ensures |pieces| == |rs|
  {
    if rs == [] then [] else [RangeText(rs[0])] + Pieces(rs[1..])
  }

  lemma {:induction false} JoinedSplits(pad: string, rs: seq<Range>)
    requires rs != [] && pad in {"", " "}
    ensures Split(pad + Joined(rs), ',') == Pieces(rs)
    decreases |rs|
  {
    hide RangeText, NoEdgeBlank, Trim, Split;
    var p := RangeText(rs[0]);
    RangeTextClean(rs[0]);
    TrimBoth(pad, p, "");
    assert pad + p + "" == pad + p;
    if |rs| == 1 {
      assert rs[1..] == [] && Pieces(rs[1..]) == [];
      PieceLast(pad + p, p, ',');
    } else {
      var rest := Joined(rs[1..]);
      JoinedSplits(" ", rs[1..]);
      PieceFirst(pad + p, p, ',', " " + rest);
      CommaText(pad, p, rest);
    }
  }

  lemma CommaText(pad: string, p: string, rest: string)
    ensures pad + (p + ", " + rest) == pad + p + [','] + (" " + rest)
  {
  }

  predicate AllExpressible(rs: seq<Range>) {
    forall i :: 0 <= i < |rs| ==> Expressible(rs[i])
  }

  lemma {:induction false} PiecesRead(rs: seq<Range>)
    requires forall i :: 0 <= i < |rs| ==> Wide(rs[i])
    ensures ReadRanges(Pieces(rs)) == if AllExpressible(rs) then Some(rs) else None
    decreases |rs|
  {
    hide ReadRange, RangeText, Expressible, Wide;
    if rs != [] {
      RangeReads(rs[0]);
      PiecesRead(rs[1..]);
      assert Pieces(rs)[1..] == Pieces(rs[1..]);
      assert [rs[0]] + rs[1..] == rs;
      FirstAndRest(rs);
    }
  }

  lemma FirstAndRest(rs: seq<Range>)
    requires rs != []
    ensures AllExpressible(rs) <==> Expressible(rs[0]) && AllExpressible(rs[1..])
  {
    hide Expressible;
    if AllExpressible(rs[1..]) && Expressible(rs[0]) {
      forall i | 0 <= i < |rs|
        ensures Expressible(rs[i])
      {
        if i > 0 { assert rs[i] == rs[1..][i - 1]; }
      }
    }
  }

  lemma JoinedLong(rs: seq<Range>)
    requires rs != [] && |Joined(rs)| < 2
    ensures !Expressible(rs[0])
  {
    hide ToText;
    var r := rs[0];
    assert |RangeText(r)| <= |Joined(rs)|;
    if r.first >= 0 { DigitsOf(r.first); }
    if r.last >= 0 { DigitsOf(r.last); }
  }

  /** What the client asks for is what the server reads, if and only if there is a range and the field can
      express all of them; any other list is refused. */
  lemma HeaderRoundTrip(rs: seq<Range>)
    requires forall i :: 0 <= i < |rs| ==> Wide(rs[i])
    ensures ReadHeader("bytes=" + Joined(rs)) == if rs != [] && AllExpressible(rs) then Some(rs) else None
  {
    hide ReadRanges, Split, Expressible, Wide, Joined;
    var s := UNIT + Joined(rs);
    assert s[..|UNIT|] == UNIT && s[|UNIT|..] == Joined(rs);
    if rs == [] {
      NothingJoined();
    } else {
      JoinedSplits("", rs);
      assert "" + Joined(rs) == Joined(rs);
      PiecesRead(rs);
      if |Joined(rs)| < 2 { JoinedLong(rs); }
    }
  }

  lemma NothingJoined()
    ensures Joined([]) == ""
  {
  }

  lemma {:induction false} ReadIsExpressible(pieces: seq<string>)
    ensures ReadRanges(pieces).Some? ==> AllExpressible(ReadRanges(pieces).value)
    decreases |pieces|
  {
    hide ReadRange, Expressible;
    if pieces != [] && ReadRanges(pieces).Some? {
      ReadIsExpressible(pieces[1..]);
      OneExpressible(pieces[0]);
      var rs := ReadRanges(pieces).value;
      assert rs[1..] == ReadRanges(pieces[1..]).value;
      FirstAndRest(rs);
    }
  }

  /** Whatever the field holds, the server goes on with expressible ranges, and with one at least. */
  lemma HeaderIsExpressible(s: string)
    ensures ReadHeader(s).Some? ==> ReadHeader(s).value != [] && AllExpressible(ReadHeader(s).value)
  {
    hide ReadRanges, AllExpressible, StartsWith;
    if |s| > 7 && StartsWith(s, UNIT) {
      ReadIsExpressible(Split(s[|UNIT|..], ','));
    }
  }

  lemma OneExpressible(piece: string)
    requires ReadRange(piece).Some?
    ensures Expressible(ReadRange(piece).value)
  {
    hide Parse, AllDigits, IndexOf;
    var i := IndexOf(piece, '-');
    PositionBounds(piece[..i]);
    PositionBounds(piece[i + 1..]);
  }

  lemma PositionBounds(s: string)
    requires ReadPosition(s).Some?
    ensures -1 <= ReadPosition(s).value <= INT64_MAX
  {
    if s != "" {
      SignedDigits("", s, INT64_MIN, INT64_MAX);
      assert "" + s == s;
    }
  }

  // ---- the loop of the client ----

  function Ahead(rs: seq<Range>, i: nat): string
    requires i <= |rs|
  {
    if i == |rs| then "" else (if i == 0 then "" else ", ") + Joined(rs[i..])
  }

  lemma AheadStep(rs: seq<Range>, i: nat)
    requires i < |rs|
    ensures Ahead(rs, i) == (if i == 0 then "" else ", ") + RangeText(rs[i]) + Ahead(rs, i + 1)
  {
    hide RangeText;
    var (sep, p) := (if i == 0 then "" else ", ", RangeText(rs[i]));
    assert rs[i..][0] == rs[i] && rs[i..][1..] == rs[i + 1..];
    if i + 1 < |rs| {
      var rest := Joined(rs[i + 1..]);
      assert sep + (p + ", " + rest) == sep + p + (", " + rest);
    }
  }

  lemma Lengthen(field: string, sep: string, p: string, rest: string)
    ensures field + (sep + p + rest) == field + sep + p + rest
  {
  }

  /** make_range_header. */
  method MakeRangeHeader(rs: seq<Range>) returns (field: string)
    requires forall i :: 0 <= i < |rs| ==> Wide(rs[i])
    ensures ReadHeader(field) == if rs != [] && AllExpressible(rs) then Some(rs) else None
    ensures field == UNIT + Joined(rs)
  {
    hide ReadHeader, Joined, Position, Expressible, Ahead;
    field := UNIT;
    var i := 0;
    StartsAhead(rs);
    while i < |rs|
      invariant 0 <= i <= |rs|
      invariant field + Ahead(rs, i) == UNIT + Joined(rs)
    {
      ghost var (sep, p) := (if i == 0 then "" else ", ", RangeText(rs[i]));
      AheadStep(rs, i);
      Lengthen(field, sep, p, Ahead(rs, i + 1));
      ghost var was := field;
      if i != 0 {
        field := field + ", ";
      }
      field := field + Position(rs[i].first);
      field := field + "-";
      field := field + Position(rs[i].last);
      Printed(was, sep, Position(rs[i].first), Position(rs[i].last));
      i := i + 1;
    }
    NothingAhead(rs);
    assert field + "" == field;
    HeaderRoundTrip(rs);
  }

  lemma Printed(was: string, sep: string, a: string, b: string)
    ensures was + sep + a + "-" + b == was + sep + (a + "-" + b)
    ensures was + "" == was
  {
  }

  lemma StartsAhead(rs: seq<Range>)
    ensures UNIT + Ahead(rs, 0) == UNIT + Joined(rs)
  {
    hide Joined;
    assert rs[0..] == rs;
    NothingJoined();
  }

  lemma NothingAhead(rs: seq<Range>)
    ensures Ahead(rs, |rs|) == ""
  {
  }
}
