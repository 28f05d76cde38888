/**
 How a query component is spelled (sections 2.1 to 2.3 of RFC 3986), and how other spellings are read
 (httplib.h:6613-6690).
 */
module QueryText {
  import opened Common
  import opened Text
  import opened DispositionRoundTrip
  import opened QuerySpec

  /** The unreserved characters of section 2.3. */
  predicate Unreserved(c: char) {
    'a' <= c <= 'z' || 'A' <= c <= 'Z' || '0' <= c <= '9' || c in "-._~"
  }

  /** They stand for themselves. */
  lemma UnreservedStay(c: char)
    requires Unreserved(c)
    ensures IsByte(c) && EncodeChar(c) == [c]
  {
  }

  const HEX_UPPER: string := "0123456789ABCDEF"
  const HEX_LOWER: string := "0123456789abcdef"

  /** Bytes that neither stand for themselves nor are a blank are escaped, high digit first. */
  lemma EscapeOf(high: nat, low: nat, c: char)
    requires high < 16 && low < 16 && c as int == 16 * high + low
    ensures IsByte(c)
    ensures !Safe(c) && c != ' ' ==> EncodeChar(c) == "%" + [HEX_UPPER[high], HEX_UPPER[low]]
    ensures Safe(c) ==> EncodeChar(c) == [c]
  {
    hide Safe, HEX_UPPER, UPPER;
    Digits(high, low);
    SameAlphabet();
    assert c as int / 16 == high && c as int % 16 == low;
  }

  lemma SameAlphabet()
    ensures |HEX_UPPER| == 16 && HEX_UPPER == UPPER
  {
  }

  lemma Digits(high: nat, low: nat)
    requires high < 16 && low < 16
    ensures (16 * high + low) / 16 == high && (16 * high + low) % 16 == low
  {
  }

  /** Among them the separators of parameters, the escape sign, the sign for a blank, and all that is not
      printable ASCII. */
  lemma Unsafe(c: char)
    requires c in "&=%+# " || c as int < 32 || c as int >= 127
    ensures !Safe(c)
  {
  }

  lemma BlankIsPlus()
    ensures EncodeChar(' ') == "+"
  {
    Unsafe(' ');
  }

  lemma HexDigit(d: nat)
    requires d < 16
    ensures HexValue(HEX_UPPER[d]) == d && HexValue(HEX_LOWER[d]) == d
  {
  }

  /** An escape is read in either case of its digits, and no other characters are one. */
  lemma EscapeReads(high: nat, low: nat, h: char, l: char, rest: string)
    requires high < 16 && low < 16
    requires h in {HEX_UPPER[high], HEX_LOWER[high]} && l in {HEX_UPPER[low], HEX_LOWER[low]}
    ensures DecodeComponent("%" + [h, l] + rest) == [(16 * high + low) as char] + DecodeComponent(rest)
  {
    hide HexValue;
    HexDigit(high);
    HexDigit(low);
    var s := "%" + [h, l] + rest;
    assert s[1] == h && s[2] == l && s[3..] == rest;
  }

  predicate HexChar(c: char) {
    c in HEX_UPPER || c in HEX_LOWER
  }

  lemma HexCharIs(c: char)
    ensures HexChar(c) <==> HexValue(c) >= 0
  {
    if HexValue(c) >= 0 {
      assert c == HEX_UPPER[HexValue(c)] || c == HEX_LOWER[HexValue(c)];
    }
  }

  /** A percent sign without two characters of a number behind it stands for itself. */
  lemma BrokenEscapeStays(h: char, l: char, rest: string)
    requires !HexChar(l) || (!HexChar(h) && !IsSpace(h) && h != '+' && h != '-')
    ensures DecodeComponent("%" + ([h, l] + rest)) == "%" + DecodeComponent([h, l] + rest)
  {
    hide HexValue, IsSpace;
    HexCharIs(h);
    HexCharIs(l);
    var s := "%" + ([h, l] + rest);
    assert s[1] == h && s[2] == l && s[1..] == [h, l] + rest;
  }

  lemma ShortEscapeStays(tail: string)
    requires |tail| < 2
    ensures DecodeComponent("%" + tail) == "%" + DecodeComponent(tail)
  {
    assert ("%" + tail)[1..] == tail;
  }

  /** The characters that stand for themselves are those of a query (section 3.4), without the three that separate
      parameters or stand for a blank. */
  lemma SafeExactly(c: char)
    ensures Safe(c) <==> (Unreserved(c) || c in "!$&'()*+,;=" || c in ":@/?") && c !in "&=+"
  {
  }

  /** strtoul takes a blank or a sign in place of the high digit, and a negative number modulo 256. */
  lemma SignedEscape(h: char, low: nat, l: char, rest: string)
    requires low < 16 && l in {HEX_UPPER[low], HEX_LOWER[low]} && (IsSpace(h) || h == '+' || h == '-')
    ensures DecodeComponent("%" + [h, l] + rest) ==
            [(if h == '-' && low > 0 then 256 - low else low) as char] + DecodeComponent(rest)
  {
    hide HEX_UPPER, HEX_LOWER;
    HexDigit(low);
    NoDigit(h);
    var s := "%" + [h, l] + rest;
    assert s[1] == h && s[2] == l && s[3..] == rest;
  }

  lemma NoDigit(h: char)
    requires IsSpace(h) || h == '+' || h == '-'
    ensures HexValue(h) < 0
  {
  }

  /** A key without an equals sign has the empty value, as with one and nothing behind it. */
  lemma BareKey(key: string)
    requires key != "" && NoEdgeBlank(key) && '&' !in key && '=' !in key
    ensures ParseQuery(key) == ParseQuery(key + "=") == [(DecodeComponent(key), "")]
  {
    hide ParseQuery, AddPiece, DecodeComponent, NoEdgeBlank;
    OnePiece(key);
    EqualsAtEnd(key);
    OnePiece(key + "=");
    BareKeyAmong([], {}, key);
    FirstEmplaced((DecodeComponent(key), ""));
  }

  lemma EqualsAtEnd(key: string)
    requires key != "" && NoEdgeBlank(key) && '&' !in key
    ensures key + "=" != "" && NoEdgeBlank(key + "=") && '&' !in key + "="
  {
  }

  lemma FirstEmplaced(p: (string, string))
    ensures Emplace([], p) == [p]
  {
  }

  lemma OnePiece(piece: string)
    requires piece != "" && NoEdgeBlank(piece) && '&' !in piece
    ensures ParseQuery(piece) == AddPiece([], {}, piece)
  {
    hide AddPiece;
    SplitLast(piece, '&');
    assert [piece][1..] == [];
    assert ParsePieces([piece], {}, []) == ParsePieces([], {} + {piece}, AddPiece([], {}, piece));
  }

  /** Wherever such a key stands. */
  lemma BareKeyAmong(ps: ParamList, seen: set<string>, key: string)
    requires key != "" && '=' !in key && key !in seen && key + "=" !in seen
    ensures AddPiece(ps, seen, key) == AddPiece(ps, seen, key + "=") == Emplace(ps, (DecodeComponent(key), ""))
  {
    hide Emplace, DecodeComponent;
    IndexOfIs(key, '=', |key|);
    IndexOfIs(key + "=", '=', |key|);
    assert key[..|key|] == key && (key + "=")[..|key|] == key && (key + "=")[|key| + 1..] == "";
    NothingDecodes();
  }

  lemma NothingDecodes()
    ensures DecodeComponent("") == ""
  {
  }

  lemma {:induction false} UnreservedText(s: string)
    requires forall i :: 0 <= i < |s| ==> Unreserved(s[i])
    ensures AllBytes(s) && EncodeComponent(s) == s
    decreases |s|
  {
    hide Unreserved, EncodeChar;
    if s != "" {
      UnreservedText(s[1..]);
      UnreservedStay(s[0]);
      assert [s[0]] + s[1..] == s;
    }
  }

  /** Keys and values are joined by equals signs, the pairs by ampersands. */
  lemma {:induction false} PairsJoined(ps: ParamList, q: (string, string))
    requires ByteParams(ps + [q])
    ensures ByteParams(ps) && AllBytes(q.0) && AllBytes(q.1)
    ensures QueryText(ps + [q]) ==
            (if ps == [] then "" else QueryText(ps) + "&") + (EncodeComponent(q.0) + "=" + EncodeComponent(q.1))
    decreases |ps|
  {
    hide EncodeComponent, AllBytes;
    FrontBytes(ps, q);
    if ps == [] {
      assert ps + [q] == [q];
    } else {
      assert (ps + [q])[1..] == ps[1..] + [q] && (ps + [q])[0] == ps[0];
      TailBytes(ps, q);
      PairsJoined(ps[1..], q);
      var (a, c) := (PairText(ps[0]), EncodeComponent(q.0) + "=" + EncodeComponent(q.1));
      if |ps| == 1 {
        assert ps[1..] == [];
        assert "" + c == c && a + "&" + c == (a + "&") + c;
      } else {
        var b := QueryText(ps[1..]);
        assert a + "&" + (b + "&" + c) == a + "&" + b + "&" + c;
      }
    }
  }

  lemma FrontBytes(ps: ParamList, q: (string, string))
    requires ByteParams(ps + [q])
    ensures ByteParams(ps) && AllBytes(q.0) && AllBytes(q.1)
  {
    hide AllBytes;
    forall i | 0 <= i < |ps|
      ensures AllBytes(ps[i].0) && AllBytes(ps[i].1)
    {
      assert (ps + [q])[i] == ps[i];
    }
    assert (ps + [q])[|ps|] == q;
  }

  lemma TailBytes(ps: ParamList, q: (string, string))
    requires ps != [] && ByteParams(ps + [q])
    ensures ByteParams(ps[1..] + [q])
  {
    hide AllBytes;
    forall i | 0 <= i < |ps|
      ensures AllBytes((ps[1..] + [q])[i].0) && AllBytes((ps[1..] + [q])[i].1)
    {
      assert (ps[1..] + [q])[i] == (ps + [q])[i + 1];
    }
  }
}
