/**
 Which texts the Base64 decoder maps back to what the encoder prints: encode and decode
 (services/messaging_service/src/utils/Base64.cpp:26-104) are inverse exactly on the
 canonical texts of section 3.5 of RFC 4648.
 */
module Base64Canonical {
  import opened Common
  import opened Base64Spec
  import opened Base64Properties

  predicate FullGroup(c0: char, c1: char, c2: char, c3: char) {
    IsBase64Char(c0) && IsBase64Char(c1) && IsBase64Char(c2) && IsBase64Char(c3)
  }

  /** A padded group whose cut off bits are zero. */
  predicate PaddedGroup(c0: char, c1: char, c2: char, c3: char) {
    && IsBase64Char(c0) && IsBase64Char(c1) && c3 == '='
    && if c2 == '=' then Value(c1) & 0x0F == 0 else IsBase64Char(c2) && Value(c2) & 0x03 == 0
  }

  /** Full groups, and perhaps a padded one at the end. */
  predicate Canonical(s: string) {
    s == "" ||
    (&& |s| >= 4
     && (|| (FullGroup(s[0], s[1], s[2], s[3]) && Canonical(s[4..]))
         || (|s| == 4 && PaddedGroup(s[0], s[1], s[2], s[3]))))
  }

  lemma UpperOfValue(c: char)
    requires 'A' <= c <= 'Z'
    ensures Value(c) < 64 && Alpha(Value(c)) == c
  {
    hide Value;
    var v: bv8 := (c as int - 'A' as int) as bv8;
    assert Alpha(v) == c;
    AlphaLetter(v);
  }

  lemma LowerOfValue(c: char)
    requires 'a' <= c <= 'z'
    ensures Value(c) < 64 && Alpha(Value(c)) == c
  {
    hide Value;
    var v: bv8 := (c as int - 'a' as int + 26) as bv8;
    assert Alpha(v) == c;
    AlphaLetter(v);
  }

  lemma DigitOfValue(c: char)
    requires '0' <= c <= '9' || c == '+' || c == '/'
    ensures Value(c) < 64 && Alpha(Value(c)) == c
  {
  }

  lemma AlphaOfValue(c: char)
    requires IsBase64Char(c)
    ensures Value(c) < 64 && Alpha(Value(c)) == c && c != '='
  {
    hide Value, Alpha;
    if 'A' <= c <= 'Z' { UpperOfValue(c); } else if 'a' <= c <= 'z' { LowerOfValue(c); } else { DigitOfValue(c); }
  }

  /** Bytes glued from four sextets fall apart into them again. */
  lemma ResplitFirst(v0: bv8, v1: bv8)
    requires v0 < 64 && v1 < 64
    ensures var a := (v0 << 2) | (v1 >> 4);
            Hi6(a) == v0 && (v1 & 0x0F == 0 ==> (a & 0x03) << 4 == v1)
  {
  }

  lemma ResplitSecond(v0: bv8, v1: bv8, v2: bv8)
    requires v0 < 64 && v1 < 64 && v2 < 64
    ensures Mid1((v0 << 2) | (v1 >> 4), ((v1 & 0x0F) << 4) | (v2 >> 2)) == v1
  {
  }

  lemma ResplitThird(v1: bv8, v2: bv8, v3: bv8)
    requires v1 < 64 && v2 < 64 && v3 < 64
    ensures var b := ((v1 & 0x0F) << 4) | (v2 >> 2);
            Mid2(b, ((v2 & 0x03) << 6) | v3) == v2 && (v2 & 0x03 == 0 ==> (b & 0x0F) << 2 == v2)
  {
  }

  lemma ResplitFourth(v2: bv8, v3: bv8)
    requires v2 < 64 && v3 < 64
    ensures Lo6(((v2 & 0x03) << 6) | v3) == v3
  {
  }

  lemma EncodeThree(a: byte, b: byte, c: byte, rest: seq<byte>)
    ensures Encode([a, b, c] + rest) == [Alpha(Hi6(a)), Alpha(Mid1(a, b)), Alpha(Mid2(b, c)), Alpha(Lo6(c))] + Encode(rest)
  {
    hide Alpha, Hi6, Mid1, Mid2, Lo6;
    assert ([a, b, c] + rest)[3..] == rest;
  }

  lemma FullReencodes(c0: char, c1: char, c2: char, c3: char, rest: seq<byte>)
    requires FullGroup(c0, c1, c2, c3)
    ensures GroupOk(c0, c1, c2, c3)
    ensures Encode(GroupBytes(c0, c1, c2, c3) + rest) == [c0, c1, c2, c3] + Encode(rest)
  {
    hide Value, Alpha, IsBase64Char, Hi6, Mid1, Mid2, Lo6, GroupBytes, Encode;
    var (v0, v1, v2, v3) := (Value(c0), Value(c1), Value(c2), Value(c3));
    AlphaOfValue(c0);
    AlphaOfValue(c1);
    AlphaOfValue(c2);
    AlphaOfValue(c3);
    FullBytes(c0, c1, c2, c3, v0, v1, v2, v3);
    ResplitFirst(v0, v1);
    ResplitSecond(v0, v1, v2);
    ResplitThird(v1, v2, v3);
    ResplitFourth(v2, v3);
    EncodeThree((v0 << 2) | (v1 >> 4), ((v1 & 0x0F) << 4) | (v2 >> 2), ((v2 & 0x03) << 6) | v3, rest);
  }

  lemma PaddedReencodes(c0: char, c1: char, c2: char, c3: char)
    requires PaddedGroup(c0, c1, c2, c3)
    ensures GroupOk(c0, c1, c2, c3)
    ensures Encode(GroupBytes(c0, c1, c2, c3)) == [c0, c1, c2, c3]
  {
    hide Value, Alpha, IsBase64Char, Hi6, Mid1, Mid2, Lo6, GroupBytes, Encode;
    if c2 != '=' { AlphaOfValue(c2); }
    var (v0, v1, v2) := (Value(c0), Value(c1), if c2 == '=' then 0 else Value(c2));
    AlphaOfValue(c0);
    AlphaOfValue(c1);
    PaddedBytes(c0, c1, c2, v0, v1, v2);
    ResplitFirst(v0, v1);
    ResplitSecond(v0, v1, v2);
    ResplitThird(v1, v2, 0);
    EncodeTail((v0 << 2) | (v1 >> 4), ((v1 & 0x0F) << 4) | (v2 >> 2));
  }

  lemma {:induction false} CanonicalReencodes(s: string)
    requires Canonical(s)
    ensures |s| % 4 == 0 && DecodeGroups(s).Bytes? && Encode(DecodeGroups(s).bytes) == s
    decreases |s|
  {
    hide Encode, GroupBytes, GroupOk, FullGroup, PaddedGroup;
    if s == "" {
      EncodeNothing();
    } else if FullGroup(s[0], s[1], s[2], s[3]) && Canonical(s[4..]) {
      CanonicalReencodes(s[4..]);
      FullReencodes(s[0], s[1], s[2], s[3], DecodeGroups(s[4..]).bytes);
      assert s == [s[0], s[1], s[2], s[3]] + s[4..];
    } else {
      PaddedReencodes(s[0], s[1], s[2], s[3]);
      assert s[4..] == "" && s == [s[0], s[1], s[2], s[3]];
      assert GroupBytes(s[0], s[1], s[2], s[3]) + [] == GroupBytes(s[0], s[1], s[2], s[3]);
    }
  }

  lemma EncodeNothing()
    ensures Encode([]) == ""
  {
  }

  lemma TailBits(a: byte, b: byte)
    ensures ((a & 0x03) << 4) & 0x0F == 0 && ((b & 0x0F) << 2) & 0x03 == 0
  {
  }

  lemma {:induction false} EncodeCanonical(b: seq<byte>)
    ensures Canonical(Encode(b))
    decreases |b|
  {
    hide Alpha, Value, IsBase64Char, Hi6, Mid1, Mid2, Lo6;
    if |b| >= 3 {
      Sextets(b[0], b[1], b[2]);
      AlphaValue(Hi6(b[0]));
      AlphaValue(Mid1(b[0], b[1]));
      AlphaValue(Mid2(b[1], b[2]));
      AlphaValue(Lo6(b[2]));
      EncodeCanonical(b[3..]);
      assert Encode(b)[4..] == Encode(b[3..]);
    } else if |b| > 0 {
      var c := if |b| == 2 then b[1] else 0;
      Sextets(b[0], c, 0);
      TailBits(b[0], c);
      AlphaValue(Hi6(b[0]));
      AlphaValue(Mid1(b[0], c));
      AlphaValue((b[0] & 0x03) << 4);
      AlphaValue((c & 0x0F) << 2);
    }
  }

  /** Decoding and encoding again gives the text back if and only if it is canonical. */
  lemma DecodeExact(s: string)
    ensures (Decode(s).Bytes? && Encode(Decode(s).bytes) == s) <==> Canonical(s)
  {
    hide Encode, DecodeGroups, DropSpaces, NoSpaces, Canonical;
    if Canonical(s) {
      CanonicalReencodes(s);
      EncodeNoSpaces(DecodeGroups(s).bytes);
      DropNothing(s);
    } else if Decode(s).Bytes? {
      EncodeCanonical(Decode(s).bytes);
    }
  }

  // ---- the alphabet and the texts of RFC 4648 ----

  const LETTERS: string := "ABCDEFGHIJKLMNOPQRSTUVWXYZ"
  const SMALL: string := "abcdefghijklmnopqrstuvwxyz"
  const ALPHABET: string := LETTERS + SMALL + "0123456789+/"

  lemma LetterAt(k: nat)
    requires k < 26
    ensures LETTERS[k] as int == 'A' as int + k
  {
  }

  lemma SmallAt(k: nat)
    requires k < 26
    ensures SMALL[k] as int == 'a' as int + k
  {
  }

  /** The digits are those of section 4, in order. */
  lemma AlphabetIs(k: nat)
    requires k < 64
    ensures |ALPHABET| == 64 && Alpha(k as bv8) == ALPHABET[k]
  {
    hide LETTERS, SMALL, Alpha;
    AlphabetParts();
    if k < 26 {
      LetterAt(k);
      FirstDigits(k);
    } else if k < 52 {
      SmallAt(k - 26);
      MiddleDigits(k - 26);
    } else {
      LastDigits(k - 52);
    }
  }

  lemma FirstDigits(k: nat)
    requires k < 26
    ensures Alpha(k as bv8) as int == 'A' as int + k
  {
    assert k as bv8 < 26 && k as bv8 as int == k;
  }

  lemma MiddleDigits(k: nat)
    requires k < 26
    ensures Alpha((k + 26) as bv8) as int == 'a' as int + k
  {
    var v := (k + 26) as bv8;
    assert v as int == k + 26 && 26 <= v < 52;
    assert (v - 26) as int == k;
  }

  lemma LastDigits(k: nat)
    requires k < 12
    ensures Alpha((k + 52) as bv8) == "0123456789+/"[k]
  {
    var v := (k + 52) as bv8;
    assert v as int == k + 52 && 52 <= v < 64;
    if k < 10 {
      assert (v - 52) as int == k;
    } else {
      assert v == 62 || v == 63;
    }
  }

  lemma AlphabetParts()
    ensures |LETTERS| == |SMALL| == 26
  {
  }

  /** The characters of a quad, by the digits' places in the alphabet. */
  lemma QuadText(a: byte, b: byte, c: byte, i: nat, j: nat, k: nat, l: nat)
    requires i < 64 && j < 64 && k < 64 && l < 64
    requires Hi6(a) == i as bv8 && Mid1(a, b) == j as bv8 && Mid2(b, c) == k as bv8 && Lo6(c) == l as bv8
    ensures Encode([a, b, c]) == [ALPHABET[i], ALPHABET[j], ALPHABET[k], ALPHABET[l]]
  {
    hide Alpha, Hi6, Mid1, Mid2, Lo6, Encode;
    AlphabetIs(i);
    AlphabetIs(j);
    AlphabetIs(k);
    AlphabetIs(l);
    EncodeFirst([a, b, c]);
    EncodeEmpty([a, b, c][3..]);
  }

  lemma EncodeEmpty(s: seq<byte>)
    requires |s| == 0
    ensures Encode(s) == ""
  {
  }

  /** The test vectors of section 10, over the bytes of "foobar". */
  lemma TestVectors()
    ensures Encode([]) == ""
    ensures Encode([102]) == "Zg=="
    ensures Encode([102, 111]) == "Zm8="
    ensures Encode([102, 111, 111]) == "Zm9v"
    ensures Encode([102, 111, 111, 98]) == "Zm9v" + "Yg=="
    ensures Encode([102, 111, 111, 98, 97]) == "Zm9v" + "YmE="
    ensures Encode([102, 111, 111, 98, 97, 114]) == "Zm9v" + "YmFy"
  {
    hide Encode, LETTERS, SMALL, ALPHABET;
    EncodeEmpty([]);
    ShortVectors();
    SecondHalf();
    var foo: seq<byte> := [102, 111, 111];
    AfterFoo([98]);
    AfterFoo([98, 97]);
    AfterFoo([98, 97, 114]);
    assert foo + [98] == [102, 111, 111, 98];
    assert foo + [98, 97] == [102, 111, 111, 98, 97];
    assert foo + [98, 97, 114] == [102, 111, 111, 98, 97, 114];
  }

  lemma ShortVectors()
    ensures Encode([102]) == "Zg=="
    ensures Encode([102, 111]) == "Zm8="
    ensures Encode([102, 111, 111]) == "Zm9v"
  {
    hide Encode, Alpha, LETTERS, SMALL, ALPHABET;
    DigitsUsed();
    QuadText(102, 111, 111, 25, 38, 61, 47);
    Tail1(102, 25, 32);
    Tail2(102, 111, 25, 38, 60);
  }

  lemma SecondHalf()
    ensures Encode([98]) == "Yg=="
    ensures Encode([98, 97]) == "YmE="
    ensures Encode([98, 97, 114]) == "YmFy"
  {
    hide Encode, Alpha, LETTERS, SMALL, ALPHABET;
    DigitsUsed();
    QuadText(98, 97, 114, 24, 38, 5, 50);
    Tail1(98, 24, 32);
    Tail2(98, 97, 24, 38, 4);
  }

  lemma DigitsUsed()
    ensures |ALPHABET| == 64 && ALPHABET[4] == 'E' && ALPHABET[5] == 'F' && ALPHABET[24] == 'Y' && ALPHABET[25] == 'Z'
    ensures ALPHABET[32] == 'g' && ALPHABET[38] == 'm' && ALPHABET[47] == 'v' && ALPHABET[50] == 'y'
    ensures ALPHABET[60] == '8' && ALPHABET[61] == '9'
  {
    hide LETTERS, SMALL;
    AlphabetParts();
    LetterAt(4);
    LetterAt(5);
    LetterAt(24);
    LetterAt(25);
    SmallAt(6);
    SmallAt(12);
    SmallAt(21);
    SmallAt(24);
  }

  lemma AfterFoo(t: seq<byte>)
    ensures Encode([102, 111, 111] + t) == Encode([102, 111, 111]) + Encode(t)
  {
    hide Encode;
    var s: seq<byte> := [102, 111, 111] + t;
    EncodeFirst(s);
    EncodeFirst([102, 111, 111]);
    EncodeEmpty([102, 111, 111][3..]);
    assert s[3..] == t;
  }

  lemma Tail1(a: byte, i: nat, j: nat)
    requires i < 64 && j < 64 && Hi6(a) == i as bv8 && (a & 0x03) << 4 == j as bv8
    ensures Encode([a]) == [ALPHABET[i], ALPHABET[j], '=', '=']
  {
    hide Alpha, Hi6, Encode;
    AlphabetIs(i);
    AlphabetIs(j);
    EncodeTail(a, 0);
  }

  lemma Tail2(a: byte, b: byte, i: nat, j: nat, k: nat)
    requires i < 64 && j < 64 && k < 64
    requires Hi6(a) == i as bv8 && Mid1(a, b) == j as bv8 && (b & 0x0F) << 2 == k as bv8
    ensures Encode([a, b]) == [ALPHABET[i], ALPHABET[j], ALPHABET[k], '=']
  {
    hide Alpha, Hi6, Mid1, Encode;
    AlphabetIs(i);
    AlphabetIs(j);
    AlphabetIs(k);
    EncodeTail(a, b);
  }

  // ---- what is accepted ----

  /** Digits everywhere, or padding in the second half of a group. */
  predicate WellPadded(t: string) {
    |t| % 4 == 0 && forall i :: 0 <= i < |t| ==> t[i] in ALPHABET || (t[i] == '=' && i % 4 >= 2)
  }

  lemma InAlphabet(c: char)
    ensures c in ALPHABET <==> IsBase64Char(c)
  {
    hide Alpha, Value, ALPHABET;
    if c in ALPHABET {
      var k :| 0 <= k < |ALPHABET| && ALPHABET[k] == c;
      DigitAt(0);
      DigitAt(k);
    }
    if IsBase64Char(c) {
      AlphaOfValue(c);
      var k := Value(c) as int;
      assert k as bv8 == Value(c);
      AlphabetIs(k);
      assert c == ALPHABET[k];
    }
  }

  lemma DigitAt(k: nat)
    requires k < 64
    ensures |ALPHABET| == 64 && IsBase64Char(ALPHABET[k])
  {
    hide Alpha, Value, ALPHABET;
    AlphabetIs(k);
    assert k as bv8 < 64;
    AlphaValue(k as bv8);
  }

  lemma {:induction false} GroupsAccepted(t: string)
    requires |t| % 4 == 0
    ensures DecodeGroups(t).Bytes? <==> WellPadded(t)
    decreases |t|
  {
    hide GroupBytes, IsBase64Char;
    if t != "" {
      var u := t[4..];
      GroupsAccepted(u);
      InAlphabet(t[0]);
      InAlphabet(t[1]);
      InAlphabet(t[2]);
      InAlphabet(t[3]);
      FirstGroup(t);
    }
  }

  lemma FirstGroup(t: string)
    requires |t| % 4 == 0 && t != ""
    ensures WellPadded(t) <==>
              && t[0] in ALPHABET && t[1] in ALPHABET && (t[2] in ALPHABET || t[2] == '=')
              && (t[3] in ALPHABET || t[3] == '=') && WellPadded(t[4..])
  {
    hide ALPHABET, WellPadded;
    Quarters(t, t[..4], t[4..]);
    OneGroup(t[..4]);
  }

  lemma OneGroup(g: string)
    requires |g| == 4
    ensures WellPadded(g) <==>
              g[0] in ALPHABET && g[1] in ALPHABET && (g[2] in ALPHABET || g[2] == '=') && (g[3] in ALPHABET || g[3] == '=')
  {
    hide ALPHABET;
  }

  lemma Quarters(t: string, g: string, u: string)
    requires |t| % 4 == 0 && |t| >= 4 && g == t[..4] && u == t[4..]
    ensures WellPadded(t) <==> WellPadded(g) && WellPadded(u)
  {
    hide ALPHABET;
    PlusFour();
    if WellPadded(t) {
      forall i | 0 <= i < |u|
        ensures u[i] in ALPHABET || (u[i] == '=' && i % 4 >= 2)
      {
        assert u[i] == t[i + 4];
      }
    }
    if WellPadded(g) && WellPadded(u) {
      forall i | 0 <= i < |t|
        ensures t[i] in ALPHABET || (t[i] == '=' && i % 4 >= 2)
      {
        if i >= 4 {
          assert t[i] == u[i - 4] && (i - 4 + 4) % 4 == (i - 4) % 4;
        } else {
          assert t[i] == g[i];
        }
      }
    }
  }

  lemma PlusFour()
    ensures forall i: int :: (i + 4) % 4 == i % 4
  {
  }

  /** A text is decoded exactly when, without its white space, it has groups of four, digits of the alphabet,
      and padding only in the second half of a group; otherwise the decoder throws. */
  lemma DecodeAccepts(s: string)
    ensures Decode(s).Bytes? <==> WellPadded(DropSpaces(s))
  {
    hide DecodeGroups;
    if |DropSpaces(s)| % 4 == 0 { GroupsAccepted(DropSpaces(s)); }
  }

  /** White space is anywhere, and means nothing. */
  lemma {:induction false} SpacesDropped(a: string, c: char, b: string)
    requires IsSpace(c)
    ensures DropSpaces(a + [c] + b) == DropSpaces(a + b) && Decode(a + [c] + b) == Decode(a + b)
    decreases |a|
  {
    hide DecodeGroups;
    if a == "" {
      assert a + b == b && (a + [c] + b)[1..] == b;
    } else {
      assert (a + [c] + b)[1..] == a[1..] + [c] + b && (a + b)[1..] == a[1..] + b;
      SpacesDropped(a[1..], c, b);
    }
  }
}
