/**
 Base64 (section 4 of RFC 4648): Base64::encode and Base64::decode of the messaging service
 (services/messaging_service/src/utils/Base64.cpp) and httplib's base64_encode
 (httplib.h:2789-2815).
 */
module Base64Spec {
  import opened Common

  type byte = bv8

  /** The alphabet, by 6-bit index. */
  function Alpha(v: bv8): char {
    if v < 26 then 'A' + v as int as char
    else if v < 52 then 'a' + (v - 26) as int as char
    else if v < 62 then '0' + (v - 52) as int as char
    else if v == 62 then '+'
    else '/'
  }

  /** b64_value. */
  function Value(c: char): bv8 {
    if 'A' <= c <= 'Z' then (c as int - 'A' as int) as bv8
    else if 'a' <= c <= 'z' then (c as int - 'a' as int + 26) as bv8
    else if '0' <= c <= '9' then (c as int - '0' as int + 52) as bv8
    else if c == '+' then 62
    else if c == '/' then 63
    else 255
  }

  predicate IsBase64Char(c: char) {
    '0' <= c <= '9' || 'A' <= c <= 'Z' || 'a' <= c <= 'z' || c == '+' || c == '/'
  }

  function Hi6(a: byte): byte { (a >> 2) & 0x3F }

  function Mid1(a: byte, b: byte): byte { ((a & 0x03) << 4) | ((b >> 4) & 0x0F) }

  function Mid2(b: byte, c: byte): byte { ((b & 0x0F) << 2) | ((c >> 6) & 0x03) }

  function Lo6(c: byte): byte { c & 0x3F }

  function Group3(a: byte, b: byte, c: byte): (g: string)
    ensures |g| == 4
  {
    [Alpha(Hi6(a)), Alpha(Mid1(a, b)), Alpha(Mid2(b, c)), Alpha(Lo6(c))]
  }

  /** The encoding, three bytes at a time. */
  function Encode(s: seq<byte>): string {
    if |s| >= 3 then Group3(s[0], s[1], s[2]) + Encode(s[3..])
    else if |s| == 2 then [Alpha(Hi6(s[0])), Alpha(Mid1(s[0], s[1])), Alpha((s[1] & 0x0F) << 2), '=']
    else if |s| == 1 then [Alpha(Hi6(s[0])), Alpha((s[0] & 0x03) << 4), '=', '=']
    else ""
  }

  datatype Decoded = Bytes(bytes: seq<byte>) | Invalid

  predicate GroupOk(c0: char, c1: char, c2: char, c3: char) {
    IsBase64Char(c0) && IsBase64Char(c1) && (c2 == '=' || IsBase64Char(c2)) && (c3 == '=' || IsBase64Char(c3))
  }

  function GroupBytes(c0: char, c1: char, c2: char, c3: char): seq<byte> {
    var (v0, v1) := (Value(c0), Value(c1));
    var v2 := if c2 == '=' then 0 else Value(c2);
    var v3 := if c3 == '=' then 0 else Value(c3);
    [(v0 << 2) | (v1 >> 4)]
    + (if c2 != '=' then [((v1 & 0x0F) << 4) | (v2 >> 2)] else [])
    + (if c3 != '=' then [((v2 & 0x03) << 6) | v3] else [])
  }

  function DecodeGroups(s: string): Decoded
    requires |s| % 4 == 0
  {
    if s == "" then Bytes([])
    else if !GroupOk(s[0], s[1], s[2], s[3]) then Invalid
    else
      match DecodeGroups(s[4..])
      case Invalid => Invalid
      case Bytes(rest) => Bytes(GroupBytes(s[0], s[1], s[2], s[3]) + rest)
  }

  function DropSpaces(s: string): string {
    if s == "" then "" else (if IsSpace(s[0]) then "" else [s[0]]) + DropSpaces(s[1..])
  }

  function Decode(s: string): Decoded {
    var t := DropSpaces(s);
    if |t| % 4 != 0 then Invalid else DecodeGroups(t)
  }
}

module Base64Properties {
  import opened Common
  import opened Base64Spec

  lemma AlphaLetter(v: bv8)
    requires v < 52
    ensures IsBase64Char(Alpha(v)) && Value(Alpha(v)) == v
  {
  }

  lemma AlphaRest(v: bv8)
    requires 52 <= v < 64
    ensures IsBase64Char(Alpha(v)) && Value(Alpha(v)) == v
  {
    if v >= 62 {
      assert v == 62 || v == 63;
    }
  }

  /** The alphabet is a bijection on 6-bit values, without '=' and white space. */
  lemma AlphaValue(v: bv8)
    requires v < 64
    ensures IsBase64Char(Alpha(v)) && Value(Alpha(v)) == v && Alpha(v) != '=' && !IsSpace(Alpha(v))
  {
    if v < 52 { AlphaLetter(v); } else { AlphaRest(v); }
  }

  lemma Sextets(a: byte, b: byte, c: byte)
    ensures Hi6(a) < 64 && Mid1(a, b) < 64 && Mid2(b, c) < 64 && Lo6(c) < 64
    ensures (a & 0x03) << 4 < 64 && (b & 0x0F) << 2 < 64
  {
  }

  lemma Reassemble(a: byte, b: byte, c: byte)
    ensures (Hi6(a) << 2) | (Mid1(a, b) >> 4) == a
    ensures ((Mid1(a, b) & 0x0F) << 4) | (Mid2(b, c) >> 2) == b
    ensures ((Mid2(b, c) & 0x03) << 6) | Lo6(c) == c
  {
  }

  lemma ReassembleTail(a: byte, b: byte)
    ensures (Hi6(a) << 2) | (((a & 0x03) << 4) >> 4) == a
    ensures ((Mid1(a, b) & 0x0F) << 4) | (((b & 0x0F) << 2) >> 2) == b
    ensures (Hi6(a) << 2) | (Mid1(a, b) >> 4) == a
  {
  }

  /** The bytes of a group from the values of its characters. */
  lemma FullBytes(c0: char, c1: char, c2: char, c3: char, v0: bv8, v1: bv8, v2: bv8, v3: bv8)
    requires Value(c0) == v0 && Value(c1) == v1 && Value(c2) == v2 && Value(c3) == v3 && c2 != '=' && c3 != '='
    ensures GroupBytes(c0, c1, c2, c3) == [(v0 << 2) | (v1 >> 4), ((v1 & 0x0F) << 4) | (v2 >> 2), ((v2 & 0x03) << 6) | v3]
  {
    hide Value;
  }

  lemma PaddedBytes(c0: char, c1: char, c2: char, v0: bv8, v1: bv8, v2: bv8)
    requires Value(c0) == v0 && Value(c1) == v1 && (c2 != '=' ==> Value(c2) == v2)
    ensures GroupBytes(c0, c1, c2, '=') ==
            if c2 == '=' then [(v0 << 2) | (v1 >> 4)]
            else [(v0 << 2) | (v1 >> 4), ((v1 & 0x0F) << 4) | (v2 >> 2)]
  {
    hide Value;
  }

  lemma DecodeGroup3(a: byte, b: byte, c: byte)
    ensures var g := Group3(a, b, c);
            GroupOk(g[0], g[1], g[2], g[3]) && GroupBytes(g[0], g[1], g[2], g[3]) == [a, b, c]
  {
    hide Alpha, GroupOk, GroupBytes, Hi6, Mid1, Mid2, Lo6;
    Sextets(a, b, c);
    GroupOfFour(Hi6(a), Mid1(a, b), Mid2(b, c), Lo6(c));
    Reassemble(a, b, c);
  }

  lemma GroupOfFour(v0: bv8, v1: bv8, v2: bv8, v3: bv8)
    requires v0 < 64 && v1 < 64 && v2 < 64 && v3 < 64
    ensures GroupOk(Alpha(v0), Alpha(v1), Alpha(v2), Alpha(v3))
    ensures GroupBytes(Alpha(v0), Alpha(v1), Alpha(v2), Alpha(v3)) ==
            [(v0 << 2) | (v1 >> 4), ((v1 & 0x0F) << 4) | (v2 >> 2), ((v2 & 0x03) << 6) | v3]
  {
    hide Alpha, Value, IsBase64Char, GroupBytes;
    AlphaValue(v0);
    AlphaValue(v1);
    AlphaValue(v2);
    AlphaValue(v3);
    FullBytes(Alpha(v0), Alpha(v1), Alpha(v2), Alpha(v3), v0, v1, v2, v3);
  }

  /** A group with its 6-bit values, padding read as absent. */
  lemma GroupOfValues(v0: bv8, v1: bv8, v2: bv8)
    requires v0 < 64 && v1 < 64 && v2 < 64
    ensures GroupOk(Alpha(v0), Alpha(v1), Alpha(v2), '=')
    ensures GroupBytes(Alpha(v0), Alpha(v1), Alpha(v2), '=') == [(v0 << 2) | (v1 >> 4), ((v1 & 0x0F) << 4) | (v2 >> 2)]
    ensures GroupOk(Alpha(v0), Alpha(v1), '=', '=')
    ensures GroupBytes(Alpha(v0), Alpha(v1), '=', '=') == [(v0 << 2) | (v1 >> 4)]
  {
    hide Alpha, Value, IsBase64Char, GroupBytes;
    AlphaValue(v0);
    AlphaValue(v1);
    AlphaValue(v2);
    PaddedBytes(Alpha(v0), Alpha(v1), Alpha(v2), v0, v1, v2);
    PaddedBytes(Alpha(v0), Alpha(v1), '=', v0, v1, 0);
  }

  lemma DecodeTail2(a: byte, b: byte)
    ensures var g := [Alpha(Hi6(a)), Alpha(Mid1(a, b)), Alpha((b & 0x0F) << 2), '='];
            GroupOk(g[0], g[1], g[2], g[3]) && GroupBytes(g[0], g[1], g[2], g[3]) == [a, b]
  {
    hide Alpha, GroupOk, GroupBytes;
    Sextets(a, b, 0);
    GroupOfValues(Hi6(a), Mid1(a, b), (b & 0x0F) << 2);
    ReassembleTail(a, b);
  }

  lemma DecodeTail1(a: byte)
    ensures var g := [Alpha(Hi6(a)), Alpha((a & 0x03) << 4), '=', '='];
            GroupOk(g[0], g[1], g[2], g[3]) && GroupBytes(g[0], g[1], g[2], g[3]) == [a]
  {
    hide Alpha, GroupOk, GroupBytes;
    Sextets(a, 0, 0);
    GroupOfValues(Hi6(a), (a & 0x03) << 4, 0);
    ReassembleTail(a, 0);
  }

  lemma GroupThen(g: string, bytes: seq<byte>, rest: string, tail: seq<byte>)
    requires |g| == 4 && |rest| % 4 == 0 && |g + rest| % 4 == 0
    requires GroupIs(g[0], g[1], g[2], g[3], bytes) && DecodeGroups(rest) == Bytes(tail)
    ensures DecodeGroups(g + rest) == Bytes(bytes + tail)
  {
    hide Alpha, GroupOk, GroupBytes;
    assert (g + rest)[4..] == rest;
  }

  predicate GroupIs(c0: char, c1: char, c2: char, c3: char, bytes: seq<byte>) {
    GroupOk(c0, c1, c2, c3) && GroupBytes(c0, c1, c2, c3) == bytes
  }

  lemma EncodeFirst(s: seq<byte>)
    requires |s| >= 3
    ensures Encode(s) == Group3(s[0], s[1], s[2]) + Encode(s[3..])
  {
    hide Group3;
  }

  lemma EncodeTail(a: byte, b: byte)
    ensures Encode([a]) == [Alpha(Hi6(a)), Alpha((a & 0x03) << 4), '=', '=']
    ensures Encode([a, b]) == [Alpha(Hi6(a)), Alpha(Mid1(a, b)), Alpha((b & 0x0F) << 2), '=']
  {
    hide Alpha, Hi6, Mid1, Mid2, Lo6;
  }

  lemma TailDecodes(s: seq<byte>)
    requires 0 < |s| < 3
    ensures |Encode(s)| == 4 && DecodeGroups(Encode(s)) == Bytes(s)
  {
    hide Alpha, GroupOk, GroupBytes, Hi6, Mid1, Mid2, Lo6, DecodeGroups;
    NothingDecodes();
    assert Encode(s) + "" == Encode(s) && s + [] == s;
    if |s| == 2 {
      DecodeTail2(s[0], s[1]);
      assert s == [s[0], s[1]];
    } else {
      DecodeTail1(s[0]);
      assert s == [s[0]];
    }
    GroupThen(Encode(s), s, "", []);
  }

  lemma NothingDecodes()
    ensures Encode([]) == "" && DecodeGroups("") == Bytes([])
  {
  }

  lemma EncodedLength(n: nat)
    requires n >= 3
    ensures 4 + (n - 3 + 2) / 3 * 4 == (n + 2) / 3 * 4
  {
  }

  lemma FourMore(n: nat)
    ensures (n + 2) / 3 * 4 % 4 == 0
  {
  }

  lemma {:induction false} DecodeGroupsEncode(s: seq<byte>)
    ensures |Encode(s)| == (|s| + 2) / 3 * 4
    ensures |Encode(s)| % 4 == 0 && DecodeGroups(Encode(s)) == Bytes(s)
    decreases |s|
  {
    hide Alpha, GroupOk, GroupBytes, Hi6, Mid1, Mid2, Lo6, Encode, DecodeGroups;
    FourMore(|s|);
    if |s| >= 3 {
      var (a, b, c) := (s[0], s[1], s[2]);
      DecodeGroup3(a, b, c);
      DecodeGroupsEncode(s[3..]);
      EncodeFirst(s);
      EncodedLength(|s|);
      GroupThen(Group3(a, b, c), [a, b, c], Encode(s[3..]), s[3..]);
      assert s == [a, b, c] + s[3..];
    } else if |s| > 0 {
      TailDecodes(s);
    } else {
      NothingDecodes();
    }
  }

  predicate NoSpaces(s: string) {
    forall i :: 0 <= i < |s| ==> !IsSpace(s[i])
  }

  lemma {:induction false} DropNothing(s: string)
    requires NoSpaces(s)
    ensures DropSpaces(s) == s
  {
    if s != "" {
      DropNothing(s[1..]);
    }
  }

  lemma GroupNoSpaces(a: byte, b: byte, c: byte)
    ensures NoSpaces([Alpha(Hi6(a)), Alpha(Mid1(a, b))])
    ensures NoSpaces([Alpha(Mid2(b, c)), Alpha(Lo6(c))])
    ensures NoSpaces([Alpha((a & 0x03) << 4), Alpha((b & 0x0F) << 2)])
  {
    hide Alpha, IsSpace, Value, IsBase64Char;
    Sextets(a, b, c);
    AlphaValue(Hi6(a));
    AlphaValue(Mid1(a, b));
    AlphaValue(Mid2(b, c));
    AlphaValue(Lo6(c));
    AlphaValue((a & 0x03) << 4);
    AlphaValue((b & 0x0F) << 2);
  }

  lemma NoSpacesPlus(s: string, t: string)
    requires NoSpaces(s) && NoSpaces(t)
    ensures NoSpaces(s + t)
  {
  }

  lemma {:induction false} EncodeNoSpaces(s: seq<byte>)
    ensures NoSpaces(Encode(s))
    decreases |s|
  {
    hide Alpha, Hi6, Mid1, Mid2, Lo6, IsSpace;
    if |s| >= 3 {
      GroupNoSpaces(s[0], s[1], s[2]);
      var (x, y) := ([Alpha(Hi6(s[0])), Alpha(Mid1(s[0], s[1]))], [Alpha(Mid2(s[1], s[2])), Alpha(Lo6(s[2]))]);
      NoSpacesPlus(x, y);
      assert Group3(s[0], s[1], s[2]) == x + y;
      EncodeNoSpaces(s[3..]);
      NoSpacesPlus(x + y, Encode(s[3..]));
    } else if |s| > 0 {
      TailNoSpaces(s);
    }
  }

  lemma TailNoSpaces(s: seq<byte>)
    requires 0 < |s| < 3
    ensures NoSpaces(Encode(s))
  {
    hide Alpha, Hi6, Mid1, Mid2, Lo6;
    if |s| == 2 {
      GroupNoSpaces(s[0], s[1], 0);
      var (x, y) := ([Alpha(Hi6(s[0])), Alpha(Mid1(s[0], s[1]))], [Alpha((s[0] & 0x03) << 4), Alpha((s[1] & 0x0F) << 2)]);
      assert !IsSpace(x[0]) && !IsSpace(x[1]) && !IsSpace(y[1]);
    } else {
      GroupNoSpaces(s[0], 0, 0);
      var (x, y) := ([Alpha(Hi6(s[0])), Alpha(Mid1(s[0], 0))], [Alpha((s[0] & 0x03) << 4), Alpha((0 & 0x0F) << 2)]);
      assert !IsSpace(x[0]) && !IsSpace(y[0]);
    }
  }

  /** Every byte string survives, and takes four characters for each started group of three. */
  lemma RoundTrip(s: seq<byte>)
    ensures Decode(Encode(s)) == Bytes(s) && |Encode(s)| == (|s| + 2) / 3 * 4
  {
    hide Encode, DecodeGroups, DropSpaces, NoSpaces;
    DecodeGroupsEncode(s);
    EncodeNoSpaces(s);
    DropNothing(Encode(s));
  }

  lemma EncodeInjective(s: seq<byte>, t: seq<byte>)
    requires Encode(s) == Encode(t)
    ensures s == t
  {
    RoundTrip(s);
    RoundTrip(t);
  }

  /** The decoder is not the inverse on every accepted string: it ignores the bits that padding cuts off,
      and takes '=' in third place in front of a character. */
  lemma DecodeIsLenient()
    ensures Decode("AB==") == Decode("AA==") == Bytes([0])
    ensures Decode("AA=A") == Bytes([0, 0])
  {
    LenientGroup("AB==", Bytes([0]));
    LenientGroup("AA==", Bytes([0]));
    LenientGroup("AA=A", Bytes([0, 0]));
  }

  lemma LenientGroup(s: string, d: Decoded)
    requires |s| == 4 && NoSpaces(s) && d.Bytes? && GroupIs(s[0], s[1], s[2], s[3], d.bytes)
    ensures Decode(s) == d
  {
    hide Alpha, GroupOk, GroupBytes;
    DropNothing(s);
    GroupThen(s, d.bytes, "", []);
    assert s + "" == s && d.bytes + [] == d.bytes;
  }
}

module Base64Code {
  import opened Common
  import opened Base64Spec
  import opened Base64Properties

  lemma EncodeStep(bytes: seq<byte>, i: nat)
    requires i + 3 <= |bytes|
    ensures Encode(bytes[i..]) == Group3(bytes[i], bytes[i + 1], bytes[i + 2]) + Encode(bytes[i + 3..])
  {
    hide Group3;
    assert bytes[i..][3..] == bytes[i + 3..];
  }

  method PushGroup(out0: string, b0: byte, b1: byte, b2: byte) returns (out: string)
    ensures out == out0 + Group3(b0, b1, b2)
  {
    hide Alpha, Hi6, Mid1, Mid2, Lo6;
    out := out0 + [Alpha(Hi6(b0))];
    out := out + [Alpha(Mid1(b0, b1))];
    out := out + [Alpha(Mid2(b1, b2))];
    out := out + [Alpha(Lo6(b2))];
  }

  /** Base64::encode. */
  method EncodeGroups(bytes: seq<byte>) returns (out: string)
    ensures out == Encode(bytes)
  {
    hide Alpha, Hi6, Mid1, Mid2, Lo6, Group3, Encode;
    out := "";
    assert bytes[0..] == bytes;
    var i := 0;
    while i + 3 <= |bytes|
      invariant 0 <= i <= |bytes|
      invariant out + Encode(bytes[i..]) == Encode(bytes)
    {
      EncodeStep(bytes, i);
      out := PushGroup(out, bytes[i], bytes[i + 1], bytes[i + 2]);
      i := i + 3;
    }
    EncodeEnd(bytes, i);
    var rem := |bytes| - i;
    if rem == 1 {
      var b0 := bytes[i];
      out := out + [Alpha(Hi6(b0)), Alpha((b0 & 0x03) << 4), '=', '='];
    } else if rem == 2 {
      var (b0, b1) := (bytes[i], bytes[i + 1]);
      out := out + [Alpha(Hi6(b0)), Alpha(Mid1(b0, b1)), Alpha((b1 & 0x0F) << 2), '='];
    }
  }

  lemma EncodeEnd(bytes: seq<byte>, i: nat)
    requires i <= |bytes| < i + 3
    ensures Encode(bytes[i..]) ==
            if i == |bytes| then ""
            else if i + 1 == |bytes| then [Alpha(Hi6(bytes[i])), Alpha((bytes[i] & 0x03) << 4), '=', '=']
            else [Alpha(Hi6(bytes[i])), Alpha(Mid1(bytes[i], bytes[i + 1])), Alpha((bytes[i + 1] & 0x0F) << 2), '=']
  {
    hide Alpha, Hi6, Mid1;
  }

  /** The first loop of decode. */
  method WithoutSpaces(b64: string) returns (s: string)
    ensures s == DropSpaces(b64)
  {
    hide IsSpace;
    s := "";
    var k := 0;
    while k < |b64|
      invariant 0 <= k <= |b64| && s + DropSpaces(b64[k..]) == DropSpaces(b64)
    {
      assert b64[k..][1..] == b64[k + 1..];
      if !IsSpace(b64[k]) {
        s := s + [b64[k]];
      }
      k := k + 1;
    }
  }

  /** Base64::decode; Invalid is its runtime_error. */
  method DecodeString(b64: string) returns (r: Decoded)
    ensures r == Decode(b64)
  {
    var s := WithoutSpaces(b64);
    if s == "" {
      return Bytes([]);
    }
    if |s| % 4 != 0 {
      return Invalid;
    }
    r := DecodeQuads(s);
  }

  lemma QuadStep(s: string, i: nat)
    requires |s| % 4 == 0 && i % 4 == 0 && i < |s|
    ensures DecodeGroups(s[i..]) ==
            if !GroupOk(s[i], s[i + 1], s[i + 2], s[i + 3]) then Invalid
            else Before(GroupBytes(s[i], s[i + 1], s[i + 2], s[i + 3]), DecodeGroups(s[i + 4..]))
  {
    hide GroupOk, GroupBytes;
    assert s[i..][4..] == s[i + 4..];
  }

  /** The loop over groups of four. */
  method DecodeQuads(s: string) returns (r: Decoded)
    requires |s| % 4 == 0
    ensures r == DecodeGroups(s)
  {
    hide GroupOk, GroupBytes, DecodeGroups;
    var out: seq<byte> := [];
    var i := 0;
    assert s[0..] == s;
    BeforeNothing(DecodeGroups(s));
    while i < |s|
      invariant 0 <= i <= |s| && i % 4 == 0
      invariant DecodeGroups(s) == Before(out, DecodeGroups(s[i..]))
    {
      QuadStep(s, i);
      var (c0, c1, c2, c3) := (s[i], s[i + 1], s[i + 2], s[i + 3]);
      if !GroupOk(c0, c1, c2, c3) {
        return Invalid;
      }
      var piece := Quad(c0, c1, c2, c3);
      BeforeTwice(out, piece, DecodeGroups(s[i + 4..]));
      out := out + piece;
      i := i + 4;
    }
    GroupsOfNothing(s[i..]);
    return Bytes(out);
  }

  lemma GroupsOfNothing(s: string)
    requires s == ""
    ensures DecodeGroups(s) == Bytes([])
  {
  }

  lemma BeforeNothing(d: Decoded)
    ensures Before([], d) == d
  {
    if d.Bytes? {
      assert [] + d.bytes == d.bytes;
    }
  }

  function Before(out: seq<byte>, d: Decoded): Decoded {
    match d
    case Invalid => Invalid
    case Bytes(rest) => Bytes(out + rest)
  }

  lemma BeforeTwice(a: seq<byte>, b: seq<byte>, d: Decoded)
    ensures Before(a, Before(b, d)) == Before(a + b, d)
  {
    if d.Bytes? {
      assert a + (b + d.bytes) == a + b + d.bytes;
    }
  }

  /** One group: up to three bytes, one `push_back` each. */
  method Quad(c0: char, c1: char, c2: char, c3: char) returns (out: seq<byte>)
    ensures out == GroupBytes(c0, c1, c2, c3)
  {
    var (v0, v1) := (Value(c0), Value(c1));
    var v2 := if c2 == '=' then 0 else Value(c2);
    var v3 := if c3 == '=' then 0 else Value(c3);
    out := [(v0 << 2) | (v1 >> 4)];
    if c2 != '=' {
      out := out + [((v1 & 0x0F) << 4) | (v2 >> 2)];
    }
    if c3 != '=' {
      out := out + [((v2 & 0x03) << 6) | v3];
    }
  }

  // ---- httplib's encoder ----

  /** What the inner loop emits for `val` when `valb` bits lie below the first sextet. */
  function Emit(val: bv32, valb: int): string
    requires valb < 8
    decreases valb + 6
  {
    if valb < 0 then "" else [Alpha(((val >> valb) & 0x3F) as bv8)] + Emit(val, valb - 6)
  }

  lemma ShiftIn(v: bv32, w: bv32, a: byte, b: byte, c: byte)
    requires w == (v << 8) + (c as bv32)
    ensures ((w >> 2) & 0x3F) as bv8 == Hi6(c)
    ensures v & 0x03 == (b & 0x03) as bv32 ==> ((w >> 4) & 0x3F) as bv8 == Mid1(b, c)
    ensures v & 0x0F == (b & 0x0F) as bv32 ==> ((w >> 6) & 0x3F) as bv8 == Mid2(b, c)
    ensures (w & 0x3F) as bv8 == Lo6(c)
    ensures w & 0x03 == (c & 0x03) as bv32 && w & 0x0F == (c & 0x0F) as bv32
  {
  }

  /** The inner loop: push sextets while there are six bits left. */
  method EmitSextets(val: bv32, valb0: int, out0: string) returns (out: string, valb: int)
    requires -6 <= valb0 < 8
    ensures out == out0 + Emit(val, valb0)
    ensures -6 <= valb < 0 && valb == (if valb0 < 0 then valb0 else if valb0 < 6 then valb0 - 6 else valb0 - 12)
  {
    hide Emit, Alpha;
    out, valb := out0, valb0;
    while valb >= 0
      invariant -6 <= valb < 8 && out + Emit(val, valb) == out0 + Emit(val, valb0)
      invariant valb == valb0 || valb == valb0 - 6 || (valb == valb0 - 12 && valb0 >= 6)
    {
      EmitNext(out, val, valb);
      out := out + [Alpha(((val >> valb) & 0x3F) as bv8)];
      valb := valb - 6;
    }
    EmitNone(out, val, valb);
  }

  lemma EmitNext(out: string, val: bv32, valb: int)
    requires 0 <= valb < 8
    ensures out + Emit(val, valb) == out + [Alpha(((val >> valb) & 0x3F) as bv8)] + Emit(val, valb - 6)
  {
    hide Alpha;
  }

  lemma EmitNone(out: string, val: bv32, valb: int)
    requires valb < 0
    ensures out + Emit(val, valb) == out
  {
  }

  /** The sextets of the bytes since the last whole group. */
  function Partial(s: seq<byte>): string
    requires |s| < 3
  {
    if |s| == 0 then "" else if |s| == 1 then [Alpha(Hi6(s[0]))] else [Alpha(Hi6(s[0])), Alpha(Mid1(s[0], s[1]))]
  }

  /** The bits of the last byte that are still below `valb`. */
  predicate Carries(val: bv32, valb: int, s: seq<byte>)
    requires |s| < 3
  {
    match |s|
    case 0 => valb == -6
    case 1 => valb == -4 && val & 0x03 == (s[0] & 0x03) as bv32
    case _ => valb == -2 && val & 0x0F == (s[1] & 0x0F) as bv32
  }

  lemma EmitAt(w: bv32)
    ensures Emit(w, 2) == [Alpha(((w >> 2) & 0x3F) as bv8)]
    ensures Emit(w, 4) == [Alpha(((w >> 4) & 0x3F) as bv8)]
    ensures Emit(w, 6) == [Alpha(((w >> 6) & 0x3F) as bv8), Alpha((w & 0x3F) as bv8)]
  {
    hide Alpha;
    assert Emit(w, -4) == "" && Emit(w, -2) == "" && Emit(w, -6) == "";
    assert w >> 0 == w;
    assert Emit(w, 0) == [Alpha((w & 0x3F) as bv8)] + Emit(w, -6);
  }

  /** One more byte: the pending bits and the new ones give the next sextets of the group. */
  lemma NextByte(v: bv32, valb: int, s: seq<byte>, c: byte)
    requires |s| < 3 && Carries(v, valb, s)
    ensures var w := (v << 8) + (c as bv32);
            if |s| < 2 then Partial(s) + Emit(w, valb + 8) == Partial(s + [c]) && Carries(w, valb + 2, s + [c])
            else Partial(s) + Emit(w, valb + 8) == Group3(s[0], s[1], c)
  {
    hide Alpha, Hi6, Mid1, Mid2, Lo6, Emit;
    var w := (v << 8) + (c as bv32);
    ShiftIn(v, w, 0, if |s| == 0 then 0 else s[|s| - 1], c);
    EmitAt(w);
  }

  lemma LastBits(v: bv32, b: byte)
    ensures v & 0x03 == (b & 0x03) as bv32 ==> (((v << 8) >> 4) & 0x3F) as bv8 == (b & 0x03) << 4
    ensures v & 0x0F == (b & 0x0F) as bv32 ==> (((v << 8) >> 6) & 0x3F) as bv8 == (b & 0x0F) << 2
  {
  }

  /** The bytes of the group that is not full yet. */
  function Tail(s: seq<byte>): (t: seq<byte>)
    ensures |t| == |s| % 3
  {
    s[|s| - |s| % 3..]
  }

  /** What the accumulator has emitted after `s`. */
  function Emitted(s: seq<byte>): string {
    Encode(s[..|s| - |Tail(s)|]) + Partial(Tail(s))
  }

  lemma SplitShift(s: seq<byte>, k: nat)
    requires 3 <= k <= |s|
    ensures s[..k][3..] == s[3..][..k - 3] && s[3..][k - 3..] == s[k..]
  {
  }

  lemma Assoc(a: string, b: string, c: string)
    ensures a + (b + c) == (a + b) + c
  {
  }

  lemma {:induction false} EncodeSplit(s: seq<byte>, k: nat)
    requires k <= |s| && k % 3 == 0
    ensures Encode(s) == Encode(s[..k]) + Encode(s[k..])
    decreases k
  {
    hide Encode, Group3;
    if k == 0 {
      assert s[..0] == [] && s[0..] == s;
      EncodeNone();
    } else {
      EncodeSplit(s[3..], k - 3);
      SplitShift(s, k);
      EncodeFirst(s);
      EncodeFirst(s[..k]);
      Assoc(Group3(s[0], s[1], s[2]), Encode(s[..k][3..]), Encode(s[k..]));
    }
  }

  lemma EncodeNone()
    ensures Encode([]) == ""
  {
  }

  /** The accumulator after `s`. */
  predicate Accumulated(s: seq<byte>, out: string, val: bv32, valb: int) {
    out == Emitted(s) && Carries(val, valb, Tail(s))
  }

  lemma AccumulatedBits(s: seq<byte>, out: string, val: bv32, valb: int)
    requires Accumulated(s, out, val, valb)
    ensures valb == ValbBetween(Tail(s)) && -6 <= valb < 0
  {
    CarriedBits(val, valb, Tail(s));
  }

  lemma EmittedNext(s: seq<byte>, c: byte, v: bv32, valb: int, w: bv32)
    requires Carries(v, valb, Tail(s)) && w == (v << 8) + (c as bv32)
    ensures Emitted(s) + Emit(w, valb + 8) == Emitted(s + [c])
    ensures Carries(w, ValbBetween(Tail(s + [c])), Tail(s + [c]))
  {
    hide Alpha, Hi6, Mid1, Mid2, Lo6, Emit, Encode, Partial, Carries, Group3;
    var t := Tail(s);
    NextByte(v, valb, t, c);
    CarriedBits(v, valb, t);
    TailNext(s, c);
    var full := s[..|s| - |t|];
    assert Emitted(s) + Emit(w, valb + 8) == Encode(full) + (Partial(t) + Emit(w, valb + 8));
    if |t| == 2 {
      NoBytes(w, s);
      GroupFull(full, t[0], t[1], c);
    }
  }

  lemma AccumulatedNext(s: seq<byte>, c: byte, out: string, v: bv32, valb: int, out1: string, w: bv32, valb1: int)
    requires Accumulated(s, out, v, valb) && w == (v << 8) + (c as bv32)
    requires out1 == out + Emit(w, valb + 8) && valb1 == if valb + 8 < 6 then valb + 2 else valb - 4
    ensures Accumulated(s + [c], out1, w, valb1)
  {
    hide Emitted, Carries, Emit, Tail;
    AccumulatedBits(s, out, v, valb);
    EmittedNext(s, c, v, valb, w);
    assert |Tail(s + [c])| == if |Tail(s)| == 2 then 0 else |Tail(s)| + 1;
  }

  lemma TailNext(s: seq<byte>, c: byte)
    ensures var (t, n) := (Tail(s), s + [c]);
            if |t| < 2 then Tail(n) == t + [c] && n[..|n| - |Tail(n)|] == s[..|s| - |t|]
            else Tail(n) == [] && n[..|n|] == s[..|s| - 2] + [t[0], t[1], c]
  {
    NextThird(|s|);
  }

  lemma NextThird(n: nat)
    ensures (n + 1) % 3 == if n % 3 == 2 then 0 else n % 3 + 1
  {
  }

  lemma GroupFull(full: seq<byte>, a: byte, b: byte, c: byte)
    requires |full| % 3 == 0
    ensures Encode(full + [a, b, c]) == Encode(full) + Group3(a, b, c)
  {
    hide Encode, Group3;
    var s := full + [a, b, c];
    EncodeSplit(s, |full|);
    assert s[..|full|] == full && s[|full|..] == [a, b, c];
    OneGroup(a, b, c);
  }

  lemma OneGroup(a: byte, b: byte, c: byte)
    ensures Encode([a, b, c]) == Group3(a, b, c)
  {
    hide Alpha, Hi6, Mid1, Mid2, Lo6, Group3;
    assert [a, b, c][3..] == [] && Encode([]) == "";
  }

  lemma AccumulatedAll(s: seq<byte>, out: string, val: bv32, valb: int) returns (groups: string)
    requires Accumulated(s, out, val, valb)
    ensures |groups| % 4 == 0 && out == groups + Partial(Tail(s)) && Carries(val, valb, Tail(s))
    ensures Encode(s) == groups + Encode(Tail(s))
  {
    hide Encode, DecodeGroups, Partial, Carries;
    var k := |s| - |Tail(s)|;
    FullGroups(|s|);
    groups := Encode(s[..k]);
    EncodeSplit(s, k);
    DecodeGroupsEncode(s[..k]);
  }

  lemma FullGroups(n: nat)
    ensures n % 3 <= n && (n - n % 3) % 3 == 0
  {
  }

  lemma NoTail(s: seq<byte>)
    requires |s| == 0
    ensures Tail(s) == s
  {
  }

  lemma EmittedOf(s: seq<byte>, k: nat, t: seq<byte>)
    requires Tail(s) == t && k == |s| - |t|
    ensures Emitted(s) == Encode(s[..k]) + Partial(t)
  {
    hide Encode, Partial, Tail;
  }

  lemma NothingAccumulated(s: seq<byte>, v: bv32)
    requires s == []
    ensures Accumulated(s, "", v, -6)
  {
    hide Encode, Partial, Carries, Tail, Emitted;
    NoTail(s);
    EmittedOf(s, 0, s);
    NoBytes(v, s);
    EncodeNone();
    assert s[..0] == s;
  }

  lemma TakeNext(bytes: seq<byte>, i: nat)
    requires i < |bytes|
    ensures bytes[..i] + [bytes[i]] == bytes[..i + 1]
  {
  }

  /** base64_encode: a bit accumulator that wraps at 32 bits. The shifts here are logical; the bits they
      are masked to never include the sign. */
  method AccumulatorEncode(bytes: seq<byte>) returns (out: string)
    ensures out == Encode(bytes)
  {
    hide Encode, Emit, Partial, Carries, Accumulated, Tail;
    out := "";
    var val: bv32 := 0;
    var valb := -6;
    var i := 0;
    NothingAccumulated(bytes[..i], val);
    while i < |bytes|
      invariant 0 <= i <= |bytes| && Accumulated(bytes[..i], out, val, valb)
    {
      ghost var (out0, val0, valb0) := (out, val, valb);
      AccumulatedBits(bytes[..i], out, val, valb);
      val := (val << 8) + (bytes[i] as bv32);
      valb := valb + 8;
      out, valb := EmitSextets(val, valb, out);
      AccumulatedNext(bytes[..i], bytes[i], out0, val0, valb0, out, val, valb);
      TakeNext(bytes, i);
      i := i + 1;
    }
    assert bytes[..i] == bytes;
    ghost var groups := AccumulatedAll(bytes, out, val, valb);
    out := Finish(out, val, valb, groups, Tail(bytes));
  }

  /** `valb` between two bytes. */
  function ValbBetween(s: seq<byte>): int
    requires |s| < 3
  {
    2 * |s| - 6
  }

  lemma CarriedBits(v: bv32, valb: int, s: seq<byte>)
    requires |s| < 3 && Carries(v, valb, s)
    ensures valb == ValbBetween(s)
  {
  }

  lemma NoBytes(v: bv32, bytes: seq<byte>)
    ensures Partial([]) == "" && Carries(v, -6, []) && bytes[0..] == bytes
  {
  }

  /** The rest of the last byte, then padding. */
  method Finish(out0: string, val: bv32, valb: int, ghost groups: string, ghost s: seq<byte>) returns (out: string)
    requires |groups| % 4 == 0 && |s| < 3 && out0 == groups + Partial(s) && Carries(val, valb, s)
    ensures out == groups + Encode(s)
  {
    hide Alpha, Hi6, Mid1, Mid2, Lo6, Encode;
    out := out0;
    if valb > -6 {
      LastBits(val, s[|s| - 1]);
      out := out + [Alpha((((val << 8) >> (valb + 8)) & 0x3F) as bv8)];
    }
    out := Pad(out, groups, s);
  }

  /** Pending sextets, the last bits and the padding, put together. */
  lemma Padded(x: char, y: char, z: char)
    ensures [x] + [y] + "==" == [x, y, '=', '=']
    ensures [x, y] + [z] + "=" == [x, y, z, '=']
  {
  }

  lemma TailEncode1(a: byte)
    ensures Encode([a]) == Partial([a]) + [Alpha((a & 0x03) << 4)] + "=="
  {
    hide Alpha, Hi6, Encode;
    EncodeTail(a, 0);
    Padded(Alpha(Hi6(a)), Alpha((a & 0x03) << 4), '=');
  }

  lemma TailEncode2(a: byte, b: byte)
    ensures Encode([a, b]) == Partial([a, b]) + [Alpha((b & 0x0F) << 2)] + "="
  {
    hide Alpha, Hi6, Mid1, Encode;
    EncodeTail(a, b);
    Padded(Alpha(Hi6(a)), Alpha(Mid1(a, b)), Alpha((b & 0x0F) << 2));
  }

  lemma TailEncode(s: seq<byte>)
    requires |s| < 3
    ensures Encode(s) == match |s|
                         case 0 => ""
                         case 1 => Partial(s) + [Alpha((s[0] & 0x03) << 4)] + "=="
                         case _ => Partial(s) + [Alpha((s[1] & 0x0F) << 2)] + "="
  {
    hide Alpha, Encode, Partial;
    if |s| == 0 {
      EncodeNone();
      assert s == [];
    } else if |s| == 1 {
      assert s == [s[0]];
      TailEncode1(s[0]);
    } else {
      assert s == [s[0], s[1]];
      TailEncode2(s[0], s[1]);
    }
  }

  /** `while (out.size() % 4) out.push_back('=')`. */
  method Pad(out0: string, ghost groups: string, ghost s: seq<byte>) returns (out: string)
    requires |groups| % 4 == 0 && |s| < 3
    requires out0 == groups + Partial(s) + match |s|
                                           case 0 => ""
                                           case 1 => [Alpha((s[0] & 0x03) << 4)]
                                           case _ => [Alpha((s[1] & 0x0F) << 2)]
    ensures out == groups + Encode(s)
  {
    hide Alpha, Hi6, Mid1, Mid2, Lo6, Encode;
    TailEncode(s);
    out := out0;
    ghost var n := 0;
    while |out| % 4 != 0
      invariant out == out0 + seq(n, _ => '=') && |out| <= (|out0| + 3) / 4 * 4
      decreases (|out0| + 3) / 4 * 4 - |out|
    {
      out := out + ['='];
      n := n + 1;
    }
  }
}
