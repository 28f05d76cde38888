/**
 Byte strings and the small scanners of httplib.h that the codecs share.
 A C++ `std::string` is a Dafny `string`: one `char` per byte.
 */
module Text {

  const CRLF: string := "\r\n"
  const DASH: string := "--"

  /** `t` is found in `s` at index `i`. */
  predicate OccursAt(s: string, t: string, i: nat) {
    i + |t| <= |s| && s[i..i + |t|] == t
  }

  ghost predicate Contains(s: string, t: string) {
    exists i: nat :: OccursAt(s, t, i)
  }

  /** The first occurrence of `t` in `s` at or after `i`, or `|s|`. */
  function FindFrom(s: string, t: string, i: nat): (pos: nat)
    requires t != "" && i <= |s|
    ensures i <= pos <= |s| - |t| || pos == |s|
    decreases |s| - i
  {
    if i + |t| > |s| then |s|
    else if s[i..i + |t|] == t then i
    else FindFrom(s, t, i + 1)
  }

  /** `buf_find`: the first occurrence, or the size. */
  function Find(s: string, t: string): (pos: nat)
    requires t != ""
    ensures pos <= |s| - |t| || pos == |s|
  {
    FindFrom(s, t, 0)
  }

  lemma {:induction false} FindFromFirst(s: string, t: string, i: nat)
    requires t != "" && i <= |s|
    ensures FindFrom(s, t, i) < |s| ==> OccursAt(s, t, FindFrom(s, t, i))
    ensures forall j: nat :: i <= j < FindFrom(s, t, i) ==> !OccursAt(s, t, j)
    decreases |s| - i
  {
    if i + |t| <= |s| && s[i..i + |t|] != t {
      FindFromFirst(s, t, i + 1);
      assert !OccursAt(s, t, i);
    }
  }

  /** Find returns the first occurrence, and the size only when there is none. */
  lemma FindFirst(s: string, t: string)
    requires t != ""
    ensures Find(s, t) < |s| ==> OccursAt(s, t, Find(s, t))
    ensures forall j: nat :: j < Find(s, t) ==> !OccursAt(s, t, j)
    ensures Find(s, t) == |s| ==> forall j: nat :: !OccursAt(s, t, j)
  {
    FindFromFirst(s, t, 0);
  }

  lemma FindNone(s: string, t: string)
    requires t != "" && forall j: nat :: !OccursAt(s, t, j)
    ensures Find(s, t) == |s|
  {
    FindFirst(s, t);
  }

  /** Nothing else is the first occurrence. */
  lemma FindIs(s: string, t: string, pos: nat)
    requires t != "" && OccursAt(s, t, pos)
    requires forall j: nat :: j < pos ==> !OccursAt(s, t, j)
    ensures Find(s, t) == pos
  {
    FindFirst(s, t);
  }

  lemma Mismatch(s: string, t: string, i: nat, k: nat)
    requires k < |t| && (i + k < |s| ==> s[i + k] != t[k])
    ensures !OccursAt(s, t, i)
  {
    if i + |t| <= |s| {
      assert s[i..i + |t|][k] == s[i + k];
    }
  }

  /** Appending bytes neither moves nor hides an occurrence that is already complete. */
  lemma OccursInPrefix(s: string, u: string, t: string, i: nat)
    requires i + |t| <= |s|
    ensures OccursAt(s + u, t, i) <==> OccursAt(s, t, i)
  {
    assert (s + u)[i..i + |t|] == s[i..i + |t|];
  }

  lemma FindStable(s: string, u: string, t: string)
    requires t != "" && Find(s, t) < |s|
    ensures Find(s + u, t) == Find(s, t) <= |s| - |t|
  {
    var pos := Find(s, t);
    FindFirst(s, t);
    OccursInPrefix(s, u, t, pos);
    forall j: nat | j < pos
      ensures !OccursAt(s + u, t, j)
    {
      OccursInPrefix(s, u, t, j);
    }
    FindIs(s + u, t, pos);
  }

  function IndexOf(s: string, d: char): (i: nat)
    ensures i <= |s| && (i < |s| ==> s[i] == d)
    ensures forall j :: 0 <= j < i ==> s[j] != d
  {
    if s == "" || s[0] == d then 0 else 1 + IndexOf(s[1..], d)
  }

  lemma IndexOfIs(s: string, d: char, i: nat)
    requires i <= |s| && (i < |s| ==> s[i] == d)
    requires forall j :: 0 <= j < i ==> s[j] != d
    ensures IndexOf(s, d) == i
  {
  }

  predicate IsBlank(c: char) {
    c == ' ' || c == '\t'
  }

  function Lower(c: char): char {
    if 'A' <= c <= 'Z' then c + 32 as char else c
  }

  predicate IsAlnum(c: char) {
    '0' <= c <= '9' || 'A' <= c <= 'Z' || 'a' <= c <= 'z'
  }

  predicate StartsWith(s: string, t: string) {
    |t| <= |s| && s[..|t|] == t
  }

  lemma StartsWithOccurs(s: string, t: string)
    ensures StartsWith(s, t) <==> OccursAt(s, t, 0)
  {
    if |t| <= |s| {
      assert s[0..|t|] == s[..|t|];
    }
  }

  predicate StartsWithNoCase(s: string, t: string) {
    |t| <= |s| && forall i :: 0 <= i < |t| ==> Lower(s[i]) == Lower(t[i])
  }

  function TrimLeft(s: string): (r: string)
    ensures |r| <= |s| && r == s[|s| - |r|..]
    ensures r != "" ==> !IsBlank(r[0])
    ensures forall i :: 0 <= i < |s| - |r| ==> IsBlank(s[i])
  {
    if s != "" && IsBlank(s[0]) then TrimLeft(s[1..]) else s
  }

  function TrimRight(s: string): (r: string)
    ensures |r| <= |s| && r == s[..|r|]
    ensures r != "" ==> !IsBlank(r[|r| - 1])
    ensures forall i :: |r| <= i < |s| ==> IsBlank(s[i])
  {
    if s != "" && IsBlank(s[|s| - 1]) then TrimRight(s[..|s| - 1]) else s
  }

  /** trim_copy: no blank at either edge. */
  function Trim(s: string): string {
    TrimRight(TrimLeft(s))
  }

  predicate NoEdgeBlank(s: string) {
    s != "" ==> !IsBlank(s[0]) && !IsBlank(s[|s| - 1])
  }

  lemma TrimIdentity(s: string)
    requires NoEdgeBlank(s)
    ensures Trim(s) == s && TrimLeft(s) == s && TrimRight(s) == s
  {
  }
}
