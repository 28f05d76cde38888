/**
 What a Range header asks for (section 14.1.2 of RFC 9110), read off the header alone, against what
 range_error makes of it (httplib.h:5932-5998): which lists it lets through, and which bytes they get.
 */
module RangeMeaning {
  import opened Ranges
  import opened RangeProperties

  /** Byte `x` of a content of `len` bytes is asked for: from a first position on, to a last position if
      there is one, or among the last so many. */
  predicate Asked(r: Range, len: nat, x: int) {
    && 0 <= x < len
    && if r.first != -1 then r.first <= x && (r.last == -1 || x <= r.last)
       else r.last == -1 || len - r.last <= x
  }

  /** The range starts within the content and is not backwards; a suffix is not empty and not longer than
      the content. */
  predicate Satisfiable(r: Range, len: nat) {
    if r.first != -1 then 0 <= r.first < len && (r.last == -1 || r.first <= r.last)
    else if r.last != -1 then 1 <= r.last <= len
    else len > 0
  }

  predicate AskedByAny(rs: seq<Range>, len: nat, x: int) {
    exists i :: 0 <= i < |rs| && Asked(rs[i], len, x)
  }

  /** Range `i` asks for a byte that an earlier one asks for too. */
  predicate Shares(rs: seq<Range>, i: nat, len: nat)
    requires i < |rs|
  {
    exists x :: 0 <= x < len && Asked(rs[i], len, x) && AskedByAny(rs[..i], len, x)
  }

  /** How many of the first `n` ranges do. */
  function Sharing(rs: seq<Range>, n: nat, len: nat): nat
    requires n <= |rs|
  {
    if n == 0 then 0 else Sharing(rs, n - 1, len) + if Shares(rs, n - 1, len) then 1 else 0
  }

  predicate Acceptable(rs: seq<Range>, len: nat) {
    (forall i :: 0 <= i < |rs| ==> Satisfiable(rs[i], len)) && Sharing(rs, |rs|, len) <= 2
  }

  // ---- one range ----

  lemma NormalizeBounds(r: Range, len: nat)
    ensures InBounds(Normalize(r, len), len) <==> Satisfiable(r, len)
  {
  }

  lemma NormalizeCovers(r: Range, len: nat, x: int)
    requires InBounds(Normalize(r, len), len)
    ensures Covers(Normalize(r, len), x) <==> Asked(r, len, x)
  {
  }

  /** What stands for the first ranges: the same bytes, range by range. */
  ghost predicate Stands(done: seq<Range>, rs: seq<Range>, len: nat) {
    && |done| <= |rs|
    && forall i :: 0 <= i < |done| ==>
         InBounds(done[i], len) && Satisfiable(rs[i], len) && forall x :: Covers(done[i], x) <==> Asked(rs[i], len, x)
  }

  lemma OverlapIsByte(a: Range, b: Range)
    requires a.first <= a.last && b.first <= b.last
    ensures Overlap(a, b) <==> exists x :: Covers(a, x) && Covers(b, x)
  {
    if Overlap(a, b) {
      var x := if a.first < b.first then b.first else a.first;
      assert Covers(a, x) && Covers(b, x);
    }
  }

  /** The loop counts a range exactly when it shares a byte with an earlier one. */
  lemma OverlapsAnyShares(done: seq<Range>, rs: seq<Range>, r: Range, len: nat)
    requires Stands(done, rs, len) && |done| < |rs| && r == Normalize(rs[|done|], len) && InBounds(r, len)
    ensures OverlapsAny(r, done) <==> Shares(rs, |done|, len)
  {
    var (k, front) := (|done|, rs[..|done|]);
    if OverlapsAny(r, done) {
      var i :| 0 <= i < |done| && Overlap(r, done[i]);
      OverlapIsByte(r, done[i]);
      var x :| Covers(r, x) && Covers(done[i], x);
      NormalizeCovers(rs[k], len, x);
      assert front[i] == rs[i] && Asked(front[i], len, x);
    }
    if Shares(rs, k, len) {
      var x :| 0 <= x < len && Asked(rs[k], len, x) && AskedByAny(front, len, x);
      var i :| 0 <= i < |front| && Asked(front[i], len, x);
      NormalizeCovers(rs[k], len, x);
      assert front[i] == rs[i] && Covers(done[i], x);
      OverlapIsByte(r, done[i]);
    }
  }

  lemma StandsNext(done: seq<Range>, rs: seq<Range>, r: Range, len: nat)
    requires Stands(done, rs, len) && |done| < |rs| && r == Normalize(rs[|done|], len) && InBounds(r, len)
    ensures Stands(done + [r], rs, len)
  {
    var k := |done|;
    NormalizeBounds(rs[k], len);
    forall x
      ensures Covers(r, x) <==> Asked(rs[k], len, x)
    {
      NormalizeCovers(rs[k], len, x);
    }
  }

  lemma {:induction false} SharingGrows(rs: seq<Range>, m: nat, n: nat, len: nat)
    requires m <= n <= |rs|
    ensures Sharing(rs, m, len) <= Sharing(rs, n, len)
    decreases n
  {
    if m < n {
      SharingGrows(rs, m, n - 1, len);
    }
  }

  // ---- the list ----

  /** The rest of the loop, from where `done` stands for the first ranges. */
  lemma {:induction false} ValidateMeans(rs: seq<Range>, len: nat, done: seq<Range>, count: nat)
    requires Stands(done, rs, len) && count == Sharing(rs, |done|, len) <= 2
    ensures var v := Validate(rs[|done|..], len, done, count);
            && (v.Accepted? <==> Acceptable(rs, len))
            && (v.Accepted? ==> |v.ranges| == |rs| && Stands(v.ranges, rs, len))
    decreases |rs| - |done|
  {
    hide Normalize, Asked, Satisfiable, Shares, OverlapsAny, InBounds;
    var k := |done|;
    if k < |rs| {
      assert rs[k..][0] == rs[k] && rs[k..][1..] == rs[k + 1..];
      var r := Normalize(rs[k], len);
      NormalizeBounds(rs[k], len);
      if InBounds(r, len) {
        OverlapsAnyShares(done, rs, r, len);
        SharingGrows(rs, k + 1, |rs|, len);
        StandsNext(done, rs, r, len);
        var c := if OverlapsAny(r, done) then count + 1 else count;
        assert Sharing(rs, k + 1, len) == c;
        if c <= 2 {
          ValidateMeans(rs, len, done + [r], c);
        }
      }
    } else {
      AllStand(done, rs, len);
      assert rs[k..] == [];
    }
  }

  lemma AllStand(done: seq<Range>, rs: seq<Range>, len: nat)
    requires Stands(done, rs, len) && |done| == |rs|
    ensures forall i :: 0 <= i < |rs| ==> Satisfiable(rs[i], len)
  {
    hide Satisfiable;
    forall i | 0 <= i < |rs|
      ensures Satisfiable(rs[i], len)
    {
      assert InBounds(done[i], len);
    }
  }

  /** A list is let through if and only if every range can be satisfied and at most two of them ask for a
      byte that an earlier one asks for; each accepted range then covers exactly the bytes it asks for. */
  lemma AcceptedExactly(rs: seq<Range>, len: nat)
    ensures Validate(rs, len, [], 0).Accepted? <==> Acceptable(rs, len)
    ensures var v := Validate(rs, len, [], 0);
            v.Accepted? ==>
              && |v.ranges| == |rs|
              && forall i, x :: 0 <= i < |rs| ==> (Covers(v.ranges[i], x) <==> Asked(rs[i], len, x))
  {
    hide Asked, Validate, Acceptable;
    assert rs[0..] == rs;
    ValidateMeans(rs, len, [], 0);
  }

  /** What is left after coalescing covers exactly the bytes that some range of the header asks for. */
  lemma CoalescedMeans(rs: seq<Range>, len: nat, out: seq<Range>)
    requires Validate(rs, len, [], 0).Accepted? && Coalesced(out, Validate(rs, len, [], 0).ranges, len)
    ensures forall x :: Covered(out, x) <==> AskedByAny(rs, len, x)
  {
    hide Asked, Validate, Acceptable, Coalesced;
    AcceptedExactly(rs, len);
    var ns := Validate(rs, len, [], 0).ranges;
    AcceptedInBounds(rs, len);
    CoalesceKeeps(out, ns, len);
    forall x
      ensures Covered(out, x) <==> AskedByAny(rs, len, x)
    {
      if Covered(ns, x) {
        var i :| 0 <= i < |ns| && Covers(ns[i], x);
        assert Asked(rs[i], len, x);
      }
      if AskedByAny(rs, len, x) {
        var i :| 0 <= i < |rs| && Asked(rs[i], len, x);
        assert Covers(ns[i], x);
      }
    }
  }

  lemma AcceptedInBounds(rs: seq<Range>, len: nat)
    requires Validate(rs, len, [], 0).Accepted?
    ensures AllInBounds(Validate(rs, len, [], 0).ranges, len)
  {
    hide Validate;
    assert rs[0..] == rs;
    ValidateMeans(rs, len, [], 0);
  }
}
