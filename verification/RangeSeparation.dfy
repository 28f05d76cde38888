/**
 When coalescing leaves ranges that are disjoint and not even adjacent (httplib.h:5876-5930).
 */
module RangeSeparation {
  import opened Ranges
  import opened RangeProperties

  /** Sorted, with at least one byte between any two. */
  predicate Apart(rs: seq<Range>) {
    forall i, j :: 0 <= i < j < |rs| ==> rs[i].last + 1 < rs[j].first
  }

  /** Some range starts in front of `x` and comes up to it. */
  predicate Reached(rs: seq<Range>, x: int) {
    exists i :: 0 <= i < |rs| && rs[i].first < x <= rs[i].last + 1
  }

  /** Every range that occurs twice is reached by one that starts in front of it. */
  ghost predicate RepeatsReached(rs: seq<Range>) {
    forall r: Range :: multiset(rs)[r] >= 2 ==> Reached(rs, r.first)
  }

  predicate Within(s: Range, g: Range) {
    g.first <= s.first && s.last <= g.last
  }

  predicate HasGroup(acc: seq<Range>, s: Range) {
    exists g :: 0 <= g < |acc| && Within(s, acc[g])
  }

  /** The ranges folded so far lie within groups that are apart, and the last group ends where one of
      them does. */
  ghost predicate Folded(acc: seq<Range>, done: seq<Range>) {
    && Apart(acc)
    && (forall i :: 0 <= i < |done| ==> HasGroup(acc, done[i]))
    && (acc != [] ==>
          exists i :: 0 <= i < |done| && done[i].last == acc[|acc| - 1].last && acc[|acc| - 1].first <= done[i].first)
  }

  // ---- repeats that are reached do no harm ----

  lemma FoldedSource(acc: seq<Range>, done: seq<Range>) returns (i: nat)
    requires acc != [] && Folded(acc, done)
    ensures i < |done| && done[i].last == acc[|acc| - 1].last && acc[|acc| - 1].first <= done[i].first
  {
    i :| 0 <= i < |done| && done[i].last == acc[|acc| - 1].last && acc[|acc| - 1].first <= done[i].first;
  }

  lemma FoldedGroup(acc: seq<Range>, done: seq<Range>, j: nat) returns (g: nat)
    requires Folded(acc, done) && j < |done|
    ensures g < |acc| && Within(done[j], acc[g])
  {
    assert HasGroup(acc, done[j]);
    g :| 0 <= g < |acc| && Within(done[j], acc[g]);
  }

  /** A group never reaches one behind it. */
  lemma GroupsApart(acc: seq<Range>, s: Range, g: nat)
    requires Apart(acc) && g < |acc| && Within(s, acc[g]) && s.first < acc[|acc| - 1].first
    ensures s.last + 1 < acc[|acc| - 1].first
  {
  }

  /** The next range does not equal the last group, so it is merged into it or starts a new one. */
  lemma NoEcho(acc: seq<Range>, sorted: seq<Range>, k: nat)
    requires SortedByFirst(sorted) && RepeatsReached(sorted) && k < |sorted|
    requires acc != [] && Folded(acc, sorted[..k])
    ensures sorted[k] != acc[|acc| - 1]
  {
    hide Folded, RepeatsReached, Within, Apart, Reached;
    var r := sorted[k];
    if r == acc[|acc| - 1] {
      var i := FoldedSource(acc, sorted[..k]);
      assert sorted[..k][i] == sorted[i] == r;
      TwiceInSeq(sorted, i, k);
      var j := RepeatReached(sorted, r);
      assert j < k && sorted[..k][j] == sorted[j];
      var g := FoldedGroup(acc, sorted[..k], j);
      FoldedApart(acc, sorted[..k]);
      GroupsApart(acc, sorted[j], g);
    }
  }

  lemma RepeatReached(rs: seq<Range>, r: Range) returns (j: nat)
    requires RepeatsReached(rs) && multiset(rs)[r] >= 2
    ensures j < |rs| && rs[j].first < r.first <= rs[j].last + 1
  {
    j :| 0 <= j < |rs| && rs[j].first < r.first <= rs[j].last + 1;
  }

  lemma TwiceInSeq(rs: seq<Range>, i: nat, j: nat)
    requires i < j < |rs| && rs[i] == rs[j]
    ensures multiset(rs)[rs[i]] >= 2
  {
    assert rs == rs[..i] + [rs[i]] + rs[i + 1..j] + [rs[j]] + rs[j + 1..];
  }

  lemma PushFolded(acc: seq<Range>, done: seq<Range>, r: Range)
    requires Folded(acc, done) && r.first <= r.last
    requires acc != [] ==> acc[|acc| - 1].first <= r.first && r != acc[|acc| - 1]
    ensures Folded(Push(acc, r), done + [r])
  {
    var (out, all) := (Push(acc, r), done + [r]);
    var n := |out| - 1;
    forall i | 0 <= i < |all|
      ensures HasGroup(out, all[i])
    {
      if i < |done| {
        assert HasGroup(acc, done[i]);
        var g :| 0 <= g < |acc| && Within(done[i], acc[g]);
        assert Within(all[i], out[g]);
      } else {
        assert Within(all[i], out[n]);
      }
    }
    if |out| == |acc| && r.last <= acc[n].last {
      var i :| 0 <= i < |done| && done[i].last == acc[n].last && acc[n].first <= done[i].first;
      assert all[i] == done[i];
    } else {
      assert all[|done|] == r;
    }
  }

  lemma {:induction false} FoldApart(acc: seq<Range>, sorted: seq<Range>, k: nat, len: nat)
    requires k <= |sorted| && Ready(acc, sorted[k..], len) && SortedByFirst(sorted) && RepeatsReached(sorted)
    requires Folded(acc, sorted[..k])
    ensures Apart(CoalesceSorted(acc, sorted[k..], len))
    decreases |sorted| - k
  {
    hide RepeatsReached, Folded, SortedByFirst, Ready, Push;
    if k < |sorted| {
      var r := sorted[k];
      assert sorted[k..][0] == r && sorted[k..][1..] == sorted[k + 1..] && sorted[..k + 1] == sorted[..k] + [r];
      ReadyFirst(acc, sorted[k..], len);
      if acc != [] { NoEcho(acc, sorted, k); }
      PushFolded(acc, sorted[..k], r);
      PushReady(acc, sorted[k..], len);
      FoldApart(Push(acc, r), sorted, k + 1, len);
    } else {
      assert sorted[k..] == [];
      FoldedApart(acc, sorted[..k]);
    }
  }

  lemma FoldedApart(acc: seq<Range>, done: seq<Range>)
    requires Folded(acc, done)
    ensures Apart(acc)
  {
  }

  lemma ReadyFirst(acc: seq<Range>, rs: seq<Range>, len: nat)
    requires rs != [] && Ready(acc, rs, len)
    ensures rs[0].first <= rs[0].last && Normalize(rs[0], len) == rs[0] && InBounds(rs[0], len)
    ensures acc != [] ==> acc[|acc| - 1].first <= rs[0].first
  {
  }

  // ---- a repeat that nothing reaches stays ----

  /** Two neighbours that overlap or touch. */
  predicate Clash(acc: seq<Range>) {
    exists i :: 0 <= i < |acc| - 1 && acc[i].last + 1 >= acc[i + 1].first
  }

  lemma {:induction false} ClashStays(acc: seq<Range>, rs: seq<Range>, len: nat)
    requires Clash(acc)
    ensures Clash(CoalesceSorted(acc, rs, len))
    decreases |rs|
  {
    if rs != [] {
      var r := Normalize(rs[0], len);
      PushClash(acc, r);
      ClashStays(if InBounds(r, len) then Push(acc, r) else acc, rs[1..], len);
    }
  }

  lemma PushClash(acc: seq<Range>, r: Range)
    requires Clash(acc)
    ensures Clash(Push(acc, r))
  {
    var i :| 0 <= i < |acc| - 1 && acc[i].last + 1 >= acc[i + 1].first;
    assert Push(acc, r)[i] == acc[i] && Push(acc, r)[i + 1].first == acc[i + 1].first;
  }

  lemma {:induction false} CoalescePlus(acc: seq<Range>, a: seq<Range>, b: seq<Range>, len: nat)
    ensures CoalesceSorted(acc, a + b, len) == CoalesceSorted(CoalesceSorted(acc, a, len), b, len)
    decreases |a|
  {
    if a == [] {
      assert a + b == b;
    } else {
      var r := Normalize(a[0], len);
      assert (a + b)[1..] == a[1..] + b;
      CoalescePlus(if InBounds(r, len) then Push(acc, r) else acc, a[1..], b, len);
    }
  }

  /** Behind ranges that stay clear of it, a range and its copy are both kept. */
  lemma PairKept(front: seq<Range>, r: Range, back: seq<Range>, len: nat)
    requires Ready([], front, len) && InBounds(r, len)
    requires forall i :: 0 <= i < |front| ==> front[i].last + 1 < r.first
    ensures !Apart(CoalesceSorted([], front + ([r, r] + back), len))
  {
    hide CoalesceSorted, SortedByFirst, Apart, Clash;
    var acc := CoalesceSorted([], front, len);
    CoalescePlus([], front, [r, r] + back, len);
    StaysClear(front, r.first, len);
    CoalescePlus(acc, [r, r], back, len);
    PairPushed(acc, r, len);
    ClashStays(acc + [r, r], back, len);
    ClashNotApart(CoalesceSorted(acc + [r, r], back, len));
  }

  lemma StaysClear(front: seq<Range>, x: int, len: nat)
    requires Ready([], front, len) && forall i :: 0 <= i < |front| ==> front[i].last + 1 < x
    ensures var acc := CoalesceSorted([], front, len); acc != [] ==> acc[|acc| - 1].last + 1 < x
  {
    hide CoalesceSorted, SortedByFirst;
    var acc := CoalesceSorted([], front, len);
    CoalesceSortedKeeps([], front, len);
    if acc != [] {
      var end := acc[|acc| - 1].last;
      assert Covers(acc[|acc| - 1], end);
      assert Covered(acc, end) && !Covered([], end);
      var i :| 0 <= i < |front| && Covers(front[i], end);
    }
  }

  lemma PairPushed(acc: seq<Range>, r: Range, len: nat)
    requires InBounds(r, len) && (acc != [] ==> acc[|acc| - 1].last + 1 < r.first)
    ensures CoalesceSorted(acc, [r, r], len) == acc + [r, r] && Clash(acc + [r, r])
  {
    InBoundsIsNormal(r, len);
    var two := acc + [r, r];
    assert Push(acc, r) == acc + [r] && Push(acc + [r], r) == two;
    assert [r, r][1..] == [r] && [r][1..] == [];
    assert CoalesceSorted(acc + [r], [r], len) == CoalesceSorted(two, [], len);
    assert two[|acc|].last + 1 >= two[|acc| + 1].first;
  }

  lemma ClashNotApart(acc: seq<Range>)
    requires Clash(acc)
    ensures !Apart(acc)
  {
  }

  /** Where `x` belongs among sorted starts, in front of its equals. */
  function Spot(sorted: seq<Range>, x: int): (k: nat)
    requires SortedByFirst(sorted)
    ensures k <= |sorted|
    ensures forall i :: 0 <= i < k ==> sorted[i].first < x
    ensures forall i :: k <= i < |sorted| ==> x <= sorted[i].first
  {
    if sorted == [] || x <= sorted[0].first then 0 else 1 + Spot(sorted[1..], x)
  }

  lemma {:induction false} SortExists(rs: seq<Range>) returns (sorted: seq<Range>)
    ensures SortOf(sorted, rs)
    decreases |rs|
  {
    if rs == [] {
      sorted := [];
    } else {
      var (front, r) := (rs[..|rs| - 1], rs[|rs| - 1]);
      assert rs == front + [r];
      var s := SortExists(front);
      var k := Spot(s, r.first);
      InsertKeepsOrder(s, r, k);
      sorted := s[..k] + [r] + s[k..];
    }
  }

  lemma TakeOne(rs: seq<Range>, r: Range) returns (rest: seq<Range>)
    requires multiset(rs)[r] >= 1
    ensures multiset(rs) == multiset(rest) + multiset{r}
  {
    var i := IndexOfRange(rs, r);
    rest := rs[..i] + rs[i + 1..];
    assert rs == rs[..i] + [r] + rs[i + 1..];
  }

  lemma InsertPair(s: seq<Range>, r: Range, k: nat)
    requires SortedByFirst(s) && k <= |s|
    requires k > 0 ==> s[k - 1].first <= r.first
    requires k < |s| ==> r.first <= s[k].first
    ensures SortOf(s[..k] + ([r, r] + s[k..]), s + [r] + [r])
  {
    hide SortedByFirst;
    var (front, back) := (s[..k], s[k..]);
    InsertKeepsOrder(s, r, k);
    var s1 := front + [r] + back;
    assert s1[k] == r && s1[..k] == front && s1[k..] == [r] + back;
    InsertKeepsOrder(s1, r, k);
    assert front + [r] + ([r] + back) == front + ([r, r] + back);
  }

  /** A sort that puts two copies of `r` in front of everything that starts with it or later. */
  lemma SortWithPair(rs: seq<Range>, r: Range) returns (front: seq<Range>, back: seq<Range>)
    requires multiset(rs)[r] >= 2
    ensures SortOf(front + ([r, r] + back), rs)
    ensures forall i :: 0 <= i < |front| ==> front[i].first < r.first
  {
    hide SortedByFirst;
    var once := TakeOne(rs, r);
    var rest := TakeOne(once, r);
    var s := SortExists(rest);
    var k := Spot(s, r.first);
    front, back := s[..k], s[k..];
    InsertPair(s, r, k);
  }

  lemma IndexOfRange(rs: seq<Range>, r: Range) returns (i: nat)
    requires multiset(rs)[r] >= 1
    ensures i < |rs| && rs[i] == r
  {
    assert r in rs;
    i :| i < |rs| && rs[i] == r;
  }

  // ---- the exact condition ----

  lemma ReachedSame(a: seq<Range>, b: seq<Range>, x: int)
    requires multiset(a) == multiset(b) && Reached(a, x)
    ensures Reached(b, x)
  {
    var i :| 0 <= i < |a| && a[i].first < x <= a[i].last + 1;
    assert a[i] in multiset(b);
    var j :| 0 <= j < |b| && b[j] == a[i];
  }

  lemma RepeatsReachedSame(a: seq<Range>, b: seq<Range>)
    requires multiset(a) == multiset(b) && RepeatsReached(a)
    ensures RepeatsReached(b)
  {
    forall r: Range | multiset(b)[r] >= 2
      ensures Reached(b, r.first)
    {
      ReachedSame(a, b, r.first);
    }
  }

  lemma ReachedRepeats(out: seq<Range>, rs: seq<Range>, len: nat)
    requires AllInBounds(rs, len) && RepeatsReached(rs) && Coalesced(out, rs, len)
    ensures Apart(out)
  {
    hide RepeatsReached, CoalesceSorted, SortedByFirst;
    if |rs| > 1 {
      var sorted :| SortOf(sorted, rs) && out == CoalesceSorted([], sorted, len);
      SortKeeps(sorted, rs, len);
      RepeatsReachedSame(rs, sorted);
      SortedApart(sorted, len);
    }
  }

  lemma SortedApart(sorted: seq<Range>, len: nat)
    requires SortedByFirst(sorted) && AllInBounds(sorted, len) && RepeatsReached(sorted)
    ensures Apart(CoalesceSorted([], sorted, len))
  {
    hide RepeatsReached, CoalesceSorted;
    assert sorted[0..] == sorted && sorted[..0] == [];
    FoldApart([], sorted, 0, len);
  }

  lemma UnreachedRepeat(rs: seq<Range>, r: Range, len: nat) returns (out: seq<Range>)
    requires AllInBounds(rs, len) && multiset(rs)[r] >= 2 && !Reached(rs, r.first)
    ensures Coalesced(out, rs, len) && !Apart(out)
  {
    hide CoalesceSorted, Apart;
    var front, back := SortWithPair(rs, r);
    var sorted := front + ([r, r] + back);
    out := CoalesceSorted([], sorted, len);
    SortKeeps(sorted, rs, len);
    forall i | 0 <= i < |front|
      ensures front[i].last + 1 < r.first
    {
      assert sorted[i] == front[i];
      if r.first <= front[i].last + 1 {
        ReachedSame(sorted, rs, r.first);
      }
    }
    assert sorted[|front|] == r && InBounds(sorted[|front|], len);
    FrontReady(front, [r, r] + back, len);
    PairKept(front, r, back, len);
  }

  lemma FrontReady(front: seq<Range>, back: seq<Range>, len: nat)
    requires SortedByFirst(front + back) && AllInBounds(front + back, len)
    ensures Ready([], front, len)
  {
    var all := front + back;
    assert forall i :: 0 <= i < |front| ==> front[i] == all[i];
  }

  /** For in-bounds ranges, coalescing leaves them pairwise disjoint and non-adjacent under every order the
      sort may leave ties in, if and only if every range that occurs twice is reached by an earlier one. */
  lemma ApartExactly(rs: seq<Range>, len: nat)
    requires AllInBounds(rs, len)
    ensures (forall out | Coalesced(out, rs, len) :: Apart(out)) <==> RepeatsReached(rs)
  {
    hide AllInBounds, Coalesced, Apart, Reached;
    if RepeatsReached(rs) {
      forall out | Coalesced(out, rs, len)
        ensures Apart(out)
      {
        ReachedRepeats(out, rs, len);
      }
    } else {
      var r :| multiset(rs)[r] >= 2 && !Reached(rs, r.first);
      var out := UnreachedRepeat(rs, r, len);
    }
  }

  predicate Distinct(rs: seq<Range>) {
    forall i, j :: 0 <= i < j < |rs| ==> rs[i] != rs[j]
  }

  lemma {:induction false} OnceInDistinct(rs: seq<Range>, r: Range)
    requires Distinct(rs)
    ensures multiset(rs)[r] <= 1
    decreases |rs|
  {
    if rs != [] {
      assert rs == [rs[0]] + rs[1..];
      OnceInDistinct(rs[1..], r);
      if rs[0] == r {
        assert r !in rs[1..];
      }
    }
  }

  /** In particular, distinct ranges always come out apart. */
  lemma CoalesceApart(out: seq<Range>, rs: seq<Range>, len: nat)
    requires AllInBounds(rs, len) && Distinct(rs) && Coalesced(out, rs, len)
    ensures Apart(out)
  {
    forall r: Range
      ensures multiset(rs)[r] <= 1
    {
      OnceInDistinct(rs, r);
    }
    ApartExactly(rs, len);
  }

  /** And a repeated range with nothing in front of it is let through and kept twice by some sort, even
      with a third range that overlaps both. */
  lemma RepeatsMayOverlap(a: Range, b: Range, len: nat)
    requires InBounds(a, len) && InBounds(b, len) && a.first <= b.first <= a.last
    ensures Validate([a, a, b], len, [], 0) == Accepted([a, a, b])
    ensures exists out :: Coalesced(out, [a, a, b], len) && !Apart(out)
  {
    hide CoalesceSorted, Validate;
    RepeatsAccepted(a, b, len);
    var rs := [a, a, b];
    TwiceInSeq(rs, 0, 1);
    var out := UnreachedRepeat(rs, a, len);
  }

  lemma RepeatsAccepted(a: Range, b: Range, len: nat)
    requires InBounds(a, len) && InBounds(b, len) && Overlap(a, a) && Overlap(b, a)
    ensures Validate([a, a, b], len, [], 0) == Accepted([a, a, b])
  {
    hide OverlapsAny, InBounds, Validate;
    assert Validate([], len, [a, a, b], 2) == Accepted([a, a, b]) by { NothingToValidate([a, a, b], len, 2); }
    NoneOverlaps(a);
    FirstOverlaps(a, [a]);
    FirstOverlaps(b, [a, a]);
    ValidateOne(a, [a, b], len, [], 0);
    ValidateOne(a, [b], len, [a], 0);
    ValidateOne(b, [], len, [a, a], 1);
    assert [a] + [a, b] == [a, a, b] && [a] + [b] == [a, b] && [b] + [] == [b];
    assert [] + [a] == [a] && [a] + [a] == [a, a] && [a, a] + [b] == [a, a, b];
  }

  lemma NothingToValidate(done: seq<Range>, len: nat, count: nat)
    ensures Validate([], len, done, count) == Accepted(done)
  {
  }

  lemma FirstOverlaps(r: Range, done: seq<Range>)
    requires done != [] && Overlap(r, done[0])
    ensures OverlapsAny(r, done)
  {
  }

  lemma NoneOverlaps(r: Range)
    ensures !OverlapsAny(r, [])
  {
  }

  lemma ValidateOne(r: Range, rs: seq<Range>, len: nat, done: seq<Range>, count: nat)
    requires InBounds(r, len) && count < 2
    ensures Validate([r] + rs, len, done, count) ==
            Validate(rs, len, done + [r], if OverlapsAny(r, done) then count + 1 else count)
  {
    assert ([r] + rs)[1..] == rs;
  }
}
