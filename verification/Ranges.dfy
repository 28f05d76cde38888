/**
 Byte ranges (sections 14.1.2 and 14.2 of RFC 9110): range_error and coalesce_ranges
 (httplib.h:5876-5998).
 */
module Ranges {

  const RANGE_MAX_COUNT: nat := 1024

  /** A pair of positions; -1 stands for an absent one. */
  datatype Range = Range(first: int, last: int)

  /** Positions made explicit for a content of `len` bytes. */
  function Normalize(r: Range, len: nat): Range {
    var a := if r.first == -1 && r.last == -1 then Range(0, len) else r;
    var b := if a.first == -1 then Range(len - a.last, len - 1) else a;
    if b.last == -1 || b.last >= len then Range(b.first, len - 1) else b
  }

  predicate InBounds(r: Range, len: nat) {
    0 <= r.first <= r.last < len
  }

  predicate Overlap(a: Range, b: Range) {
    !(a.last < b.first || a.first > b.last)
  }

  predicate OverlapsAny(r: Range, done: seq<Range>) {
    exists i :: 0 <= i < |done| && Overlap(r, done[i])
  }

  /** The validation loop: the normalized list, or the prefix on which it gives up. */
  datatype Verdict = Accepted(ranges: seq<Range>) | Rejected(done: seq<Range>)

  function Validate(todo: seq<Range>, len: nat, done: seq<Range>, count: nat): Verdict
    decreases |todo|
  {
    if todo == [] then Accepted(done)
    else
      var r := Normalize(todo[0], len);
      if !InBounds(r, len) then Rejected(done)
      else
        var c := if OverlapsAny(r, done) then count + 1 else count;
        if c > 2 then Rejected(done) else Validate(todo[1..], len, done + [r], c)
  }

  function Max(a: int, b: int): int {
    if a < b then b else a
  }

  /** One range of the sorted list against the last coalesced one. */
  function Push(acc: seq<Range>, r: Range): seq<Range> {
    if acc != [] && r.first <= acc[|acc| - 1].last + 1 && r != acc[|acc| - 1] then
      var prev := acc[|acc| - 1];
      acc[..|acc| - 1] + [Range(prev.first, Max(prev.last, r.last))]
    else acc + [r]
  }

  function CoalesceSorted(acc: seq<Range>, rs: seq<Range>, len: nat): seq<Range>
    decreases |rs|
  {
    if rs == [] then acc
    else
      var r := Normalize(rs[0], len);
      CoalesceSorted(if InBounds(r, len) then Push(acc, r) else acc, rs[1..], len)
  }

  predicate SortedByFirst(rs: seq<Range>) {
    forall i, j :: 0 <= i < j < |rs| ==> rs[i].first <= rs[j].first
  }

  /** What std::sort may leave: ties in any order. */
  ghost predicate SortOf(sorted: seq<Range>, rs: seq<Range>) {
    multiset(sorted) == multiset(rs) && SortedByFirst(sorted)
  }

  /** A result of coalesce_ranges on `rs`. */
  ghost predicate Coalesced(out: seq<Range>, rs: seq<Range>, len: nat) {
    if |rs| <= 1 then out == rs
    else exists sorted :: SortOf(sorted, rs) && out == CoalesceSorted([], sorted, len)
  }

  // ---- the code ----

  class Request {
    var ranges: seq<Range>

    constructor (ranges: seq<Range>)
      ensures this.ranges == ranges
    {
      this.ranges := ranges;
    }
  }

  lemma InsertKeepsOrder(sorted: seq<Range>, r: Range, k: nat)
    requires SortedByFirst(sorted) && k <= |sorted|
    requires k > 0 ==> sorted[k - 1].first <= r.first
    requires k < |sorted| ==> r.first <= sorted[k].first
    ensures SortOf(sorted[..k] + [r] + sorted[k..], sorted + [r])
  {
    hide SortedByFirst;
    var (front, back) := (sorted[..k], sorted[k..]);
    assert sorted == front + back;
    InsertedSame(front, back, r);
    PartsSorted(sorted, k);
    InsertedSorted(front, back, r);
  }

  lemma InsertedSame(front: seq<Range>, back: seq<Range>, r: Range)
    ensures multiset(front + [r] + back) == multiset(front + back + [r])
  {
  }

  lemma PartsSorted(sorted: seq<Range>, k: nat)
    requires SortedByFirst(sorted) && k <= |sorted|
    ensures SortedByFirst(sorted[..k]) && SortedByFirst(sorted[k..])
  {
  }

  lemma InsertedSorted(front: seq<Range>, back: seq<Range>, r: Range)
    requires SortedByFirst(front) && SortedByFirst(back)
    requires front != [] ==> front[|front| - 1].first <= r.first
    requires back != [] ==> r.first <= back[0].first
    ensures SortedByFirst(front + [r] + back)
  {
  }

  method InsertSorted(sorted: seq<Range>, r: Range) returns (out: seq<Range>)
    requires SortedByFirst(sorted)
    ensures SortOf(out, sorted + [r])
  {
    var k := |sorted|;
    while k > 0 && r.first < sorted[k - 1].first
      invariant 0 <= k <= |sorted|
      invariant k < |sorted| ==> r.first <= sorted[k].first
    {
      k := k - 1;
    }
    InsertKeepsOrder(sorted, r, k);
    out := sorted[..k] + [r] + sorted[k..];
  }

  /** One admissible std::sort. */
  method SortByFirst(rs: seq<Range>) returns (sorted: seq<Range>)
    ensures SortOf(sorted, rs)
  {
    sorted := [];
    for i := 0 to |rs|
      invariant SortOf(sorted, rs[..i])
    {
      assert rs[..i + 1] == rs[..i] + [rs[i]];
      sorted := InsertSorted(sorted, rs[i]);
    }
    assert rs[..|rs|] == rs;
  }

  method CoalesceRanges(req: Request, len: nat)
    modifies req
    ensures Coalesced(req.ranges, old(req.ranges), len)
  {
    if |req.ranges| <= 1 {
      return;
    }
    var sorted := SortByFirst(req.ranges);
    var coalesced: seq<Range> := [];
    var i := 0;
    while i < |sorted|
      invariant 0 <= i <= |sorted|
      invariant CoalesceSorted(coalesced, sorted[i..], len) == CoalesceSorted([], sorted, len)
    {
      assert sorted[i..][1..] == sorted[i + 1..];
      var r := Normalize(sorted[i], len);
      if InBounds(r, len) {
        if |coalesced| > 0 && r.first <= coalesced[|coalesced| - 1].last + 1 && r != coalesced[|coalesced| - 1] {
          var prev := coalesced[|coalesced| - 1];
          coalesced := coalesced[..|coalesced| - 1] + [Range(prev.first, Max(prev.last, r.last))];
        } else {
          coalesced := coalesced + [r];
        }
      }
      i := i + 1;
    }
    req.ranges := coalesced;
  }

  /** range_error: false leaves the coalesced list in the request; true leaves it normalized up to the
      range that was refused. */
  method RangeError(req: Request, status: int, len: nat) returns (err: bool)
    modifies req
    ensures var rs := old(req.ranges);
            if rs == [] || !(200 <= status < 300) then !err && req.ranges == rs
            else if |rs| > RANGE_MAX_COUNT then err && req.ranges == rs
            else
              match Validate(rs, len, [], 0)
              case Rejected(done) =>
                err && |done| < |rs| && req.ranges == done + [Normalize(rs[|done|], len)] + rs[|done| + 1..]
              case Accepted(ns) => !err && Coalesced(req.ranges, ns, len)
  {
    if req.ranges == [] || !(200 <= status < 300) {
      return false;
    }
    if |req.ranges| > RANGE_MAX_COUNT {
      return true;
    }
    ghost var rs := req.ranges;
    var overlapping: nat := 0;
    var i := 0;
    while i < |req.ranges|
      invariant 0 <= i <= |req.ranges| == |rs|
      invariant req.ranges[i..] == rs[i..]
      invariant Validate(rs, len, [], 0) == Validate(rs[i..], len, req.ranges[..i], overlapping)
      invariant overlapping <= 2
    {
      assert rs[i..][1..] == rs[i + 1..] && rs[i] == req.ranges[i..][0];
      var done := req.ranges[..i];
      var r := Normalize(req.ranges[i], len);
      req.ranges := req.ranges[i := r];
      if !InBounds(r, len) {
        return true;
      }
      var k := 0;
      while k < |done| && !Overlap(r, done[k])
        invariant 0 <= k <= |done| && forall j :: 0 <= j < k ==> !Overlap(r, done[j])
      {
        k := k + 1;
      }
      if k < |done| {
        overlapping := overlapping + 1;
        if overlapping > 2 {
          return true;
        }
      }
      assert req.ranges[..i + 1] == done + [r];
      i := i + 1;
    }
    assert req.ranges[..i] == req.ranges;
    CoalesceRanges(req, len);
    return false;
  }
}

module RangeProperties {
  import opened Ranges

  function Size(r: Range): int {
    r.last - r.first + 1
  }

  function Sum(rs: seq<Range>): int {
    if rs == [] then 0 else Size(rs[0]) + Sum(rs[1..])
  }

  predicate AllInBounds(rs: seq<Range>, len: nat) {
    forall i :: 0 <= i < |rs| ==> InBounds(rs[i], len)
  }

  predicate Covers(r: Range, x: int) {
    r.first <= x <= r.last
  }

  /** Byte position `x` is asked for. */
  predicate Covered(rs: seq<Range>, x: int) {
    exists i :: 0 <= i < |rs| && Covers(rs[i], x)
  }

  // ---- sums ----

  lemma {:induction false} SumPlus(a: seq<Range>, b: seq<Range>)
    ensures Sum(a + b) == Sum(a) + Sum(b)
    decreases |a|
  {
    if a == [] {
      assert a + b == b;
    } else {
      assert (a + b)[1..] == a[1..] + b;
      SumPlus(a[1..], b);
    }
  }

  lemma {:induction false} SumOfSort(a: seq<Range>, b: seq<Range>)
    requires multiset(a) == multiset(b)
    ensures Sum(a) == Sum(b) && |a| == |b|
    decreases |a|
  {
    assert |multiset(a)| == |a| && |multiset(b)| == |b|;
    if a != [] {
      assert a[0] in multiset(b);
      var i :| 0 <= i < |b| && b[i] == a[0];
      var c := b[..i] + b[i + 1..];
      FirstTaken(a);
      OneTaken(b, i);
      SumOfSort(a[1..], c);
    }
  }

  lemma FirstTaken(a: seq<Range>)
    requires a != []
    ensures multiset(a[1..]) == multiset(a) - multiset{a[0]}
  {
    assert a == [a[0]] + a[1..];
  }

  lemma OneTaken(b: seq<Range>, i: nat)
    requires i < |b|
    ensures var c := b[..i] + b[i + 1..];
            multiset(c) == multiset(b) - multiset{b[i]} && Sum(b) == Size(b[i]) + Sum(c)
  {
    var (front, back) := (b[..i], b[i + 1..]);
    assert b == front + ([b[i]] + back);
    SumPlus(front, back);
    SumPlus(front, [b[i]] + back);
  }

  // ---- the byte bound ----

  function Cover(rs: seq<Range>, len: nat): set<int> {
    set x | 0 <= x < len && Covered(rs, x)
  }

  function Positions(r: Range): set<int> {
    set x | r.first <= x <= r.last && Covers(r, x)
  }

  lemma {:induction false} PositionsSize(r: Range)
    requires r.first <= r.last + 1
    ensures |Positions(r)| == Size(r)
    decreases r.last - r.first + 1
  {
    if r.first <= r.last {
      var s := Range(r.first, r.last - 1);
      PositionsSize(s);
      assert r.last !in Positions(s);
      assert Positions(r) == Positions(s) + {r.last};
    }
  }

  lemma CoverAtMost(rs: seq<Range>, len: nat)
    ensures |Cover(rs, len)| <= len
  {
    var all := Range(0, len - 1);
    PositionsSize(all);
    SubsetSize(Cover(rs, len), Positions(all));
  }

  lemma {:induction false} SubsetSize(a: set<int>, b: set<int>)
    requires a <= b
    ensures |a| <= |b|
  {
    assert b == a + (b - a);
  }

  /** A range that meets no earlier one adds all its bytes to the cover. */
  lemma CoverGrows(done: seq<Range>, r: Range, len: nat)
    requires InBounds(r, len)
    ensures Cover(done + [r], len) == Cover(done, len) + Positions(r)
    ensures !OverlapsAny(r, done) && AllInBounds(done, len) ==>
              |Cover(done + [r], len)| == |Cover(done, len)| + Size(r)
    ensures |Cover(done + [r], len)| >= |Cover(done, len)|
  {
    forall x: int
      ensures Covered(done + [r], x) <==> Covered(done, x) || Covers(r, x)
    {
      CoveredPlus(done, [r], x);
    }
    PositionsSize(r);
    if !OverlapsAny(r, done) && AllInBounds(done, len) {
      assert Cover(done, len) !! Positions(r);
    }
    SubsetSize(Cover(done, len), Cover(done + [r], len));
  }

  lemma CoveredPlus(a: seq<Range>, b: seq<Range>, x: int)
    ensures Covered(a + b, x) <==> Covered(a, x) || Covered(b, x)
    ensures forall r :: Covered([r], x) <==> Covers(r, x)
  {
    if Covered(b, x) {
      var i :| 0 <= i < |b| && Covers(b[i], x);
      assert (a + b)[|a| + i] == b[i];
    }
    if Covered(a, x) {
      var i :| 0 <= i < |a| && Covers(a[i], x);
      assert (a + b)[i] == a[i];
    }
    forall r
      ensures Covered([r], x) <==> Covers(r, x)
    {
      assert [r][0] == r;
    }
  }

  /** What `count` overlapping ranges may add at most. */
  function Allowance(count: nat, len: nat): nat {
    if count == 0 then 0 else len + Allowance(count - 1, len)
  }

  lemma BoundStep(done: seq<Range>, r: Range, len: nat, count: nat)
    requires InBounds(r, len) && AllInBounds(done, len) && Sum(done) <= |Cover(done, len)| + Allowance(count, len)
    ensures var c := if OverlapsAny(r, done) then count + 1 else count;
            AllInBounds(done + [r], len) && Sum(done + [r]) <= |Cover(done + [r], len)| + Allowance(c, len)
  {
    SumPlus(done, [r]);
    CoverGrows(done, r, len);
  }

  /** What the validation loop keeps: each counted overlap pays for one more content length. */
  lemma {:induction false} ValidateBound(todo: seq<Range>, len: nat, done: seq<Range>, count: nat)
    requires count <= 2 && AllInBounds(done, len) && Sum(done) <= |Cover(done, len)| + Allowance(count, len)
    requires Validate(todo, len, done, count).Accepted?
    ensures var ns := Validate(todo, len, done, count).ranges;
            AllInBounds(ns, len) && |ns| == |done| + |todo|
            && Sum(ns) <= |Cover(ns, len)| + 2 * len && |Cover(ns, len)| <= len
    decreases |todo|
  {
    if todo == [] {
      CoverAtMost(done, len);
      assert Allowance(0, len) == 0;
      assert Allowance(1, len) == len;
      assert Allowance(2, len) == 2 * len;
    } else {
      var r := Normalize(todo[0], len);
      BoundStep(done, r, len, count);
      ValidateBound(todo[1..], len, done + [r], if OverlapsAny(r, done) then count + 1 else count);
    }
  }

  // ---- coalescing ----

  /** A sorted accumulator whose last start is not behind the ranges still to come. */
  predicate Ready(acc: seq<Range>, rs: seq<Range>, len: nat) {
    && AllInBounds(acc, len) && AllInBounds(rs, len)
    && SortedByFirst(acc) && SortedByFirst(rs)
    && (acc != [] && rs != [] ==> acc[|acc| - 1].first <= rs[0].first)
  }

  lemma InBoundsIsNormal(r: Range, len: nat)
    requires InBounds(r, len)
    ensures Normalize(r, len) == r
  {
  }

  lemma PushReady(acc: seq<Range>, rs: seq<Range>, len: nat)
    requires rs != [] && Ready(acc, rs, len)
    ensures Ready(Push(acc, rs[0]), rs[1..], len) && Push(acc, rs[0]) != []
  {
  }

  lemma PushSum(acc: seq<Range>, r: Range)
    requires r.first <= r.last && (acc != [] ==> acc[|acc| - 1].first <= r.first)
    ensures Sum(Push(acc, r)) <= Sum(acc) + Size(r) && |Push(acc, r)| <= |acc| + 1
  {
    SumPlus(acc, [r]);
    if acc != [] {
      var (front, prev) := (acc[..|acc| - 1], acc[|acc| - 1]);
      assert acc == front + [prev];
      SumPlus(front, [prev]);
      SumPlus(front, [Range(prev.first, Max(prev.last, r.last))]);
    }
  }

  lemma PushCovers(acc: seq<Range>, r: Range, x: int)
    requires r.first <= r.last && (acc != [] ==> acc[|acc| - 1].first <= r.first)
    ensures Covered(Push(acc, r), x) <==> Covered(acc, x) || Covers(r, x)
  {
    CoveredPlus(acc, [r], x);
    if acc != [] {
      var (front, prev) := (acc[..|acc| - 1], acc[|acc| - 1]);
      assert acc == front + [prev];
      CoveredPlus(front, [prev], x);
      CoveredPlus(front, [Range(prev.first, Max(prev.last, r.last))], x);
    }
  }

  /** In-bounds input: bounds, order and covered positions survive, and neither the bytes asked for nor
      the number of ranges grows. */
  lemma {:induction false} CoalesceSortedKeeps(acc: seq<Range>, rs: seq<Range>, len: nat)
    requires Ready(acc, rs, len)
    ensures var out := CoalesceSorted(acc, rs, len);
            AllInBounds(out, len) && SortedByFirst(out) && |out| <= |acc| + |rs| && Sum(out) <= Sum(acc) + Sum(rs)
            && (acc != [] || rs != [] ==> out != [])
    ensures forall x :: Covered(CoalesceSorted(acc, rs, len), x) <==> Covered(acc, x) || Covered(rs, x)
    decreases |rs|
  {
    if rs != [] {
      var r := rs[0];
      InBoundsIsNormal(r, len);
      PushReady(acc, rs, len);
      PushSum(acc, r);
      CoalesceSortedKeeps(Push(acc, r), rs[1..], len);
      assert rs == [r] + rs[1..];
      forall x
        ensures Covered(CoalesceSorted(acc, rs, len), x) <==> Covered(acc, x) || Covered(rs, x)
      {
        PushCovers(acc, r, x);
        CoveredPlus([r], rs[1..], x);
      }
    }
  }

  lemma SortKeeps(sorted: seq<Range>, rs: seq<Range>, len: nat)
    requires SortOf(sorted, rs) && AllInBounds(rs, len)
    ensures AllInBounds(sorted, len) && |sorted| == |rs| && Sum(sorted) == Sum(rs)
    ensures forall x :: Covered(sorted, x) <==> Covered(rs, x)
  {
    SumOfSort(sorted, rs);
    forall i | 0 <= i < |sorted|
      ensures sorted[i] in rs
    {
      assert sorted[i] in multiset(sorted);
    }
    forall i | 0 <= i < |rs|
      ensures rs[i] in sorted
    {
      assert rs[i] in multiset(rs);
    }
    forall x
      ensures Covered(sorted, x) <==> Covered(rs, x)
    {
      CoveredByMember(sorted, rs, x);
      CoveredByMember(rs, sorted, x);
    }
  }

  lemma CoveredByMember(a: seq<Range>, b: seq<Range>, x: int)
    requires forall i :: 0 <= i < |a| ==> a[i] in b
    ensures Covered(a, x) ==> Covered(b, x)
  {
    if Covered(a, x) {
      var i :| 0 <= i < |a| && Covers(a[i], x);
      var j :| 0 <= j < |b| && b[j] == a[i];
    }
  }

  /** Coalescing in-bounds ranges, for every order the sort may leave ties in. */
  lemma CoalesceKeeps(out: seq<Range>, rs: seq<Range>, len: nat)
    requires AllInBounds(rs, len) && Coalesced(out, rs, len)
    ensures AllInBounds(out, len) && SortedByFirst(out) && |out| <= |rs| && Sum(out) <= Sum(rs)
    ensures rs != [] ==> out != []
    ensures forall x :: Covered(out, x) <==> Covered(rs, x)
  {
    if |rs| > 1 {
      var sorted :| SortOf(sorted, rs) && out == CoalesceSorted([], sorted, len);
      SortKeeps(sorted, rs, len);
      CoalesceSortedKeeps([], sorted, len);
      assert forall x :: !Covered([], x);
    }
  }

  /** Whatever range_error lets through asks for at most three times the content, within bounds. */
  lemma AcceptedBound(rs: seq<Range>, len: nat, out: seq<Range>)
    requires rs != [] && Validate(rs, len, [], 0).Accepted?
    requires Coalesced(out, Validate(rs, len, [], 0).ranges, len)
    ensures out != [] && AllInBounds(out, len) && Sum(out) <= 3 * len
  {
    assert |Cover([], len)| == 0 by { assert Cover([], len) == {}; }
    ValidateBound(rs, len, [], 0);
    CoalesceKeeps(out, Validate(rs, len, [], 0).ranges, len);
  }

  /** A suffix range is accepted on its own exactly when it asks for 1 to `len` bytes. Section 14.1.2 of
      RFC 9110 would give a longer suffix the whole content. */
  lemma SuffixAccepted(n: nat, len: nat)
    ensures Validate([Range(-1, n)], len, [], 0).Accepted? <==> 1 <= n <= len
  {
    var rs := [Range(-1, n)];
    assert rs[1..] == [];
    var r := Normalize(rs[0], len);
    assert !OverlapsAny(r, []);
  }
}
