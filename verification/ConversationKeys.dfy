/**
 Conversation keys: dm_conversation_key and the key choice of the gateway
 (gateway_service/src/main.cpp:94-127, 484-487, 582-586) and parse_dm_key
 (services/messaging_service/src/db/Database.cpp:18-38).
 */
module ConversationKeys {
  import opened Common
  import opened Text
  import opened Decimal

  const DM: string := "dm:"
  const ROOM: string := "room:"

  /** try_parse_int64. */
  function Id(s: string): Parsed {
    Parse(s, INT64_MIN, INT64_MAX)
  }

  function PairKey(a: int, b: int): string {
    DM + ToText(a) + ":" + ToText(b)
  }

  /** std::string's `<=`. */
  predicate LexLe(a: string, b: string) {
    a == "" || (b != "" && (a[0] < b[0] || (a[0] == b[0] && LexLe(a[1..], b[1..]))))
  }

  /** dm_conversation_key. */
  function DmKey(userA: string, userB: string): string {
    var (a, b) := (Id(userA), Id(userB));
    if a.Number? && b.Number? then
      if a.value > b.value then PairKey(b.value, a.value) else PairKey(a.value, b.value)
    else if LexLe(userA, userB) then DM + userA + ":" + userB
    else DM + userB + ":" + userA
  }

  /** The key under which both handlers file a conversation of `user`. */
  function KeyFor(user: string, conversation: string): string {
    if !StartsWith(conversation, ROOM) && Id(conversation).Number? then DmKey(user, conversation) else conversation
  }

  datatype Pair = NoPair | Pair(a: int, b: int)

  /** parse_dm_key, for the 32-bit ids of the tables. */
  function ParseDmKey(key: string): Pair {
    if !StartsWith(key, DM) then NoPair
    else
      var rest := key[|DM|..];
      var pos := IndexOf(rest, ':');
      if pos == |rest| then NoPair
      else
        match (Parse(rest[..pos], INT_MIN, INT_MAX), Parse(rest[pos + 1..], INT_MIN, INT_MAX))
        case (Number(a), Number(b)) => Pair(a, b)
        case _ => NoPair
  }

  // ---- properties ----

  lemma {:induction false} LexTotal(a: string, b: string)
    ensures LexLe(a, b) || LexLe(b, a)
    ensures LexLe(a, b) && LexLe(b, a) ==> a == b
    decreases |a|
  {
    if a != "" && b != "" {
      LexTotal(a[1..], b[1..]);
      if a[0] == b[0] && a[1..] == b[1..] {
        assert a == [a[0]] + a[1..] && b == [b[0]] + b[1..];
      }
    }
  }

  /** Either side computes the same key, for any two strings. */
  lemma KeySymmetric(userA: string, userB: string)
    ensures DmKey(userA, userB) == DmKey(userB, userA)
  {
    hide Parse, PairKey, LexLe;
    LexTotal(userA, userB);
  }

  lemma PairKeyParts(a: int, b: int)
    ensures var rest := PairKey(a, b)[|DM|..];
            StartsWith(PairKey(a, b), DM) && rest == ToText(a) + ":" + ToText(b)
            && IndexOf(rest, ':') == |ToText(a)| < |rest|
            && rest[..|ToText(a)|] == ToText(a) && rest[|ToText(a)| + 1..] == ToText(b)
  {
    var (s, t) := (ToText(a), ToText(b));
    var rest := s + ":" + t;
    assert PairKey(a, b) == DM + rest;
    ToTextClean(a, ':');
    IndexOfIs(rest, ':', |s|);
  }

  /** The key names its pair: no two pairs share one. */
  lemma PairKeyInjective(a: int, b: int, c: int, d: int)
    requires PairKey(a, b) == PairKey(c, d)
    ensures a == c && b == d
  {
    PairKeyParts(a, b);
    PairKeyParts(c, d);
    ToTextInjective(a, c);
    ToTextInjective(b, d);
  }

  /** The database reads the pair back, smaller id first, exactly when both ids have 32 bits. */
  lemma PairKeyParses(a: int, b: int)
    ensures ParseDmKey(PairKey(a, b)) ==
            if INT_MIN <= a <= INT_MAX && INT_MIN <= b <= INT_MAX then Pair(a, b) else NoPair
  {
    PairKeyParts(a, b);
    ParseToText(a, INT_MIN, INT_MAX);
    ParseToText(b, INT_MIN, INT_MAX);
  }

  predicate SamePair(a: int, b: int, c: int, d: int) {
    (a == c && b == d) || (a == d && b == c)
  }

  /** A post reaches the conversation of `a` and `b` exactly when its two ids are theirs, in either order
      and any spelling, or when the conversation is named by its key. */
  lemma ReachesPair(user: string, conversation: string, a: int, b: int)
    requires Id(user).Number? && a <= b
    ensures KeyFor(user, conversation) == PairKey(a, b) <==>
            || (Id(conversation).Number? && SamePair(Id(user).value, Id(conversation).value, a, b))
            || conversation == PairKey(a, b)
  {
    KeyIsNotNumeric(a, b);
    if StartsWith(conversation, ROOM) {
      RoomIsNotNumeric(conversation);
    }
    if Id(conversation).Number? {
      var (u, c) := (Id(user).value, Id(conversation).value);
      var (lo, hi) := if u > c then (c, u) else (u, c);
      if PairKey(lo, hi) == PairKey(a, b) {
        PairKeyInjective(lo, hi, a, b);
      }
    }
  }

  lemma KeyIsNotNumeric(a: int, b: int)
    ensures Id(PairKey(a, b)).Invalid?
  {
    var k := PairKey(a, b);
    assert k[0] == 'd' && k[1] == 'm';
    assert SkipSpace(k) == k;
    assert !IsDigit(k[0]);
  }

  lemma RoomIsNotNumeric(s: string)
    requires StartsWith(s, ROOM)
    ensures Id(s).Invalid?
  {
    assert s[0] == s[..|ROOM|][0] == 'r';
    assert SkipSpace(s) == s && !IsDigit(s[0]);
  }

  /** What numeric users ask for under numeric ids is one conversation exactly when the pairs are the same. */
  lemma KeyIsThePair(user: string, conversation: string, user2: string, conversation2: string)
    requires Id(user).Number? && Id(conversation).Number? && Id(user2).Number? && Id(conversation2).Number?
    ensures KeyFor(user, conversation) == KeyFor(user2, conversation2) <==>
            SamePair(Id(user).value, Id(conversation).value, Id(user2).value, Id(conversation2).value)
  {
    hide Parse, PairKey;
    if StartsWith(conversation2, ROOM) {
      RoomIsNotNumeric(conversation2);
    }
    var (u, c) := (Id(user2).value, Id(conversation2).value);
    var (lo, hi) := if u > c then (c, u) else (u, c);
    assert KeyFor(user2, conversation2) == PairKey(lo, hi);
    KeyIsNotNumeric(lo, hi);
    ReachesPair(user, conversation, lo, hi);
  }

  /** The key of a pair is "dm:", the smaller id, a colon and the larger one. */
  lemma KeyText(a: int, b: int)
    requires INT64_MIN <= a <= b <= INT64_MAX
    ensures DmKey(ToText(b), ToText(a)) == DmKey(ToText(a), ToText(b)) == "dm:" + ToText(a) + ":" + ToText(b)
  {
    hide ToText, Parse;
    ParseToText(a, INT64_MIN, INT64_MAX);
    ParseToText(b, INT64_MIN, INT64_MAX);
  }

  /** A path that is not a number is the key itself, rooms among them. */
  lemma OtherPathsAreKeys(user: string, conversation: string)
    requires Id(conversation).Invalid? || StartsWith(conversation, "room:")
    ensures KeyFor(user, conversation) == conversation
  {
  }

  /** The key of other names is "dm:" and the two names, the one first that is smaller where they first differ. */
  lemma NameText(a: string, b: string) returns (x: string, y: string, k: nat)
    requires Id(a).Invalid? || Id(b).Invalid?
    ensures (x, y) in {(a, b), (b, a)} && DmKey(a, b) == "dm:" + x + ":" + y
    ensures k <= |x| && k <= |y| && x[..k] == y[..k] && (k == |x| || (k < |y| && x[k] < y[k]))
  {
    hide Parse, LexLe;
    LexTotal(a, b);
    x, y := if LexLe(a, b) then a else b, if LexLe(a, b) then b else a;
    k := FirstDifference(x, y);
  }

  lemma {:induction false} FirstDifference(x: string, y: string) returns (k: nat)
    requires LexLe(x, y)
    ensures k <= |x| && k <= |y| && x[..k] == y[..k] && (k == |x| || (k < |y| && x[k] < y[k]))
    decreases |x|
  {
    if x == "" || x[0] < y[0] {
      k := 0;
    } else {
      var n := FirstDifference(x[1..], y[1..]);
      k := n + 1;
      assert x[..k] == [x[0]] + x[1..][..n] && y[..k] == [y[0]] + y[1..][..n];
    }
  }

  /** Under the path of a numeric id, a user without one is filed under the pair of names, whichever side writes it. */
  lemma NamedUserKey(user: string, n: int)
    requires Id(user).Invalid? && INT64_MIN <= n <= INT64_MAX
    ensures KeyFor(user, ToText(n)) == DmKey(user, ToText(n)) == DmKey(ToText(n), user)
  {
    hide Parse, ToText, DmKey;
    ParseToText(n, INT64_MIN, INT64_MAX);
    KeySymmetric(user, ToText(n));
    if StartsWith(ToText(n), ROOM) { RoomIsNotNumeric(ToText(n)); }
  }
}
