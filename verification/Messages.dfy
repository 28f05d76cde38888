/**
 The message path: POST and GET /conversations/:id/messages of the gateway
 (gateway_service/src/main.cpp:459-542, 545-616), persist_and_broadcast and GetHistory of the
 messaging service (services/messaging_service/src/messaging_service.cpp:69-171), and
 insertMessage and getHistory of its database (services/messaging_service/src/db/Database.cpp:107-292).
 */
module HistorySpec {
  import opened Common
  import opened Base64Spec

  /** One stored message, as its sender meant it. */
  datatype Entry = Entry(key: string, sender: Option<int>, content: seq<byte>)

  /** The empty key asks for the messages of all conversations. */
  predicate Selects(key: string, e: Entry) {
    key == "" || e.key == key
  }

  /** The messages of one conversation, oldest first. */
  function Select(log: seq<Entry>, key: string): seq<Entry> {
    if log == [] then []
    else
      var e := log[|log| - 1];
      Select(log[..|log| - 1], key) + if Selects(key, e) then [e] else []
  }

  function Last<T>(s: seq<T>, n: nat): seq<T> {
    if |s| <= n then s else s[|s| - n..]
  }

  /** What a reader of `key` with this limit is shown: the newest messages, oldest first. */
  function History(log: seq<Entry>, key: string, limit: nat): seq<Entry> {
    Last(Select(log, key), limit)
  }

  function Reverse<T>(s: seq<T>): seq<T> {
    if s == [] then [] else Reverse(s[1..]) + [s[0]]
  }

  lemma {:induction false} ReverseAt<T>(s: seq<T>, k: nat)
    requires k < |s|
    ensures |Reverse(s)| == |s| && Reverse(s)[k] == s[|s| - 1 - k]
  {
    if |s| > 1 {
      ReverseAt(s[1..], if k < |s| - 1 then k else 0);
    }
  }

  lemma ReverseLength<T>(s: seq<T>)
    ensures |Reverse(s)| == |s|
  {
    if s != [] {
      ReverseAt(s, 0);
    }
  }

  lemma ReverseTwice<T>(s: seq<T>)
    ensures Reverse(Reverse(s)) == s
  {
    ReverseLength(s);
    ReverseLength(Reverse(s));
    forall k | 0 <= k < |s|
      ensures Reverse(Reverse(s))[k] == s[k]
    {
      ReverseAt(Reverse(s), k);
      ReverseAt(s, |s| - 1 - k);
    }
  }

  lemma {:induction false} ReversePlus<T>(a: seq<T>, x: T)
    ensures Reverse(a + [x]) == [x] + Reverse(a)
    decreases |a|
  {
    if a == [] {
      assert [] + [x] == [x] && [x][1..] == [];
    } else {
      assert (a + [x])[1..] == a[1..] + [x];
      ReversePlus(a[1..], x);
    }
  }

  lemma LastOfPlus<T>(s: seq<T>, x: T, n: nat)
    requires n > 0
    ensures Last(s + [x], n) == Last(s, n - 1) + [x]
  {
  }

  /** ORDER BY id DESC LIMIT n, on one conversation or on all. */
  function NewestFirst(log: seq<Entry>, key: string, n: nat): seq<Entry>
    decreases |log|
  {
    if log == [] || n == 0 then []
    else
      var (front, e) := (log[..|log| - 1], log[|log| - 1]);
      if Selects(key, e) then [e] + NewestFirst(front, key, n - 1) else NewestFirst(front, key, n)
  }

  /** The query returns the history backwards. */
  lemma {:induction false} NewestFirstIsReversed(log: seq<Entry>, key: string, n: nat)
    ensures NewestFirst(log, key, n) == Reverse(History(log, key, n))
    decreases |log|
  {
    hide Selects;
    var sel := Select(log, key);
    if n == 0 {
      assert Last(sel, 0) == [];
    } else if log != [] {
      var (front, e) := (log[..|log| - 1], log[|log| - 1]);
      if Selects(key, e) {
        NewestFirstIsReversed(front, key, n - 1);
        LastOfPlus(Select(front, key), e, n);
        ReversePlus(Last(Select(front, key), n - 1), e);
      } else {
        NewestFirstIsReversed(front, key, n);
        assert Select(front, key) + [] == Select(front, key);
      }
    }
  }

  lemma {:induction false} SelectShorter(log: seq<Entry>, key: string)
    ensures |Select(log, key)| <= |log|
    decreases |log|
  {
    if log != [] {
      SelectShorter(log[..|log| - 1], key);
    }
  }
}

module MessagePath {
  import opened Common
  import opened Base64Spec
  import Base64Properties
  import Base64Code
  import opened Text
  import opened Decimal
  import opened ConversationKeys
  import opened HistorySpec

  datatype Row = Row(id: int, conversation: int, sender: Option<int>, contentB64: string)

  /** The tables conversations, messages and conversation_participant; every call succeeds and titles
      are conversation keys. `log` is what the rows mean. */
  class Database {
    var conversations: map<string, int>
    var messages: seq<Row>
    var participants: set<(int, int)>
    var nextConversation: int
    var nextMessage: int
    ghost var log: seq<Entry>

    ghost predicate RowMeans(r: Row, e: Entry)
      reads this
    {
      && e.key in conversations && conversations[e.key] == r.conversation
      && r.sender == e.sender && r.contentB64 == Encode(e.content)
    }

    ghost predicate Valid()
      reads this
    {
      && (forall k :: k in conversations ==> conversations[k] < nextConversation)
      && (forall k, l :: k in conversations && l in conversations && conversations[k] == conversations[l] ==> k == l)
      && |log| == |messages|
      && (forall i :: 0 <= i < |messages| ==> RowMeans(messages[i], log[i]) && messages[i].id < nextMessage)
      && (forall i, j :: 0 <= i < j < |messages| ==> messages[i].id < messages[j].id)
    }

    constructor ()
      ensures Valid() && log == []
    {
      conversations, messages, participants := map[], [], {};
      nextConversation, nextMessage := 1, 1;
      log := [];
    }

    method EnsureConversation(key: string) returns (id: int)
      requires Valid()
      modifies this`conversations, this`nextConversation
      ensures Valid() && key in conversations && conversations[key] == id
      ensures forall k :: k in old(conversations) ==> k in conversations && conversations[k] == old(conversations)[k]
      ensures forall k :: k in conversations ==> k in old(conversations) || k == key
    {
      if key in conversations {
        return conversations[key];
      }
      id := nextConversation;
      conversations := conversations[key := id];
      nextConversation := nextConversation + 1;
    }

    /** insertMessage; `content` is what `contentB64` encodes. */
    method InsertMessage(key: string, sender: Option<int>, contentB64: string, ghost content: seq<byte>)
      returns (id: int)
      requires Valid() && contentB64 == Encode(content)
      modifies this
      ensures Valid() && log == old(log) + [Entry(key, sender, content)]
      ensures key in conversations
      ensures participants == old(participants) +
                match ParseDmKey(key)
                case NoPair => {}
                case Pair(a, b) => {(a, conversations[key]), (b, conversations[key])}
      ensures forall r :: r in old(messages) ==> r.id < id
    {
      hide Encode;
      var conversation := EnsureConversation(key);
      match ParseDmKey(key) {
        case NoPair =>
        case Pair(a, b) => participants := participants + {(a, conversation)} + {(b, conversation)};
      }
      id := nextMessage;
      messages := messages + [Row(id, conversation, sender, contentB64)];
      nextMessage := nextMessage + 1;
      log := log + [Entry(key, sender, content)];
    }

    method IsParticipant(conversation: int, user: int) returns (r: bool)
      ensures r == ((user, conversation) in participants)
    {
      r := (user, conversation) in participants;
    }

    lemma RowForEach()
      requires Valid()
      ensures |log| == |messages|
    {
      hide Encode;
    }

    lemma RowSelected(key: string, i: nat)
      requires Valid() && i < |messages| && (key == "" || key in conversations)
      ensures i < |log| && RowMeans(messages[i], log[i])
      ensures key == "" || messages[i].conversation == conversations[key] <==> Selects(key, log[i])
    {
      hide Encode;
    }

    lemma UnknownConversation(key: string, n: nat)
      requires Valid() && key != "" && key !in conversations
      ensures NewestFirst(log, key, n) == []
    {
      hide Encode, NewestFirst;
      forall i | 0 <= i < |log|
        ensures log[i].key != key
      {
        assert RowMeans(messages[i], log[i]);
      }
      NoSuchConversation(log, key, n);
    }

    /** getHistory: newest first, at most `limit` rows if that is positive. */
    method GetHistory(key: string, limit: int) returns (rows: seq<Row>, ghost entries: seq<Entry>)
      requires Valid()
      ensures entries == NewestFirst(log, key, if limit > 0 then limit else |log|)
      ensures |rows| == |entries| && forall i :: 0 <= i < |rows| ==> RowMeans(rows[i], entries[i])
    {
      hide Encode, NewestFirst, Selects, RowMeans, Valid;
      RowForEach();
      rows, entries := [], [];
      var n := if limit > 0 then limit else |messages|;
      if key != "" && key !in conversations {
        UnknownConversation(key, n);
        return;
      }
      var conversation := if key == "" then 0 else conversations[key];
      var i := |messages|;
      assert log[..|log|] == log;
      while i > 0 && |rows| < n
        invariant 0 <= i <= |messages| && |rows| == |entries| <= n
        invariant forall k :: 0 <= k < |rows| ==> RowMeans(rows[k], entries[k])
        invariant NewestFirst(log, key, n) == entries + NewestFirst(log[..i], key, n - |rows|)
      {
        i := i - 1;
        NewestStep(entries, log, key, i, n - |rows|);
        RowSelected(key, i);
        if key == "" || messages[i].conversation == conversation {
          rows, entries := rows + [messages[i]], entries + [log[i]];
        }
      }
      NewestEnd(entries, log[..i], key, n - |rows|);
    }
  }

  lemma NewestStep(entries: seq<Entry>, log: seq<Entry>, key: string, i: nat, n: nat)
    requires i < |log| && n > 0
    ensures entries + NewestFirst(log[..i + 1], key, n) ==
            if Selects(key, log[i]) then entries + [log[i]] + NewestFirst(log[..i], key, n - 1)
            else entries + NewestFirst(log[..i], key, n)
  {
    assert log[..i + 1][..i] == log[..i];
  }

  lemma NewestEnd(entries: seq<Entry>, log: seq<Entry>, key: string, n: nat)
    requires log == [] || n == 0
    ensures entries + NewestFirst(log, key, n) == entries
  {
  }

  lemma {:induction false} NoSuchConversation(log: seq<Entry>, key: string, n: nat)
    requires key != "" && forall i :: 0 <= i < |log| ==> log[i].key != key
    ensures NewestFirst(log, key, n) == []
    decreases |log|
  {
    if log != [] && n > 0 {
      NoSuchConversation(log[..|log| - 1], key, n);
    }
  }

  /** What the reader gets of one message. */
  datatype Shown = Shown(sender: Option<int>, content: seq<byte>)

  function Show(entries: seq<Entry>): seq<Shown> {
    if entries == [] then [] else [Shown(entries[0].sender, entries[0].content)] + Show(entries[1..])
  }

  /** parse_int of the messaging service. */
  function ParseInt(s: string): Option<int> {
    match Parse(s, INT_MIN, INT_MAX)
    case Invalid => None
    case Number(n) => Some(n)
  }

  /** A printed id is read back exactly when it has 32 bits. */
  lemma ParseIntText(n: int)
    ensures ParseInt(ToText(n)) == if INT_MIN <= n <= INT_MAX then Some(n) else None
  {
    hide Parse, ToText;
    ParseToText(n, INT_MIN, INT_MAX);
  }

  /** The characters of a stored text as bytes. */
  function Raw(text: string): seq<byte> {
    seq(|text|, i requires 0 <= i < |text| => (text[i] as int % 256) as byte)
  }

  lemma RawBytes(text: string)
    ensures |Raw(text)| == |text|
    ensures forall i :: 0 <= i < |text| && text[i] as int < 256 ==> Raw(text)[i] as int == text[i] as int
  {
  }

  /** safe_b64_decode: what was encoded is decoded, and what is not Base64 is passed on as it is. */
  method SafeB64Decode(b64: string) returns (content: seq<byte>)
    ensures forall s :: b64 == Encode(s) ==> content == s
    ensures Decode(b64) == Decoded.Invalid ==> content == Raw(b64)
    ensures Decode(b64) == Decoded.Invalid ==>
              |content| == |b64| && forall i :: 0 <= i < |b64| && b64[i] as int < 256 ==> content[i] as int == b64[i] as int
  {
    hide Encode, Decode, Raw;
    var r := Base64Code.DecodeString(b64);
    RawBytes(b64);
    forall s | b64 == Encode(s)
      ensures r == Bytes(s)
    {
      Base64Properties.RoundTrip(s);
    }
    match r {
      case Bytes(bytes) => content := bytes;
      case Invalid => content := Raw(b64);
    }
  }

  function RoomId(conversation: string): Option<int> {
    if StartsWith(conversation, ROOM) then ParseInt(conversation[|ROOM|..]) else None
  }

  /** Rooms are for their participants; a requester without a name is not asked. */
  predicate MayRead(participants: set<(int, int)>, requester: string, conversation: string) {
    match (ParseInt(requester), RoomId(conversation))
    case (Some(user), Some(room)) => (user, room) in participants
    case _ => true
  }

  /** A room is read by its participants and by nobody else who has a name. */
  lemma RoomReaders(participants: set<(int, int)>, user: int, room: int)
    requires INT_MIN <= user <= INT_MAX && INT_MIN <= room <= INT_MAX
    ensures MayRead(participants, ToText(user), "room:" + ToText(room)) <==> (user, room) in participants
  {
    hide ToText, ParseInt;
    var key := "room:" + ToText(room);
    assert key[..|ROOM|] == ROOM && key[|ROOM|..] == ToText(room);
    ParseIntText(user);
    ParseIntText(room);
  }

  /** Everything else is open: to all names, and rooms to requesters without one. */
  lemma OthersOpen(participants: set<(int, int)>, requester: string, conversation: string)
    requires !StartsWith(conversation, "room:") || requester == ""
    ensures MayRead(participants, requester, conversation)
  {
    if requester == "" {
      assert SkipSpace(requester) == "";
    }
  }

  class MessagingService {
    const db: Database

    constructor (db: Database)
      ensures this.db == db
    {
      this.db := db;
    }

    /** SendMessage and persist_and_broadcast; false is INVALID_ARGUMENT. */
    method SendMessage(conversation: string, sender: string, ciphertext: seq<byte>) returns (ok: bool)
      requires db.Valid()
      modifies db
      ensures db.Valid() && ok == (conversation != "")
      ensures db.log == if ok then old(db.log) + [Entry(conversation, ParseInt(sender), ciphertext)] else old(db.log)
    {
      if conversation == "" {
        return false;
      }
      var b64 := Base64Code.EncodeGroups(ciphertext);
      var id := db.InsertMessage(conversation, ParseInt(sender), b64, ciphertext);
      return true;
    }

    /** GetHistory, newest first; false is PERMISSION_DENIED. */
    method GetHistory(conversation: string, limit: int, requester: string) returns (ok: bool, shown: seq<Shown>)
      requires db.Valid()
      ensures ok == MayRead(db.participants, requester, conversation)
      ensures shown == if ok then Show(NewestFirst(db.log, conversation, if limit > 0 then limit else |db.log|)) else []
    {
      hide Encode, NewestFirst;
      if requester != "" && conversation != "" {
        var (user, room) := (ParseInt(requester), RoomId(conversation));
        if user.Some? && room.Some? {
          var member := db.IsParticipant(room.value, user.value);
          if !member {
            return false, [];
          }
        }
      }
      var rows, entries := db.GetHistory(conversation, limit);
      shown := [];
      var i := 0;
      assert entries[0..] == entries;
      while i < |rows|
        invariant 0 <= i <= |rows| == |entries|
        invariant shown + Show(entries[i..]) == Show(entries)
      {
        assert db.RowMeans(rows[i], entries[i]);
        var content := SafeB64Decode(rows[i].contentB64);
        assert entries[i..][1..] == entries[i + 1..];
        shown := shown + [Shown(rows[i].sender, content)];
        i := i + 1;
      }
      ok := true;
    }
  }

  /** The limit parameter: `number` is what stoi makes of it, None if absent or not a number. */
  function ClampLimit(number: Option<int>): nat {
    match number
    case None => 50
    case Some(n) => if n < 1 then 1 else if n > 500 then 500 else n
  }

  /** The limit is the number in 1..500 nearest to the one asked for, and 50 if none is. */
  lemma ClampNearest(n: int, m: int)
    requires 1 <= m <= 500
    ensures ClampLimit(None) == 50 && 1 <= ClampLimit(Some(n)) <= 500
    ensures var c := ClampLimit(Some(n)); (if c <= n then n - c else c - n) <= if m <= n then n - m else m - n
  {
  }

  datatype HttpStatus = HTTP_200 | HTTP_400 | HTTP_502

  /** The conversation a reader asks for; without a token the path is the key. */
  function ListKey(user: Option<string>, conversation: string): string {
    if user.Some? then KeyFor(user.value, conversation) else conversation
  }

  function ListStatus(participants: set<(int, int)>, user: Option<string>, conversation: string): HttpStatus {
    if conversation == "" then HTTP_400
    else if user.Some? && !MayRead(participants, user.value, ListKey(user, conversation)) then HTTP_502
    else HTTP_200
  }

  class Gateway {
    const messaging: MessagingService

    constructor (messaging: MessagingService)
      ensures this.messaging == messaging
    {
      this.messaging := messaging;
    }

    /** POST /conversations/:id/messages of an authenticated user; false is one of its 400s. */
    method Post(user: string, conversation: string, content: seq<byte>) returns (ok: bool)
      requires messaging.db.Valid()
      modifies messaging.db
      ensures messaging.db.Valid()
      ensures ok == (conversation != "" && content != [])
      ensures messaging.db.log == PostTo(old(messaging.db.log), user, conversation, content)
    {
      if conversation == "" || content == [] {
        return false;
      }
      KeyNotEmpty(user, conversation);
      ok := messaging.SendMessage(KeyFor(user, conversation), user, content);
    }

    /** GET /conversations/:id/messages: the reversal of the newest-first list. */
    method List(user: Option<string>, conversation: string, number: Option<int>)
      returns (status: HttpStatus, shown: seq<Shown>)
      requires messaging.db.Valid()
      ensures status == ListStatus(messaging.db.participants, user, conversation)
      ensures shown == if status == HTTP_200
                       then Show(History(messaging.db.log, ListKey(user, conversation), ClampLimit(number))) else []
      ensures status == HTTP_400 <==> conversation == ""
      ensures status == HTTP_502 <==>
                && conversation != "" && user.Some?
                && !MayRead(messaging.db.participants, user.value, KeyFor(user.value, conversation))
      ensures user.None? && conversation != "" ==>
                status == HTTP_200 && shown == Show(History(messaging.db.log, conversation, ClampLimit(number)))
    {
      if conversation == "" {
        return HTTP_400, [];
      }
      var (key, limit) := (ListKey(user, conversation), ClampLimit(number));
      var ok, newest := messaging.GetHistory(key, limit, if user.Some? then user.value else "");
      if !ok {
        return HTTP_502, [];
      }
      shown := [];
      var i := |newest|;
      assert newest[i..] == [];
      while i > 0
        invariant 0 <= i <= |newest| && shown == Reverse(newest[i..])
      {
        i := i - 1;
        assert newest[i..][1..] == newest[i + 1..];
        shown := shown + [newest[i]];
      }
      assert newest[0..] == newest;
      HistoryShown(messaging.db.log, key, limit);
      status := HTTP_200;
    }
  }

  lemma KeyNotEmpty(user: string, conversation: string)
    requires conversation != ""
    ensures KeyFor(user, conversation) != ""
  {
  }

  lemma {:induction false} ShowReverse(entries: seq<Entry>)
    ensures Show(Reverse(entries)) == Reverse(Show(entries))
    decreases |entries|
  {
    if entries != [] {
      ShowReverse(entries[1..]);
      ShowPlus(Reverse(entries[1..]), entries[0]);
      assert Show(entries)[1..] == Show(entries[1..]);
    }
  }

  lemma {:induction false} ShowPlus(entries: seq<Entry>, e: Entry)
    ensures Show(entries + [e]) == Show(entries) + [Shown(e.sender, e.content)]
    decreases |entries|
  {
    if entries == [] {
      assert [] + [e] == [e] && [e][1..] == [];
    } else {
      assert (entries + [e])[1..] == entries[1..] + [e];
      ShowPlus(entries[1..], e);
    }
  }

  /** Reversing the newest-first answer gives the history, oldest first. */
  lemma HistoryShown(log: seq<Entry>, key: string, limit: nat)
    ensures Reverse(Show(NewestFirst(log, key, limit))) == Show(History(log, key, limit))
  {
    NewestFirstIsReversed(log, key, limit);
    ShowReverse(History(log, key, limit));
    ReverseTwice(Show(History(log, key, limit)));
  }

  // ---- whole runs ----

  datatype Posting = Posting(user: string, conversation: string, content: seq<byte>)

  function PostTo(log: seq<Entry>, user: string, conversation: string, content: seq<byte>): seq<Entry> {
    if conversation == "" || content == [] then log
    else log + [Entry(KeyFor(user, conversation), ParseInt(user), content)]
  }

  /** The log after a run of posts. */
  function LogOf(posts: seq<Posting>): seq<Entry> {
    if posts == [] then []
    else
      var p := posts[|posts| - 1];
      PostTo(LogOf(posts[..|posts| - 1]), p.user, p.conversation, p.content)
  }

  /** Accepted, and addressed to the conversation of `a` and `b`. */
  predicate Between(p: Posting, a: int, b: int) {
    && p.conversation != "" && p.content != []
    && (|| (Id(p.conversation).Number? && Id(p.user).Number? && SamePair(Id(p.user).value, Id(p.conversation).value, a, b))
        || p.conversation == PairKey(a, b))
  }

  /** Who wrote it, for readers: ids of 32 bits are kept. */
  function Writer(user: string): Option<int> {
    match Id(user)
    case Number(n) => if -0x8000_0000 <= n < 0x8000_0000 then Some(n) else None
    case Invalid => None
  }

  lemma WriterIsSender(user: string)
    ensures ParseInt(user) == Writer(user)
  {
    hide SkipSpace, NatValue, AllDigits;
  }

  /** What was said between `a` and `b`, in order. */
  function Said(posts: seq<Posting>, a: int, b: int): seq<Shown> {
    if posts == [] then []
    else
      var p := posts[|posts| - 1];
      Said(posts[..|posts| - 1], a, b) + if Between(p, a, b) then [Shown(Writer(p.user), p.content)] else []
  }

  ghost predicate NumericUsers(posts: seq<Posting>) {
    forall i :: 0 <= i < |posts| ==> Id(posts[i].user).Number?
  }

  lemma {:induction false} SelectSaid(posts: seq<Posting>, a: int, b: int)
    requires NumericUsers(posts) && a <= b
    ensures Show(Select(LogOf(posts), PairKey(a, b))) == Said(posts, a, b)
    decreases |posts|
  {
    if posts != [] {
      var (front, p) := (posts[..|posts| - 1], posts[|posts| - 1]);
      SelectSaid(front, a, b);
      ReachesPair(p.user, p.conversation, a, b);
      WriterIsSender(p.user);
      SelectPost(LogOf(front), p, PairKey(a, b));
    }
  }

  lemma SelectPost(log: seq<Entry>, p: Posting, key: string)
    requires key != ""
    ensures Show(Select(PostTo(log, p.user, p.conversation, p.content), key)) ==
            Show(Select(log, key)) +
            if p.conversation != "" && p.content != [] && KeyFor(p.user, p.conversation) == key
            then [Shown(ParseInt(p.user), p.content)] else []
  {
    hide KeyFor, ParseInt;
    var next := PostTo(log, p.user, p.conversation, p.content);
    if next != log {
      assert next[..|next| - 1] == log;
      ShowPlus(Select(log, key), next[|next| - 1]);
      assert Select(log, key) + [] == Select(log, key);
    }
  }

  lemma LastOfTail<T>(s: seq<T>, n: nat)
    ensures |s| > n ==> Last(s, n) == Last(s[1..], n)
    ensures |s| <= n ==> Last(s, n) == s
  {
  }

  lemma {:induction false} ShowLast(entries: seq<Entry>, n: nat)
    ensures |Show(entries)| == |entries| && Show(Last(entries, n)) == Last(Show(entries), n)
    decreases |entries|
  {
    hide Last;
    LastOfTail(entries, n);
    if entries != [] {
      ShowLast(entries[1..], n);
      assert Show(entries)[1..] == Show(entries[1..]);
    }
    LastOfTail(Show(entries), n);
  }

  /** After any run of posts by numeric users, either of the two, naming the other, is shown the same list:
      the last `limit` messages said between them, in order and byte for byte. */
  lemma PairHistory(posts: seq<Posting>, userA: string, userB: string, limit: nat)
    requires NumericUsers(posts) && Id(userA).Number? && Id(userB).Number?
    ensures var (a, b) := (Id(userA).value, Id(userB).value);
            var shown := Show(History(LogOf(posts), KeyFor(userA, userB), limit));
            shown == Show(History(LogOf(posts), KeyFor(userB, userA), limit))
            && shown == Last(if a <= b then Said(posts, a, b) else Said(posts, b, a), limit)
  {
    KeySymmetric(userA, userB);
    NumericKeys(userA, userB);
    var (a, b) := (Id(userA).value, Id(userB).value);
    var (lo, hi) := if a <= b then (a, b) else (b, a);
    SelectSaid(posts, lo, hi);
    ShowLast(Select(LogOf(posts), PairKey(lo, hi)), limit);
  }

  lemma NumericKeys(userA: string, userB: string)
    requires Id(userA).Number? && Id(userB).Number?
    ensures var (a, b) := (Id(userA).value, Id(userB).value);
            KeyFor(userA, userB) == KeyFor(userB, userA) == if a <= b then PairKey(a, b) else PairKey(b, a)
  {
    hide Parse, PairKey;
    if StartsWith(userA, ROOM) { RoomIsNotNumeric(userA); }
    if StartsWith(userB, ROOM) { RoomIsNotNumeric(userB); }
  }

  /** A pair's conversation is no room, so its readers are not refused. */
  lemma PairIsRead(participants: set<(int, int)>, userA: string, userB: string, a: int, b: int)
    requires Id(userB).Number? && KeyFor(userA, userB) == PairKey(a, b)
    ensures ListStatus(participants, Some(userA), userB) == HTTP_200
    ensures ListKey(Some(userA), userB) == KeyFor(userA, userB)
  {
    hide ToText, Parse;
    assert PairKey(a, b)[0] == 'd';
    IdIsNotEmpty(userB);
  }

  lemma IdIsNotEmpty(s: string)
    requires Id(s).Number?
    ensures s != ""
  {
  }

  lemma BothRead(participants: set<(int, int)>, userA: string, userB: string)
    requires Id(userA).Number? && Id(userB).Number?
    ensures ListStatus(participants, Some(userA), userB) == ListStatus(participants, Some(userB), userA) == HTTP_200
    ensures ListKey(Some(userA), userB) == KeyFor(userA, userB) && ListKey(Some(userB), userA) == KeyFor(userB, userA)
  {
    hide KeyFor, ListStatus, ListKey, PairKey, Id;
    NumericKeys(userA, userB);
    var (a, b) := (Id(userA).value, Id(userB).value);
    var (lo, hi) := if a <= b then (a, b) else (b, a);
    PairIsRead(participants, userA, userB, lo, hi);
    PairIsRead(participants, userB, userA, lo, hi);
  }

  /** The whole run on the running services: post everything, then both sides read. */
  method Conversation(posts: seq<Posting>, userA: string, userB: string, number: Option<int>)
    returns (forA: seq<Shown>, forB: seq<Shown>)
    requires NumericUsers(posts) && Id(userA).Number? && Id(userB).Number?
    ensures var (a, b) := (Id(userA).value, Id(userB).value);
            forA == forB == Last(if a <= b then Said(posts, a, b) else Said(posts, b, a), ClampLimit(number))
  {
    hide KeyFor, ListStatus, ListKey, Id, History, Said, Show, ClampLimit;
    var db := new Database();
    var messaging := new MessagingService(db);
    var gateway := new Gateway(messaging);
    var i := 0;
    while i < |posts|
      invariant 0 <= i <= |posts| && fresh(db) && db.Valid() && gateway.messaging == messaging && messaging.db == db
      invariant db.log == LogOf(posts[..i])
    {
      var ok := gateway.Post(posts[i].user, posts[i].conversation, posts[i].content);
      assert posts[..i + 1][..i] == posts[..i];
      i := i + 1;
    }
    assert posts[..i] == posts;
    BothRead(db.participants, userA, userB);
    var statusA, statusB;
    statusA, forA := gateway.List(Some(userA), userB, number);
    statusB, forB := gateway.List(Some(userB), userA, number);
    PairHistory(posts, userA, userB, ClampLimit(number));
  }
}
