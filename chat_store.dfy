/**
 * The browser-side chat store: what the client remembers about rooms,
 * messages, online users, typing indicators and unread counters, and the
 * reducers that compute the next state when the server pushes an event or
 * the user acts. Every reducer returns a new state; nothing is shared.
 */
module ChatStore {
  import opened Base

  // ---------------------------------------------------------------------
  // Filtering in order (Array.prototype.filter) and "replace by key"
  // ---------------------------------------------------------------------

  /** Filtering a concatenation filters each part. */
  lemma {:induction false} KeepConcat<T(!new)>(a: seq<T>, b: seq<T>, p: T -> bool)
    ensures Keep(a + b, p) == Keep(a, p) + Keep(b, p)
  {
    if a == [] {
      assert a + b == b;
    } else {
      assert (a + b)[1..] == a[1..] + b;
      KeepConcat(a[1..], b, p);
    }
  }

  /** `[...s.filter(y => key(y) !== key(x)), x]`: `x` replaces every element with its key. */
  function Upsert<T(==,!new), K(==)>(s: seq<T>, x: T, key: T -> K): (r: seq<T>)
    ensures |r| >= 1 && r[|r| - 1] == x
    ensures forall y :: y in r[..|r| - 1] <==> y in s && key(y) != key(x)
    ensures forall y :: multiset(r[..|r| - 1])[y] == if key(y) != key(x) then multiset(s)[y] else 0
    ensures forall y :: y in r <==> y == x || (y in s && key(y) != key(x))
    ensures SubsequenceOf(r[..|r| - 1], s)
    ensures DistinctBy(s, key) ==> DistinctBy(r, key)
  {
    var kept := Keep(s, y => key(y) != key(x));
    assert (kept + [x])[..|kept|] == kept;
    assert forall y :: y in kept + [x] <==> y in kept || y == x;
    KeepDistinctBy(s, y => key(y) != key(x), key);
    assert forall i :: 0 <= i < |kept| ==> kept[i] in kept;
    kept + [x]
  }

  /** `s.filter(y => key(y) !== k)`: every element with key `k` removed. */
  function RemoveKey<T(==,!new), K(==)>(s: seq<T>, k: K, key: T -> K): (r: seq<T>)
    ensures forall y :: y in r <==> y in s && key(y) != k
    ensures forall y :: multiset(r)[y] == if key(y) != k then multiset(s)[y] else 0
    ensures SubsequenceOf(r, s)
    ensures DistinctBy(s, key) ==> DistinctBy(r, key)
    ensures (forall y :: y in s ==> key(y) != k) ==> r == s
  {
    KeepDistinctBy(s, y => key(y) != k, key);
    Keep(s, y => key(y) != k)
  }

  /** Removing a key after it was upserted is the same as removing it at once. */
  lemma UpsertThenRemove<T(!new), K>(s: seq<T>, x: T, key: T -> K)
    ensures RemoveKey(Upsert(s, x, key), key(x), key) == RemoveKey(s, key(x), key)
  {
    var kept := Keep(s, y => key(y) != key(x));
    KeepConcat(kept, [x], y => key(y) != key(x));
    assert Keep([x], y => key(y) != key(x)) == [];
    assert Keep(kept, y => key(y) != key(x)) == kept;
  }

  // ---------------------------------------------------------------------
  // Entities as the client receives them
  // ---------------------------------------------------------------------

  /**
   * An online-user entry. Entries of the `users:online` list carry `id`;
   * the `user:online` and `user:offline` announcements carry `userId`.
   */
  datatype ClientUser = ClientUser(
    id: Option<UserId>,
    userId: Option<UserId>,
    username: string,
    avatar: Option<string>,
    status: Option<string>)

  datatype ClientRoom = ClientRoom(id: RoomId, name: string, memberCount: nat)

  datatype ClientMessage = ClientMessage(
    id: MessageId,
    senderId: UserId,
    content: string,
    kind: string,
    edited: bool)

  /** The user an entry stands for, whichever of the two shapes it has. */
  function UserKey(u: ClientUser): Option<UserId> {
    if u.id.Some? then u.id else u.userId
  }

  /** The `id` field alone (`u.id`), absent on announcements. */
  function IdField(u: ClientUser): Option<UserId> {
    u.id
  }

  function RoomKey(r: ClientRoom): RoomId {
    r.id
  }

  function MessageKey(m: ClientMessage): MessageId {
    m.id
  }

  // ---------------------------------------------------------------------
  // Unread counters: a JavaScript Map, kept as (room, count) pairs in
  // insertion order
  // ---------------------------------------------------------------------

  type UnreadCounts = seq<(RoomId, nat)>

  predicate DistinctKeys(c: UnreadCounts) {
    forall i, j :: 0 <= i < j < |c| ==> c[i].0 != c[j].0
  }

  predicate HasKey(c: UnreadCounts, room: RoomId) {
    exists i :: 0 <= i < |c| && c[i].0 == room
  }

  /** `unreadCounts.get(room) || 0` */
  function CountOf(c: UnreadCounts, room: RoomId): nat {
    if c == [] then 0
    else if c[0].0 == room then c[0].1
    else CountOf(c[1..], room)
  }

  /** `unreadCounts.set(room, n)`: an existing entry keeps its place, a new one goes last. */
  function SetCount(c: UnreadCounts, room: RoomId, n: nat): (r: UnreadCounts)
    ensures CountOf(r, room) == n
    ensures forall q :: q != room ==> CountOf(r, q) == CountOf(c, q)
  {
    if c == [] then [(room, n)]
    else if c[0].0 == room then [(room, n)] + c[1..]
    else [c[0]] + SetCount(c[1..], room, n)
  }

  /** After `set`, the map holds exactly its old keys and `room`. */
  lemma {:induction false} SetCountKeys(c: UnreadCounts, room: RoomId, n: nat)
    ensures forall q :: HasKey(SetCount(c, room, n), q) <==> HasKey(c, q) || q == room
  {
    var r := SetCount(c, room, n);
    if c == [] {
      assert r[0].0 == room;
    } else if c[0].0 == room {
      forall q
        ensures HasKey(r, q) <==> HasKey(c, q) || q == room
      {
        if HasKey(r, q) {
          var i :| 0 <= i < |r| && r[i].0 == q;
          assert c[i].0 == q;
        }
        if HasKey(c, q) {
          var i :| 0 <= i < |c| && c[i].0 == q;
          assert r[i].0 == q;
        }
        assert r[0].0 == room;
      }
    } else {
      var tail := SetCount(c[1..], room, n);
      SetCountKeys(c[1..], room, n);
      assert r == [c[0]] + tail;
      forall q
        ensures HasKey(r, q) <==> HasKey(c, q) || q == room
      {
        if HasKey(r, q) {
          var i :| 0 <= i < |r| && r[i].0 == q;
          if i > 0 {
            assert tail[i - 1].0 == q;
            assert HasKey(tail, q);
            if q != room {
              var k :| 0 <= k < |c[1..]| && c[1..][k].0 == q;
              assert c[k + 1].0 == q;
            }
          } else {
            assert c[0].0 == q;
          }
        }
        if HasKey(c, q) {
          var i :| 0 <= i < |c| && c[i].0 == q;
          if i > 0 {
            assert c[1..][i - 1].0 == q;
            assert HasKey(c[1..], q);
            assert HasKey(tail, q);
            var k :| 0 <= k < |tail| && tail[k].0 == q;
            assert r[k + 1].0 == q;
          } else {
            assert r[0].0 == q;
          }
        }
        if q == room {
          assert HasKey(tail, q);
          var k :| 0 <= k < |tail| && tail[k].0 == q;
          assert r[k + 1].0 == q;
        }
      }
    }
  }

  /** `set` never puts a key in the map twice. */
  lemma {:induction false} SetCountDistinct(c: UnreadCounts, room: RoomId, n: nat)
    requires DistinctKeys(c)
    ensures DistinctKeys(SetCount(c, room, n))
  {
    var r := SetCount(c, room, n);
    if c != [] && c[0].0 != room {
      var tail := SetCount(c[1..], room, n);
      SetCountDistinct(c[1..], room, n);
      SetCountKeys(c[1..], room, n);
      assert r == [c[0]] + tail;
      assert !HasKey(c[1..], c[0].0);
      forall i, j | 0 <= i < j < |r|
        ensures r[i].0 != r[j].0
      {
        if i == 0 {
          assert tail[j - 1].0 != c[0].0;
        } else {
          assert r[i] == tail[i - 1] && r[j] == tail[j - 1];
        }
      }
    }
  }

  /** `Array.from(unreadCounts.values()).reduce((total, count) => total + count, 0)` */
  function Total(c: UnreadCounts): nat {
    if c == [] then 0 else c[0].1 + Total(c[1..])
  }

  /** Setting one counter moves the total by exactly the difference. */
  lemma {:induction false} TotalSetCount(c: UnreadCounts, room: RoomId, n: nat)
    ensures Total(SetCount(c, room, n)) + CountOf(c, room) == Total(c) + n
  {
    if c != [] && c[0].0 != room {
      TotalSetCount(c[1..], room, n);
      assert SetCount(c, room, n)[1..] == SetCount(c[1..], room, n);
    }
  }

  /** No single counter exceeds the total. */
  lemma {:induction false} CountsWithinTotal(c: UnreadCounts)
    ensures forall q :: CountOf(c, q) <= Total(c)
  {
    if c != [] {
      CountsWithinTotal(c[1..]);
    }
  }

  // ---------------------------------------------------------------------
  // The store
  // ---------------------------------------------------------------------

  datatype ChatState = ChatState(
    messages: map<RoomId, seq<ClientMessage>>,
    rooms: seq<ClientRoom>,
    currentRoom: Option<ClientRoom>,
    onlineUsers: seq<ClientUser>,
    typingUsers: map<RoomId, seq<UserId>>,
    unreadCounts: UnreadCounts,
    isConnected: bool,
    isLoading: bool,
    error: Option<string>)

  /** The store as created. */
  const Initial := ChatState(map[], [], None, [], map[], [], false, false, None)

  /** `messages.get(roomId) || []` */
  function RoomLog(messages: map<RoomId, seq<ClientMessage>>, roomId: RoomId): seq<ClientMessage> {
    if roomId in messages then messages[roomId] else []
  }

  function GetMessagesForRoom(st: ChatState, roomId: RoomId): seq<ClientMessage> {
    RoomLog(st.messages, roomId)
  }

  function GetTypingUsersForRoom(st: ChatState, roomId: RoomId): seq<UserId> {
    if roomId in st.typingUsers then st.typingUsers[roomId] else []
  }

  function GetUnreadCountForRoom(st: ChatState, roomId: RoomId): nat {
    CountOf(st.unreadCounts, roomId)
  }

  /** The sum of all unread counters, bounding each of them. */
  function GetTotalUnreadCount(st: ChatState): (r: nat)
    ensures forall q :: GetUnreadCountForRoom(st, q) <= r
  {
    CountsWithinTotal(st.unreadCounts);
    Total(st.unreadCounts)
  }

  /** Whether the user is looking at `roomId` (`state.currentRoom?.id === roomId`). */
  predicate Viewing(st: ChatState, roomId: RoomId) {
    st.currentRoom.Some? && st.currentRoom.value.id == roomId
  }

  /** `currentCount + 1` stored back. */
  function Bumped(c: UnreadCounts, roomId: RoomId): (r: UnreadCounts)
    ensures CountOf(r, roomId) == CountOf(c, roomId) + 1
    ensures forall q :: q != roomId ==> CountOf(r, q) == CountOf(c, q)
    ensures Total(r) == Total(c) + 1
    ensures DistinctKeys(c) ==> DistinctKeys(r)
  {
    TotalSetCount(c, roomId, CountOf(c, roomId) + 1);
    if DistinctKeys(c) then
      SetCountDistinct(c, roomId, CountOf(c, roomId) + 1);
      SetCount(c, roomId, CountOf(c, roomId) + 1)
    else SetCount(c, roomId, CountOf(c, roomId) + 1)
  }

  // ----- online users -----

  /** `user:online` as the client is written: entries are matched on `u.id`. */
  function OnUserOnlineAsWritten(st: ChatState, user: ClientUser): (r: ChatState)
    ensures |r.onlineUsers| >= 1 && r.onlineUsers[|r.onlineUsers| - 1] == user
    ensures forall u :: u in r.onlineUsers[..|r.onlineUsers| - 1] <==> u in st.onlineUsers && u.id != user.id
    ensures r.(onlineUsers := st.onlineUsers) == st
  {
    st.(onlineUsers := Upsert(st.onlineUsers, user, IdField))
  }

  /** `user:offline` as the client is written: entries are matched on `u.id`. */
  function OnUserOfflineAsWritten(st: ChatState, user: ClientUser): (r: ChatState)
    ensures forall u :: u in r.onlineUsers <==> u in st.onlineUsers && u.id != user.id
    ensures r.(onlineUsers := st.onlineUsers) == st
  {
    st.(onlineUsers := RemoveKey(st.onlineUsers, user.id, IdField))
  }

  /**
   * An announcement carries no `id`, so the filter as written keeps the
   * user's own entry from the `users:online` list: the user is then listed twice.
   */
  lemma UserOnlineAsWrittenDuplicates(st: ChatState, user: ClientUser, listed: ClientUser)
    requires user.id.None? && listed in st.onlineUsers && listed.id.Some?
    requires UserKey(listed) == UserKey(user)
    ensures !DistinctBy(OnUserOnlineAsWritten(st, user).onlineUsers, UserKey)
  {
    var users := OnUserOnlineAsWritten(st, user).onlineUsers;
    var n := |users| - 1;
    assert listed in users[..n];
    var i :| 0 <= i < n && users[..n][i] == listed;
    assert UserKey(users[i]) == UserKey(users[n]);
  }

  /**
   * The filter as written also drops every entry without an `id` (every user
   * announced since the last full list), whoever it stands for.
   */
  lemma UserOnlineAsWrittenDropsOthers(st: ChatState, user: ClientUser, other: ClientUser)
    requires user.id.None? && other in st.onlineUsers && other.id.None? && other != user
    ensures other !in OnUserOnlineAsWritten(st, user).onlineUsers
  {
  }

  /** `user:offline` as written leaves the departing user listed when the entry came from the full list. */
  lemma UserOfflineAsWrittenKeepsUser(st: ChatState, user: ClientUser, listed: ClientUser)
    requires user.id.None? && listed in st.onlineUsers && listed.id.Some?
    requires UserKey(listed) == UserKey(user)
    ensures listed in OnUserOfflineAsWritten(st, user).onlineUsers
  {
  }

  /** A concrete run: alice is listed by the full list, then announced online again. */
  lemma UserOnlineAsWrittenExample()
    ensures var listed := ClientUser(Some("u1"), None, "alice", Some("a.svg"), Some("online"));
            var announced := ClientUser(None, Some("u1"), "alice", Some("a.svg"), None);
            var st := Initial.(onlineUsers := [listed]);
            OnUserOnlineAsWritten(st, announced).onlineUsers == [listed, announced]
            && OnUserOfflineAsWritten(st, announced).onlineUsers == [listed]
  {
    var listed := ClientUser(Some("u1"), None, "alice", Some("a.svg"), Some("online"));
    var announced := ClientUser(None, Some("u1"), "alice", Some("a.svg"), None);
    assert [listed][1..] == [];
  }

  /** `user:online`, matching entries on the user they stand for. */
  function OnUserOnline(st: ChatState, user: ClientUser): (r: ChatState)
    ensures user in r.onlineUsers
    ensures forall u :: u in r.onlineUsers <==> u == user || (u in st.onlineUsers && UserKey(u) != UserKey(user))
    ensures r.onlineUsers[|r.onlineUsers| - 1] == user
    ensures forall u :: multiset(r.onlineUsers[..|r.onlineUsers| - 1])[u] ==
                          if UserKey(u) != UserKey(user) then multiset(st.onlineUsers)[u] else 0
    ensures SubsequenceOf(r.onlineUsers[..|r.onlineUsers| - 1], st.onlineUsers)
    ensures DistinctBy(st.onlineUsers, UserKey) ==> DistinctBy(r.onlineUsers, UserKey)
    ensures r.(onlineUsers := st.onlineUsers) == st
  {
    st.(onlineUsers := Upsert(st.onlineUsers, user, UserKey))
  }

  /** `user:offline`, matching entries on the user they stand for. */
  function OnUserOffline(st: ChatState, user: ClientUser): (r: ChatState)
    ensures forall u :: u in r.onlineUsers <==> u in st.onlineUsers && UserKey(u) != UserKey(user)
    ensures forall u :: multiset(r.onlineUsers)[u] == if UserKey(u) != UserKey(user) then multiset(st.onlineUsers)[u] else 0
    ensures SubsequenceOf(r.onlineUsers, st.onlineUsers)
    ensures DistinctBy(st.onlineUsers, UserKey) ==> DistinctBy(r.onlineUsers, UserKey)
    ensures r.(onlineUsers := st.onlineUsers) == st
  {
    st.(onlineUsers := RemoveKey(st.onlineUsers, UserKey(user), UserKey))
  }

  /** Coming online and going offline again leaves the list as if only the departure happened. */
  lemma OnlineThenOffline(st: ChatState, user: ClientUser)
    ensures OnUserOffline(OnUserOnline(st, user), user) == OnUserOffline(st, user)
  {
    UpsertThenRemove(st.onlineUsers, user, UserKey);
  }

  /** `users:online`: the full list replaces the current one. */
  function OnUsersOnline(st: ChatState, users: seq<ClientUser>): (r: ChatState)
    ensures r.onlineUsers == users
    ensures r.(onlineUsers := st.onlineUsers) == st
  {
    st.(onlineUsers := users)
  }

  // ----- rooms -----

  /** `room:joined`: the room replaces any entry with its id and goes last. */
  function OnRoomJoined(st: ChatState, room: ClientRoom): (r: ChatState)
    ensures room in r.rooms
    ensures forall x :: x in r.rooms <==> x == room || (x in st.rooms && RoomKey(x) != RoomKey(room))
    ensures DistinctBy(st.rooms, RoomKey) ==> DistinctBy(r.rooms, RoomKey)
    ensures r.(rooms := st.rooms) == st
  {
    st.(rooms := Upsert(st.rooms, room, RoomKey))
  }

  /** `room:created`: the room is appended without looking for an entry with its id. */
  function OnRoomCreated(st: ChatState, room: ClientRoom): (r: ChatState)
    ensures r.rooms == st.rooms + [room]
    ensures r.(rooms := st.rooms) == st
  {
    st.(rooms := st.rooms + [room])
  }

  /** A room announced as created and then as joined is listed once. */
  lemma CreatedThenJoinedListedOnce(st: ChatState, room: ClientRoom)
    requires DistinctBy(st.rooms, RoomKey) && forall x :: x in st.rooms ==> x.id != room.id
    ensures DistinctBy(OnRoomJoined(OnRoomCreated(st, room), room).rooms, RoomKey)
  {
    var created := OnRoomCreated(st, room);
    var rooms := created.rooms;
    forall i, j | 0 <= i < j < |rooms|
      ensures rooms[i].id != rooms[j].id
    {
      if j == |st.rooms| {
        assert rooms[i] == st.rooms[i];
        assert st.rooms[i] in st.rooms;
      } else {
        assert rooms[i] == st.rooms[i] && rooms[j] == st.rooms[j];
      }
    }
    assert DistinctBy(rooms, RoomKey);
  }

  // ----- messages -----

  /** `room:messages`: the room's history replaces what the client had for it. */
  function OnRoomMessages(st: ChatState, roomId: RoomId, msgs: seq<ClientMessage>): (r: ChatState)
    ensures GetMessagesForRoom(r, roomId) == msgs
    ensures forall q :: q != roomId ==> GetMessagesForRoom(r, q) == GetMessagesForRoom(st, q)
    ensures r.(messages := st.messages) == st
  {
    st.(messages := st.messages[roomId := msgs])
  }

  /** The room's messages with one more at the end. */
  function Appended(messages: map<RoomId, seq<ClientMessage>>, roomId: RoomId, msg: ClientMessage)
    : (r: map<RoomId, seq<ClientMessage>>)
    ensures RoomLog(r, roomId) == RoomLog(messages, roomId) + [msg]
    ensures forall q :: q != roomId ==> RoomLog(r, q) == RoomLog(messages, q)
  {
    messages[roomId := RoomLog(messages, roomId) + [msg]]
  }

  /**
   * `message:received`: the message is appended to its room; the room's
   * unread counter goes up by one unless the user is looking at that room.
   */
  function OnMessageReceived(st: ChatState, roomId: RoomId, msg: ClientMessage): (r: ChatState)
    ensures GetMessagesForRoom(r, roomId) == GetMessagesForRoom(st, roomId) + [msg]
    ensures forall q :: q != roomId ==> GetMessagesForRoom(r, q) == GetMessagesForRoom(st, q)
    ensures GetUnreadCountForRoom(r, roomId)
         == GetUnreadCountForRoom(st, roomId) + (if Viewing(st, roomId) then 0 else 1)
    ensures forall q :: q != roomId ==> GetUnreadCountForRoom(r, q) == GetUnreadCountForRoom(st, q)
    ensures GetTotalUnreadCount(r) == GetTotalUnreadCount(st) + (if Viewing(st, roomId) then 0 else 1)
    ensures DistinctKeys(st.unreadCounts) ==> DistinctKeys(r.unreadCounts)
    ensures r.(messages := st.messages, unreadCounts := st.unreadCounts) == st
  {
    var messages := Appended(st.messages, roomId, msg);
    if Viewing(st, roomId) then st.(messages := messages)
    else st.(messages := messages, unreadCounts := Bumped(st.unreadCounts, roomId))
  }

  /** `file:shared`: the message is appended; no counter changes. */
  function OnFileShared(st: ChatState, roomId: RoomId, msg: ClientMessage): (r: ChatState)
    ensures GetMessagesForRoom(r, roomId) == GetMessagesForRoom(st, roomId) + [msg]
    ensures forall q :: q != roomId ==> GetMessagesForRoom(r, q) == GetMessagesForRoom(st, q)
    ensures r.(messages := st.messages) == st
  {
    st.(messages := Appended(st.messages, roomId, msg))
  }

  /** `message:private`: the message is appended and the room's counter always goes up by one. */
  function OnMessagePrivate(st: ChatState, roomId: RoomId, msg: ClientMessage): (r: ChatState)
    ensures GetMessagesForRoom(r, roomId) == GetMessagesForRoom(st, roomId) + [msg]
    ensures forall q :: q != roomId ==> GetMessagesForRoom(r, q) == GetMessagesForRoom(st, q)
    ensures GetUnreadCountForRoom(r, roomId) == GetUnreadCountForRoom(st, roomId) + 1
    ensures forall q :: q != roomId ==> GetUnreadCountForRoom(r, q) == GetUnreadCountForRoom(st, q)
    ensures GetTotalUnreadCount(r) == GetTotalUnreadCount(st) + 1
    ensures DistinctKeys(st.unreadCounts) ==> DistinctKeys(r.unreadCounts)
    ensures r.(messages := st.messages, unreadCounts := st.unreadCounts) == st
  {
    st.(messages := Appended(st.messages, roomId, msg), unreadCounts := Bumped(st.unreadCounts, roomId))
  }

  /** Messages with id `messageId` get the new content and the edited mark; the rest stay as they were. */
  function Edited(s: seq<ClientMessage>, messageId: MessageId, newContent: string): (r: seq<ClientMessage>)
    ensures |r| == |s|
    ensures forall i :: 0 <= i < |s| ==>
              r[i].id == s[i].id && r[i].senderId == s[i].senderId && r[i].kind == s[i].kind
    ensures forall i :: 0 <= i < |s| && s[i].id == messageId ==> r[i].content == newContent && r[i].edited
    ensures forall i :: 0 <= i < |s| && s[i].id != messageId ==> r[i] == s[i]
  {
    seq(|s|, i requires 0 <= i < |s| =>
      if s[i].id == messageId then s[i].(content := newContent, edited := true) else s[i])
  }

  /** A second edit of the same message overrides the first. */
  lemma EditedTwice(s: seq<ClientMessage>, messageId: MessageId, first: string, second: string)
    ensures Edited(Edited(s, messageId, first), messageId, second) == Edited(s, messageId, second)
  {
    var a := Edited(Edited(s, messageId, first), messageId, second);
    var b := Edited(s, messageId, second);
    assert |a| == |b|;
    forall i | 0 <= i < |a|
      ensures a[i] == b[i]
    {
    }
  }

  /** `message:edited`: the room's messages with that id are rewritten in place. */
  function OnMessageEdited(st: ChatState, roomId: RoomId, messageId: MessageId, newContent: string)
    : (r: ChatState)
    ensures GetMessagesForRoom(r, roomId) == Edited(GetMessagesForRoom(st, roomId), messageId, newContent)
    ensures forall q :: q != roomId ==> GetMessagesForRoom(r, q) == GetMessagesForRoom(st, q)
    ensures r.(messages := st.messages) == st
  {
    st.(messages := st.messages[roomId := Edited(RoomLog(st.messages, roomId), messageId, newContent)])
  }

  /** `message:deleted`: the room's messages with that id are dropped, the rest keep their order. */
  function OnMessageDeleted(st: ChatState, roomId: RoomId, messageId: MessageId): (r: ChatState)
    ensures forall m :: m in GetMessagesForRoom(r, roomId)
                    <==> m in GetMessagesForRoom(st, roomId) && m.id != messageId
    ensures forall m :: multiset(GetMessagesForRoom(r, roomId))[m] ==
                          if m.id != messageId then multiset(GetMessagesForRoom(st, roomId))[m] else 0
    ensures SubsequenceOf(GetMessagesForRoom(r, roomId), GetMessagesForRoom(st, roomId))
    ensures (forall m :: m in GetMessagesForRoom(st, roomId) ==> m.id != messageId)
            ==> GetMessagesForRoom(r, roomId) == GetMessagesForRoom(st, roomId)
    ensures forall q :: q != roomId ==> GetMessagesForRoom(r, q) == GetMessagesForRoom(st, q)
    ensures r.(messages := st.messages) == st
  {
    st.(messages := st.messages[roomId := RemoveKey(RoomLog(st.messages, roomId), messageId, MessageKey)])
  }

  /** `typing:started` and `typing:stopped`: the server's list for the room replaces the client's. */
  function OnTyping(st: ChatState, roomId: RoomId, typingUsers: seq<UserId>): (r: ChatState)
    ensures GetTypingUsersForRoom(r, roomId) == typingUsers
    ensures forall q :: q != roomId ==> GetTypingUsersForRoom(r, q) == GetTypingUsersForRoom(st, q)
    ensures r.(typingUsers := st.typingUsers) == st
  {
    st.(typingUsers := st.typingUsers[roomId := typingUsers])
  }

  // ----- actions of the user -----

  /** `disconnectSocket`: everything about the session is forgotten; loading flag and error stay. */
  function DisconnectSocket(st: ChatState): (r: ChatState)
    ensures !r.isConnected && r.rooms == [] && r.currentRoom.None? && r.onlineUsers == []
    ensures forall q :: GetMessagesForRoom(r, q) == [] && GetTypingUsersForRoom(r, q) == []
                        && GetUnreadCountForRoom(r, q) == 0
    ensures GetTotalUnreadCount(r) == 0
    ensures r.isLoading == st.isLoading && r.error == st.error
  {
    Initial.(isLoading := st.isLoading, error := st.error)
  }

  /** Two stores that differ only in their session are equal after disconnecting. */
  lemma DisconnectForgetsSession(a: ChatState, b: ChatState)
    requires a.isLoading == b.isLoading && a.error == b.error
    ensures DisconnectSocket(a) == DisconnectSocket(b)
  {
  }

  /** `setCurrentRoom`: a room the user enters has its counter reset to zero. */
  function SetCurrentRoom(st: ChatState, room: Option<ClientRoom>): (r: ChatState)
    ensures r.currentRoom == room
    ensures room.Some? ==> GetUnreadCountForRoom(r, room.value.id) == 0
    ensures room.Some? ==>
              GetTotalUnreadCount(r) + GetUnreadCountForRoom(st, room.value.id) == GetTotalUnreadCount(st)
    ensures forall q :: (room.None? || q != room.value.id) ==>
              GetUnreadCountForRoom(r, q) == GetUnreadCountForRoom(st, q)
    ensures DistinctKeys(st.unreadCounts) ==> DistinctKeys(r.unreadCounts)
    ensures r.(currentRoom := st.currentRoom, unreadCounts := st.unreadCounts) == st
  {
    match room
    case None => st.(currentRoom := None)
    case Some(entered) =>
      TotalSetCount(st.unreadCounts, entered.id, 0);
      if DistinctKeys(st.unreadCounts) then
        SetCountDistinct(st.unreadCounts, entered.id, 0);
        st.(currentRoom := room, unreadCounts := SetCount(st.unreadCounts, entered.id, 0))
      else
        st.(currentRoom := room, unreadCounts := SetCount(st.unreadCounts, entered.id, 0))
  }

  /** While the user looks at a room, messages arriving there leave its counter at zero. */
  lemma ViewedRoomStaysRead(st: ChatState, room: ClientRoom, msg: ClientMessage)
    ensures var r := OnMessageReceived(SetCurrentRoom(st, Some(room)), room.id, msg);
            GetUnreadCountForRoom(r, room.id) == 0
            && GetTotalUnreadCount(r) == GetTotalUnreadCount(st) - GetUnreadCountForRoom(st, room.id)
  {
    var entered := SetCurrentRoom(st, Some(room));
    assert Viewing(entered, room.id);
  }

  function ClearError(st: ChatState): (r: ChatState)
    ensures r.error.None?
    ensures r.(error := st.error) == st
  {
    st.(error := None)
  }

  function SetLoading(st: ChatState, loading: bool): (r: ChatState)
    ensures r.isLoading == loading
    ensures r.(isLoading := st.isLoading) == st
  {
    st.(isLoading := loading)
  }

  // ----- dispatch of server events -----

  datatype ServerEvent =
    | SocketConnected
    | SocketDisconnected
    | UsersOnline(users: seq<ClientUser>)
    | UserOnline(user: ClientUser)
    | UserOffline(user: ClientUser)
    | RoomJoined(room: ClientRoom)
    | RoomMessages(roomId: RoomId, messages: seq<ClientMessage>)
    | MessageReceived(roomId: RoomId, message: ClientMessage)
    | MessageEdited(roomId: RoomId, messageId: MessageId, newContent: string)
    | MessageDeleted(roomId: RoomId, messageId: MessageId)
    | TypingStarted(roomId: RoomId, typingUsers: seq<UserId>)
    | TypingStopped(roomId: RoomId, typingUsers: seq<UserId>)
    | UserJoined
    | UserLeft
    | RoomCreated(room: ClientRoom)
    | FileShared(roomId: RoomId, message: ClientMessage)
    | MessagePrivate(roomId: RoomId, message: ClientMessage)
    | ErrorReceived(reason: string)

  /**
   * The listener registered for each event, with `user:online` and
   * `user:offline` handled by the corrected reducers (the ones written in
   * the store are `OnUserOnlineAsWritten` and `OnUserOfflineAsWritten`).
   * The unread counters stay a map (no room twice) and, after a full
   * `users:online` list without repeats, no user is listed twice; the
   * second promise holds only with the corrected reducers.
   */
  function Apply(st: ChatState, ev: ServerEvent): (r: ChatState)
    ensures DistinctKeys(st.unreadCounts) ==> DistinctKeys(r.unreadCounts)
    ensures !ev.UsersOnline? && DistinctBy(st.onlineUsers, UserKey) ==> DistinctBy(r.onlineUsers, UserKey)
    ensures ev.UsersOnline? && DistinctBy(ev.users, UserKey) ==> DistinctBy(r.onlineUsers, UserKey)
    ensures ev.SocketConnected? ==> r.isConnected
    ensures ev.SocketDisconnected? ==> !r.isConnected
    ensures !(ev.SocketConnected? || ev.SocketDisconnected?) ==> r.isConnected == st.isConnected
  {
    match ev
    case SocketConnected => st.(isConnected := true)
    case SocketDisconnected => st.(isConnected := false)
    case UsersOnline(users) => OnUsersOnline(st, users)
    case UserOnline(user) => OnUserOnline(st, user)
    case UserOffline(user) => OnUserOffline(st, user)
    case RoomJoined(room) => OnRoomJoined(st, room)
    case RoomMessages(roomId, msgs) => OnRoomMessages(st, roomId, msgs)
    case MessageReceived(roomId, msg) => OnMessageReceived(st, roomId, msg)
    case MessageEdited(roomId, messageId, newContent) => OnMessageEdited(st, roomId, messageId, newContent)
    case MessageDeleted(roomId, messageId) => OnMessageDeleted(st, roomId, messageId)
    case TypingStarted(roomId, typingUsers) => OnTyping(st, roomId, typingUsers)
    case TypingStopped(roomId, typingUsers) => OnTyping(st, roomId, typingUsers)
    case UserJoined => st
    case UserLeft => st
    case RoomCreated(room) => OnRoomCreated(st, room)
    case FileShared(roomId, msg) => OnFileShared(st, roomId, msg)
    case MessagePrivate(roomId, msg) => OnMessagePrivate(st, roomId, msg)
    case ErrorReceived(reason) => st.(error := Some(reason))
  }

  /** Only `message:received` and `message:private` raise the unread total, each by at most one. */
  lemma UnreadTotalGrowsByAtMostOne(st: ChatState, ev: ServerEvent)
    ensures GetTotalUnreadCount(Apply(st, ev)) <= GetTotalUnreadCount(st) + 1
    ensures !(ev.MessageReceived? || ev.MessagePrivate?) ==>
              GetTotalUnreadCount(Apply(st, ev)) == GetTotalUnreadCount(st)
  {
  }
}
