/**
 * The connection router of the chat server. It keeps three index tables
 * (latest socket per user, sockets per user, sockets per room), handles one
 * inbound event at a time against the message ledger and the user directory,
 * and decides who receives which outbound event.
 *
 * Delivery is not modelled: a handler returns the events it emits, in order,
 * each addressed to one socket, to a room with or without the sender, or to
 * every connection.
 */
module SocketHandlers {
  import opened Base
  import opened Text
  import M = MessageModel
  import U = UserModel
  import S = InsertionOrderedSet

  /** An authenticated connection: its id, and the user the token named. */
  datatype Socket = Socket(id: SocketId, userId: UserId, username: string, avatar: string)

  datatype Target =
    | ToSocket(socketId: SocketId)                  // `socket.emit`, or `io.to(socketId)`
    | ToRoom(roomId: RoomId)                        // `io.to(roomId)`: the room, sender included
    | ToRoomExcept(roomId: RoomId, except: SocketId)  // `socket.to(roomId)`: the room, sender excluded
    | ToEveryone                                    // `io.emit`

  /** A message as broadcast to clients; `edited` is sent only with `message:received`. */
  datatype MessageView = MessageView(
    id: MessageId, content: string, kind: string, fileData: Option<M.FileData>,
    senderId: UserId, senderName: string, senderAvatar: string, timestamp: nat, edited: Option<bool>)

  datatype Payload =
    | UserOnline(userId: UserId, username: string, avatar: string)
    | UsersOnline(users: seq<U.OnlineUser>)
    | UserOffline(userId: UserId, username: string)
    | RoomJoined(roomId: RoomId, name: string, memberCount: nat)
    | RoomMessages(roomId: RoomId, messages: seq<M.Message>)
    | UserJoined(userId: UserId, username: string, avatar: string)
    | UserLeft(userId: UserId, username: string)
    | MessageReceived(message: MessageView, roomId: RoomId)
    | TypingStarted(roomId: RoomId, userId: UserId, username: string, typingUsers: seq<UserId>)
    | TypingStopped(roomId: RoomId, userId: UserId, username: string, typingUsers: seq<UserId>)
    | MessageEdited(messageId: MessageId, newContent: string, roomId: RoomId, editedBy: UserId)
    | MessageDeleted(messageId: MessageId, roomId: RoomId, deletedBy: UserId)
    | MessageRead(messageId: MessageId, readBy: UserId, readByUsername: string)
    | RoomCreated(roomId: RoomId, name: string, isPrivate: bool, memberCount: nat)
    | RoomInvited(roomId: RoomId, name: string, createdBy: UserId, createdByUsername: string)
    | MessagePrivate(message: MessageView, roomId: RoomId)
    | MessageSent(messageId: MessageId, roomId: RoomId)
    | FileShared(message: MessageView, roomId: RoomId)
    | UserStatus(userId: UserId, username: string, status: string)
    | RoomSearchResults(query: string, rooms: seq<M.RoomSummary>)
    | MessageSearchResults(roomId: RoomId, query: string, messages: seq<M.Message>)
    | Error(reason: string)

  datatype Outbound = Emit(target: Target, payload: Payload)

  /** The socket.io event name each payload travels under. */
  function EventName(p: Payload): string {
    match p
    case UserOnline(_, _, _) => "user:online"
    case UsersOnline(_) => "users:online"
    case UserOffline(_, _) => "user:offline"
    case RoomJoined(_, _, _) => "room:joined"
    case RoomMessages(_, _) => "room:messages"
    case UserJoined(_, _, _) => "user:joined"
    case UserLeft(_, _) => "user:left"
    case MessageReceived(_, _) => "message:received"
    case TypingStarted(_, _, _, _) => "typing:started"
    case TypingStopped(_, _, _, _) => "typing:stopped"
    case MessageEdited(_, _, _, _) => "message:edited"
    case MessageDeleted(_, _, _) => "message:deleted"
    case MessageRead(_, _, _) => "message:read"
    case RoomCreated(_, _, _, _) => "room:created"
    case RoomInvited(_, _, _, _) => "room:invited"
    case MessagePrivate(_, _) => "message:private"
    case MessageSent(_, _) => "message:sent"
    case FileShared(_, _) => "file:shared"
    case UserStatus(_, _, _) => "user:status"
    case RoomSearchResults(_, _) => "room:search:results"
    case MessageSearchResults(_, _, _) => "message:search:results"
    case Error(_) => "error"
  }

  /** The rooms every new connection is put in, when they exist. */
  const DefaultRoomIds: seq<RoomId> := ["global", "general", "random", "help"]

  /** How many messages a client receives when it joins a room. */
  const JoinHistory: nat := 50

  /** A reply to the requesting socket alone. */
  function Reply(socket: Socket, p: Payload): Outbound {
    Emit(ToSocket(socket.id), p)
  }

  function View(m: M.Message, socket: Socket, edited: Option<bool>): MessageView {
    MessageView(m.id, m.content, m.kind, m.fileData, m.senderId, socket.username, socket.avatar, m.timestamp, edited)
  }

  /** The `type = 'text'` default of the message handlers. */
  function KindOrDefault(kind: Option<string>): string {
    if kind.Some? then kind.value else "text"
  }

  // ---------------------------------------------------------------------------
  // The private-room id
  // ---------------------------------------------------------------------------

  /** `[a, b].sort().join('_')` */
  function PrivateRoomId(a: UserId, b: UserId): RoomId {
    if LexLess(b, a) then b + "_" + a else a + "_" + b
  }

  /** Both participants compute the same private-room id. */
  lemma PrivateRoomIdSymmetric(a: UserId, b: UserId)
    ensures PrivateRoomId(a, b) == PrivateRoomId(b, a)
  {
    if a != b {
      LexLessTotal(a, b);
      if LexLess(a, b) {
        LexLessAsymmetric(a, b);
      } else {
        LexLessAsymmetric(b, a);
      }
    }
  }

  /** The id lists the smaller user id first. */
  lemma PrivateRoomIdOrdered(a: UserId, b: UserId)
    ensures PrivateRoomId(a, b) == (if LexLess(b, a) then b else a) + "_" + (if LexLess(b, a) then a else b)
    ensures LexLess(b, a) ==> !LexLess(a, b)
  {
    if LexLess(b, a) {
      LexLessAsymmetric(b, a);
    }
  }

  // ---------------------------------------------------------------------------
  // The socket index tables
  // ---------------------------------------------------------------------------

  /** The sockets indexed under a key; none when the key is absent. */
  function SocketsAt(index: map<string, set<SocketId>>, key: string): set<SocketId> {
    if key in index then index[key] else {}
  }

  /** Every entry of an index holds at least one socket. */
  predicate NoEmptyEntries(index: map<string, set<SocketId>>) {
    forall key :: key in index ==> index[key] != {}
  }

  /** Create the entry when missing, then add the socket. */
  function Indexed(index: map<string, set<SocketId>>, key: string, sid: SocketId): (r: map<string, set<SocketId>>)
    ensures key in r && r[key] == SocketsAt(index, key) + {sid}
    ensures forall k :: k != key ==> SocketsAt(r, k) == SocketsAt(index, k) && (k in r <==> k in index)
    ensures NoEmptyEntries(index) ==> NoEmptyEntries(r)
  {
    index[key := SocketsAt(index, key) + {sid}]
  }

  /** Remove the socket from one entry, deleting the entry once it is empty. */
  function Unindexed(index: map<string, set<SocketId>>, key: string, sid: SocketId): (r: map<string, set<SocketId>>)
    ensures SocketsAt(r, key) == SocketsAt(index, key) - {sid}
    ensures forall k :: k != key ==> SocketsAt(r, k) == SocketsAt(index, k) && (k in r <==> k in index)
    ensures NoEmptyEntries(index) ==> NoEmptyEntries(r)
    ensures key in r <==> SocketsAt(index, key) - {sid} != {}
  {
    if key in index then
      if index[key] - {sid} == {} then index - {key} else index[key := index[key] - {sid}]
    else index
  }

  /** The room index after a disconnect: the socket removed everywhere, emptied rooms dropped. */
  function WithoutSocket(index: map<RoomId, set<SocketId>>, sid: SocketId): (r: map<RoomId, set<SocketId>>)
    ensures forall k :: k in r ==> sid !in r[k] && r[k] != {}
    ensures forall k :: SocketsAt(r, k) == SocketsAt(index, k) - {sid}
  {
    map k | k in index && index[k] - {sid} != {} :: index[k] - {sid}
  }

  /**
   * The loop of `handleDisconnection` over the room index: the socket leaves
   * each room's set, and a set left empty is dropped.
   */
  method LeaveAllRooms(index: map<RoomId, set<SocketId>>, sid: SocketId) returns (after: map<RoomId, set<SocketId>>)
    ensures after == WithoutSocket(index, sid)
    ensures forall k :: k in after ==> sid !in after[k] && after[k] != {}
    ensures forall k :: k in after ==> k in index && after[k] == index[k] - {sid}
  {
    after := index;
    var pending := index.Keys;
    while pending != {}
      invariant pending <= index.Keys
      invariant forall k :: k in after <==> k in index && (k in pending || index[k] - {sid} != {})
      invariant forall k :: k in after ==> after[k] == if k in pending then index[k] else index[k] - {sid}
      decreases pending
    {
      var roomId :| roomId in pending;
      var sockets := after[roomId] - {sid};
      if sockets == {} {
        after := after - {roomId};
      } else {
        after := after[roomId := sockets];
      }
      pending := pending - {roomId};
    }
  }

  /** Room records after `addUserToRoom(r, userId)` for each listed `r` in turn. */
  function WithMember(rooms: map<RoomId, M.Room>, ids: seq<RoomId>, userId: UserId): (r: map<RoomId, M.Room>)
    ensures r.Keys == rooms.Keys
    ensures forall k :: k in r ==> r[k].id == rooms[k].id
  {
    if ids == [] then rooms
    else
      var before := WithMember(rooms, ids[..|ids| - 1], userId);
      var k := ids[|ids| - 1];
      if k in before then before[k := before[k].(members := before[k].members + {userId})] else before
  }

  /** Each listed room gains the user as a member; the others are untouched. */
  lemma {:induction false} WithMemberSpec(rooms: map<RoomId, M.Room>, ids: seq<RoomId>, userId: UserId)
    ensures forall k :: k in rooms ==>
      WithMember(rooms, ids, userId)[k] ==
        if k in ids then rooms[k].(members := rooms[k].members + {userId}) else rooms[k]
  {
    if ids != [] {
      var prefix := ids[..|ids| - 1];
      WithMemberSpec(rooms, prefix, userId);
      assert forall k :: k in ids <==> k in prefix || k == ids[|ids| - 1];
    }
  }

  /** The room index after the default-room joins: the socket under each listed room that exists. */
  function IndexedUnder(index: map<RoomId, set<SocketId>>, rooms: map<RoomId, M.Room>, ids: seq<RoomId>, sid: SocketId): (r: map<RoomId, set<SocketId>>)
    ensures NoEmptyEntries(index) ==> NoEmptyEntries(r)
  {
    if ids == [] then index
    else
      var before := IndexedUnder(index, rooms, ids[..|ids| - 1], sid);
      var k := ids[|ids| - 1];
      if k in rooms then Indexed(before, k, sid) else before
  }

  /** The socket is indexed under each listed room that exists, and nothing else changes. */
  lemma {:induction false} IndexedUnderSpec(index: map<RoomId, set<SocketId>>, rooms: map<RoomId, M.Room>, ids: seq<RoomId>, sid: SocketId)
    ensures forall k :: k in IndexedUnder(index, rooms, ids, sid) <==> k in index || (k in ids && k in rooms)
    ensures forall k ::
      SocketsAt(IndexedUnder(index, rooms, ids, sid), k) == SocketsAt(index, k) + (if k in ids && k in rooms then {sid} else {})
  {
    if ids != [] {
      var prefix := ids[..|ids| - 1];
      IndexedUnderSpec(index, rooms, prefix, sid);
      assert forall k :: k in ids <==> k in prefix || k == ids[|ids| - 1];
    }
  }

  /** The `room:joined` replies of the default-room joins, in list order. */
  function JoinReplies(rooms: map<RoomId, M.Room>, ids: seq<RoomId>, socket: Socket): (r: seq<Outbound>)
    ensures |r| <= |ids|
    ensures forall e :: e in r ==> e.target == ToSocket(socket.id) && e.payload.RoomJoined? && e.payload.roomId in ids
  {
    if ids == [] then []
    else
      var k := ids[|ids| - 1];
      var after := WithMember(rooms, ids, socket.userId);
      JoinReplies(rooms, ids[..|ids| - 1], socket)
      + if k in rooms then [Reply(socket, RoomJoined(k, after[k].name, |after[k].members|))] else []
  }

  /** One more room of the list joined: how the three join functions grow. */
  lemma JoinStep(rooms: map<RoomId, M.Room>, index: map<RoomId, set<SocketId>>, ids: seq<RoomId>, i: nat, socket: Socket)
    requires i < |ids|
    ensures var k := ids[i];
      var before := WithMember(rooms, ids[..i], socket.userId);
      var after := WithMember(rooms, ids[..i + 1], socket.userId);
      && after == (if k in before then before[k := before[k].(members := before[k].members + {socket.userId})] else before)
      && IndexedUnder(index, rooms, ids[..i + 1], socket.id) ==
           (if k in rooms then Indexed(IndexedUnder(index, rooms, ids[..i], socket.id), k, socket.id)
            else IndexedUnder(index, rooms, ids[..i], socket.id))
      && JoinReplies(rooms, ids[..i + 1], socket) ==
           JoinReplies(rooms, ids[..i], socket)
           + (if k in rooms then [Reply(socket, RoomJoined(k, after[k].name, |after[k].members|))] else [])
  {
    assert ids[..i + 1][..i] == ids[..i];
  }

  /** `room:invited` for each supplied member with an online socket, in the order supplied. */
  function Invitations(online: map<UserId, SocketId>, members: seq<UserId>, room: M.Room, creator: Socket): (r: seq<Outbound>)
    ensures forall e :: e in r ==>
      && e.payload == RoomInvited(room.id, room.name, creator.userId, creator.username)
      && exists m :: m in members && m in online && online[m] != "" && e.target == ToSocket(online[m])
    ensures forall m :: m in members && m in online && online[m] != "" ==>
      Emit(ToSocket(online[m]), RoomInvited(room.id, room.name, creator.userId, creator.username)) in r
    ensures |r| <= |members|
  {
    if members == [] then []
    else
      var m := members[|members| - 1];
      var socketId := if m in online then Some(online[m]) else None;
      var before := Invitations(online, members[..|members| - 1], room, creator);
      assert forall x :: x in members <==> x in members[..|members| - 1] || x == m;
      before + if Truthy(socketId) then [Emit(ToSocket(socketId.value), RoomInvited(room.id, room.name, creator.userId, creator.username))] else []
  }

  /** The test of `room:search`: the room's name contains the query, ignoring case. */
  function NameContains(query: string): M.RoomSummary -> bool {
    (s: M.RoomSummary) => MatchesIgnoringCase(s.name, query)
  }

  // ---------------------------------------------------------------------------
  // The router
  // ---------------------------------------------------------------------------

  class SocketHandler {
    const ledger: M.Ledger
    const directory: U.Directory
    var onlineUsers: map<UserId, SocketId>          // latest socket per user
    var userSockets: map<UserId, set<SocketId>>     // all sockets per user
    var roomSockets: map<RoomId, set<SocketId>>     // sockets per room

    ghost predicate Valid()
      reads this, ledger, directory
    {
      && ledger.Valid() && directory.Valid()
      && (forall u :: u in onlineUsers <==> u in userSockets)
      && NoEmptyEntries(userSockets)
      && NoEmptyEntries(roomSockets)
    }

    constructor (ledger: M.Ledger, directory: U.Directory)
      requires ledger.Valid() && directory.Valid()
      ensures Valid()
      ensures this.ledger == ledger && this.directory == directory
      ensures onlineUsers == map[] && userSockets == map[] && roomSockets == map[]
    {
      this.ledger := ledger;
      this.directory := directory;
      onlineUsers, userSockets, roomSockets := map[], map[], map[];
    }

    /**
     * A new connection: the user goes online with this socket as the latest,
     * joins the default rooms, everyone hears `user:online`, and the socket
     * receives the online list.
     */
    method HandleConnection(socket: Socket) returns (out: seq<Outbound>)
      requires Valid()
      modifies this, ledger, directory
      ensures Valid()
      ensures onlineUsers == old(onlineUsers)[socket.userId := socket.id]
      ensures userSockets == old(userSockets)[socket.userId := SocketsAt(old(userSockets), socket.userId) + {socket.id}]
      ensures roomSockets == IndexedUnder(old(roomSockets), old(ledger.rooms), DefaultRoomIds, socket.id)
      ensures ledger.rooms == WithMember(old(ledger.rooms), DefaultRoomIds, socket.userId)
      ensures ledger.roomOrder == old(ledger.roomOrder) && ledger.messages == old(ledger.messages)
      ensures ledger.order == old(ledger.order) && ledger.clock == old(ledger.clock) && ledger.typingUsers == old(ledger.typingUsers)
      ensures socket.userId in old(directory.users) ==>
        && directory.users == old(directory.users)[socket.userId := old(directory.users)[socket.userId].(status := "online")]
        && directory.onlineUsers == old(directory.onlineUsers)[socket.userId := socket.id]
        && directory.onlineOrder == S.Add(old(directory.onlineOrder), socket.userId)
      ensures socket.userId !in old(directory.users) ==>
        && directory.users == old(directory.users) && directory.onlineUsers == old(directory.onlineUsers)
        && directory.onlineOrder == old(directory.onlineOrder)
      ensures directory.userOrder == old(directory.userOrder)
      ensures out == JoinReplies(old(ledger.rooms), DefaultRoomIds, socket)
        + [Emit(ToEveryone, UserOnline(socket.userId, socket.username, socket.avatar)),
           Reply(socket, UsersOnline(U.OnlineViews(directory.users, directory.onlineOrder)))]
    {
      var _ := directory.SetUserOnline(socket.userId, socket.id);
      onlineUsers := onlineUsers[socket.userId := socket.id];
      userSockets := userSockets[socket.userId := SocketsAt(userSockets, socket.userId) + {socket.id}];
      out := JoinDefaultRooms(socket);
      var online := directory.GetOnlineUsers();
      out := out + [Emit(ToEveryone, UserOnline(socket.userId, socket.username, socket.avatar)), Reply(socket, UsersOnline(online))];
    }

    /**
     * A closed connection: the socket leaves its user's set, and only when that
     * set empties does the user go offline with a `user:offline` to everyone.
     * The socket leaves every room index; emptied rooms are dropped.
     */
    method HandleDisconnection(socket: Socket) returns (out: seq<Outbound>)
      requires Valid()
      modifies this, directory
      ensures Valid()
      ensures var remaining := SocketsAt(old(userSockets), socket.userId) - {socket.id};
        if socket.userId in old(userSockets) && remaining == {} then
          && userSockets == old(userSockets) - {socket.userId}
          && onlineUsers == old(onlineUsers) - {socket.userId}
          && socket.userId !in directory.onlineUsers
          && directory.users == (if socket.userId in old(directory.users)
               then old(directory.users)[socket.userId := old(directory.users)[socket.userId].(status := "offline")]
               else old(directory.users))
          && directory.onlineUsers == old(directory.onlineUsers) - {socket.userId}
          && directory.onlineOrder == S.Delete(old(directory.onlineOrder), socket.userId)
          && out == [Emit(ToEveryone, UserOffline(socket.userId, socket.username))]
        else
          && userSockets == (if socket.userId in old(userSockets) then old(userSockets)[socket.userId := remaining] else old(userSockets))
          && onlineUsers == old(onlineUsers)
          && directory.users == old(directory.users) && directory.onlineUsers == old(directory.onlineUsers)
          && directory.onlineOrder == old(directory.onlineOrder)
          && out == []
      ensures directory.userOrder == old(directory.userOrder)
      ensures roomSockets == WithoutSocket(old(roomSockets), socket.id)
      ensures forall r :: r in roomSockets ==> socket.id !in roomSockets[r]
    {
      out := [];
      if socket.userId in userSockets {
        var remaining := userSockets[socket.userId] - {socket.id};
        if remaining == {} {
          userSockets := userSockets - {socket.userId};
          onlineUsers := onlineUsers - {socket.userId};
          if socket.userId !in directory.users {
            S.DeleteAbsent(directory.onlineOrder, socket.userId);
          }
          var _ := directory.SetUserOffline(socket.userId);
          out := [Emit(ToEveryone, UserOffline(socket.userId, socket.username))];
        } else {
          userSockets := userSockets[socket.userId := remaining];
        }
      }
      roomSockets := LeaveAllRooms(roomSockets, socket.id);
    }

    /** The default rooms that exist: membership, socket index and a `room:joined` reply for each. */
    method JoinDefaultRooms(socket: Socket) returns (out: seq<Outbound>)
      requires Valid()
      modifies this, ledger
      ensures Valid()
      ensures roomSockets == IndexedUnder(old(roomSockets), old(ledger.rooms), DefaultRoomIds, socket.id)
      ensures ledger.rooms == WithMember(old(ledger.rooms), DefaultRoomIds, socket.userId)
      ensures ledger.roomOrder == old(ledger.roomOrder) && ledger.messages == old(ledger.messages)
      ensures ledger.order == old(ledger.order) && ledger.clock == old(ledger.clock) && ledger.typingUsers == old(ledger.typingUsers)
      ensures onlineUsers == old(onlineUsers) && userSockets == old(userSockets)
      ensures out == JoinReplies(old(ledger.rooms), DefaultRoomIds, socket)
    {
      out := [];
      for i := 0 to |DefaultRoomIds|
        invariant Valid()
        invariant roomSockets == IndexedUnder(old(roomSockets), old(ledger.rooms), DefaultRoomIds[..i], socket.id)
        invariant ledger.rooms == WithMember(old(ledger.rooms), DefaultRoomIds[..i], socket.userId)
        invariant ledger.roomOrder == old(ledger.roomOrder) && ledger.messages == old(ledger.messages)
        invariant ledger.order == old(ledger.order) && ledger.clock == old(ledger.clock) && ledger.typingUsers == old(ledger.typingUsers)
        invariant onlineUsers == old(onlineUsers) && userSockets == old(userSockets)
        invariant out == JoinReplies(old(ledger.rooms), DefaultRoomIds[..i], socket)
      {
        JoinStep(old(ledger.rooms), old(roomSockets), DefaultRoomIds, i, socket);
        var reply := JoinIfExists(socket, DefaultRoomIds[i]);
        out := out + reply;
      }
      assert DefaultRoomIds[..|DefaultRoomIds|] == DefaultRoomIds;
    }

    /** One step of the default-room joins: membership, socket index and a `room:joined` reply, when the room exists. */
    method JoinIfExists(socket: Socket, roomId: RoomId) returns (reply: seq<Outbound>)
      requires Valid()
      modifies this, ledger
      ensures Valid()
      ensures roomId in old(ledger.rooms) ==>
        && ledger.rooms == old(ledger.rooms)[roomId := old(ledger.rooms)[roomId].(members := old(ledger.rooms)[roomId].members + {socket.userId})]
        && roomSockets == Indexed(old(roomSockets), roomId, socket.id)
        && reply == [Reply(socket, RoomJoined(roomId, ledger.rooms[roomId].name, |ledger.rooms[roomId].members|))]
      ensures roomId !in old(ledger.rooms) ==>
        ledger.rooms == old(ledger.rooms) && roomSockets == old(roomSockets) && reply == []
      ensures ledger.roomOrder == old(ledger.roomOrder) && ledger.messages == old(ledger.messages)
      ensures ledger.order == old(ledger.order) && ledger.clock == old(ledger.clock) && ledger.typingUsers == old(ledger.typingUsers)
      ensures onlineUsers == old(onlineUsers) && userSockets == old(userSockets)
    {
      reply := [];
      var room := ledger.GetRoomById(roomId);
      if room.Some? {
        var joined := ledger.AddUserToRoom(roomId, socket.userId);
        roomSockets := Indexed(roomSockets, roomId, socket.id);
        reply := [Reply(socket, RoomJoined(roomId, joined.value.name, |joined.value.members|))];
      }
    }

    /**
     * `room:join`: an unknown room or a private room the user is not a member
     * of gets a single error to the requester and no change. Otherwise the
     * user becomes a member, the socket is indexed, the requester receives up
     * to 50 latest messages oldest first, and the rest of the room hears
     * `user:joined`.
     */
    method HandleJoinRoom(socket: Socket, roomId: RoomId) returns (out: seq<Outbound>)
      requires Valid()
      modifies this, ledger
      ensures Valid()
      ensures roomId !in old(ledger.rooms) ==>
        out == [Reply(socket, Error("Room not found"))] && ledger.rooms == old(ledger.rooms) && roomSockets == old(roomSockets)
      ensures roomId in old(ledger.rooms) && old(ledger.rooms)[roomId].isPrivate && socket.userId !in old(ledger.rooms)[roomId].members ==>
        out == [Reply(socket, Error("Access denied to private room"))] && ledger.rooms == old(ledger.rooms) && roomSockets == old(roomSockets)
      ensures roomId in old(ledger.rooms) && (!old(ledger.rooms)[roomId].isPrivate || socket.userId in old(ledger.rooms)[roomId].members) ==>
        && ledger.rooms == old(ledger.rooms)[roomId := old(ledger.rooms)[roomId].(members := old(ledger.rooms)[roomId].members + {socket.userId})]
        && roomSockets == Indexed(old(roomSockets), roomId, socket.id)
        && |out| == 2
        && out[0] == Reply(socket, RoomMessages(roomId, M.Reverse(M.Page(M.Reverse(M.Select(ledger.messages, ledger.order, M.VisibleIn(roomId))), 0, JoinHistory))))
        && out[1] == Emit(ToRoomExcept(roomId, socket.id), UserJoined(socket.userId, socket.username, socket.avatar))
        && |out[0].payload.messages| <= JoinHistory
        && M.OldestFirst(out[0].payload.messages)
        && forall m :: m in out[0].payload.messages ==> m.roomId == roomId && !m.deleted
      ensures ledger.roomOrder == old(ledger.roomOrder) && ledger.messages == old(ledger.messages)
      ensures ledger.order == old(ledger.order) && ledger.clock == old(ledger.clock) && ledger.typingUsers == old(ledger.typingUsers)
      ensures onlineUsers == old(onlineUsers) && userSockets == old(userSockets)
    {
      var room := ledger.GetRoomById(roomId);
      if room.None? {
        return [Reply(socket, Error("Room not found"))];
      }
      if room.value.isPrivate && socket.userId !in room.value.members {
        return [Reply(socket, Error("Access denied to private room"))];
      }
      var _ := ledger.AddUserToRoom(roomId, socket.userId);
      roomSockets := Indexed(roomSockets, roomId, socket.id);
      var latest := ledger.GetMessagesByRoom(roomId, JoinHistory, 0);
      var oldestFirst := M.Reverse(latest);
      NewestFirstReversed(latest);
      M.ReverseMembers(latest);
      out := [Reply(socket, RoomMessages(roomId, oldestFirst)),
              Emit(ToRoomExcept(roomId, socket.id), UserJoined(socket.userId, socket.username, socket.avatar))];
    }

    /** `room:leave`: never fails; membership and socket index drop, the rest of the room hears `user:left`. */
    method HandleLeaveRoom(socket: Socket, roomId: RoomId) returns (out: seq<Outbound>)
      requires Valid()
      modifies this, ledger
      ensures Valid()
      ensures roomId in old(ledger.rooms) ==>
        ledger.rooms == old(ledger.rooms)[roomId := old(ledger.rooms)[roomId].(members := old(ledger.rooms)[roomId].members - {socket.userId})]
      ensures roomId !in old(ledger.rooms) ==> ledger.rooms == old(ledger.rooms)
      ensures roomSockets == Unindexed(old(roomSockets), roomId, socket.id)
      ensures out == [Emit(ToRoomExcept(roomId, socket.id), UserLeft(socket.userId, socket.username))]
      ensures ledger.roomOrder == old(ledger.roomOrder) && ledger.messages == old(ledger.messages)
      ensures ledger.order == old(ledger.order) && ledger.clock == old(ledger.clock) && ledger.typingUsers == old(ledger.typingUsers)
      ensures onlineUsers == old(onlineUsers) && userSockets == old(userSockets)
    {
      var _ := ledger.RemoveUserFromRoom(roomId, socket.userId);
      roomSockets := Unindexed(roomSockets, roomId, socket.id);
      out := [Emit(ToRoomExcept(roomId, socket.id), UserLeft(socket.userId, socket.username))];
    }

    /**
     * `message:send`: missing content or room id, or an unknown room, gets a
     * single error to the requester and creates nothing. Otherwise exactly one
     * message is appended, the whole room (sender included) receives it, and
     * the sender stops typing there.
     */
    method HandleSendMessage(socket: Socket, roomId: Option<RoomId>, content: Option<string>,
                             kind: Option<string>, fileData: Option<M.FileData>, freshId: MessageId)
      returns (out: seq<Outbound>)
      requires Valid()
      requires freshId !in ledger.messages
      modifies this, ledger
      ensures Valid()
      ensures !Truthy(content) || !Truthy(roomId) ==>
        out == [Reply(socket, Error("Message content and room ID are required"))]
        && ledger.messages == old(ledger.messages) && ledger.typingUsers == old(ledger.typingUsers)
        && ledger.order == old(ledger.order) && ledger.clock == old(ledger.clock)
      ensures Truthy(content) && Truthy(roomId) && roomId.value !in old(ledger.rooms) ==>
        out == [Reply(socket, Error("Room not found"))]
        && ledger.messages == old(ledger.messages) && ledger.typingUsers == old(ledger.typingUsers)
        && ledger.order == old(ledger.order) && ledger.clock == old(ledger.clock)
      ensures Truthy(content) && Truthy(roomId) && roomId.value in old(ledger.rooms) ==>
        var m := M.Message(freshId, socket.userId, roomId.value, content.value, KindOrDefault(kind), fileData,
                           old(ledger.clock), {socket.userId}, false, false);
        && ledger.messages == old(ledger.messages)[freshId := m]
        && ledger.order == old(ledger.order) + [freshId] && ledger.clock == old(ledger.clock) + 1
        && ledger.typingUsers == M.TypingAfter(old(ledger.typingUsers), roomId.value, socket.userId, false)
        && out == [Emit(ToRoom(roomId.value), MessageReceived(View(m, socket, Some(false)), roomId.value)),
                   Emit(ToRoomExcept(roomId.value, socket.id),
                        TypingStopped(roomId.value, socket.userId, socket.username, ledger.typingUsers[roomId.value]))]
        && socket.userId !in ledger.typingUsers[roomId.value]
      ensures ledger.rooms == old(ledger.rooms) && ledger.roomOrder == old(ledger.roomOrder)
      ensures onlineUsers == old(onlineUsers) && userSockets == old(userSockets) && roomSockets == old(roomSockets)
    {
      if !Truthy(content) || !Truthy(roomId) {
        return [Reply(socket, Error("Message content and room ID are required"))];
      }
      var room := ledger.GetRoomById(roomId.value);
      if room.None? {
        return [Reply(socket, Error("Room not found"))];
      }
      var message := ledger.CreateMessage(freshId, socket.userId, roomId.value, content.value, KindOrDefault(kind), fileData);
      out := [Emit(ToRoom(roomId.value), MessageReceived(View(message, socket, Some(false)), roomId.value))];
      var stopped := HandleTypingStop(socket, roomId.value);
      out := out + stopped;
    }

    /** `typing:start`: the user joins the room's typing set; the rest of the room hears the new set. */
    method HandleTypingStart(socket: Socket, roomId: RoomId) returns (out: seq<Outbound>)
      requires Valid()
      modifies ledger
      ensures Valid()
      ensures ledger.typingUsers == M.TypingAfter(old(ledger.typingUsers), roomId, socket.userId, true)
      ensures socket.userId in ledger.typingUsers[roomId]
      ensures out == [Emit(ToRoomExcept(roomId, socket.id), TypingStarted(roomId, socket.userId, socket.username, ledger.typingUsers[roomId]))]
      ensures ledger.messages == old(ledger.messages) && ledger.order == old(ledger.order) && ledger.clock == old(ledger.clock)
      ensures ledger.rooms == old(ledger.rooms) && ledger.roomOrder == old(ledger.roomOrder)
    {
      var typing := ledger.SetTypingStatus(roomId, socket.userId, true);
      out := [Emit(ToRoomExcept(roomId, socket.id), TypingStarted(roomId, socket.userId, socket.username, typing))];
    }

    /** `typing:stop`: the user leaves the room's typing set; the rest of the room hears the new set. */
    method HandleTypingStop(socket: Socket, roomId: RoomId) returns (out: seq<Outbound>)
      requires Valid()
      modifies ledger
      ensures Valid()
      ensures ledger.typingUsers == M.TypingAfter(old(ledger.typingUsers), roomId, socket.userId, false)
      ensures socket.userId !in ledger.typingUsers[roomId]
      ensures out == [Emit(ToRoomExcept(roomId, socket.id), TypingStopped(roomId, socket.userId, socket.username, ledger.typingUsers[roomId]))]
      ensures ledger.messages == old(ledger.messages) && ledger.order == old(ledger.order) && ledger.clock == old(ledger.clock)
      ensures ledger.rooms == old(ledger.rooms) && ledger.roomOrder == old(ledger.roomOrder)
    {
      var typing := ledger.SetTypingStatus(roomId, socket.userId, false);
      out := [Emit(ToRoomExcept(roomId, socket.id), TypingStopped(roomId, socket.userId, socket.username, typing))];
    }

    /** `message:edit`: a refused edit is one error to the requester; a done edit goes to the message's room. */
    method HandleEditMessage(socket: Socket, messageId: MessageId, newContent: string) returns (out: seq<Outbound>)
      requires Valid()
      modifies ledger
      ensures Valid()
      ensures !(messageId in old(ledger.messages) && old(ledger.messages)[messageId].senderId == socket.userId) ==>
        out == [Reply(socket, Error("Cannot edit message"))] && ledger.messages == old(ledger.messages)
      ensures messageId in old(ledger.messages) && old(ledger.messages)[messageId].senderId == socket.userId ==>
        var roomId := old(ledger.messages)[messageId].roomId;
        && ledger.messages == old(ledger.messages)[messageId := old(ledger.messages)[messageId].(content := newContent, edited := true)]
        && out == [Emit(ToRoom(roomId), MessageEdited(messageId, newContent, roomId, socket.userId))]
      ensures ledger.order == old(ledger.order) && ledger.clock == old(ledger.clock) && ledger.typingUsers == old(ledger.typingUsers)
      ensures ledger.rooms == old(ledger.rooms) && ledger.roomOrder == old(ledger.roomOrder)
    {
      var updated := ledger.EditMessage(messageId, newContent, socket.userId);
      if updated.None? {
        return [Reply(socket, Error("Cannot edit message"))];
      }
      out := [Emit(ToRoom(updated.value.roomId), MessageEdited(messageId, newContent, updated.value.roomId, socket.userId))];
    }

    /** `message:delete`: a refused delete is one error to the requester; a done delete goes to the message's room. */
    method HandleDeleteMessage(socket: Socket, messageId: MessageId) returns (out: seq<Outbound>)
      requires Valid()
      modifies ledger
      ensures Valid()
      ensures ledger.messages == M.AfterDelete(old(ledger.messages), messageId, socket.userId)
      ensures !(messageId in old(ledger.messages) && M.MayDelete(old(ledger.messages)[messageId], socket.userId)) ==>
        out == [Reply(socket, Error("Cannot delete message"))]
      ensures messageId in old(ledger.messages) && M.MayDelete(old(ledger.messages)[messageId], socket.userId) ==>
        var roomId := old(ledger.messages)[messageId].roomId;
        out == [Emit(ToRoom(roomId), MessageDeleted(messageId, roomId, socket.userId))]
      ensures ledger.order == old(ledger.order) && ledger.clock == old(ledger.clock) && ledger.typingUsers == old(ledger.typingUsers)
      ensures ledger.rooms == old(ledger.rooms) && ledger.roomOrder == old(ledger.roomOrder)
    {
      var deleted := ledger.DeleteMessage(messageId, socket.userId);
      if deleted.None? {
        return [Reply(socket, Error("Cannot delete message"))];
      }
      out := [Emit(ToRoom(deleted.value.roomId), MessageDeleted(messageId, deleted.value.roomId, socket.userId))];
    }

    /**
     * `message:read`: the reader joins the message's read set; the sender's
     * latest socket is told, only when the message exists, the reader is not
     * its sender and the sender is online.
     */
    method HandleMessageRead(socket: Socket, messageId: MessageId) returns (out: seq<Outbound>)
      requires Valid()
      modifies ledger
      ensures Valid()
      ensures messageId !in old(ledger.messages) ==> ledger.messages == old(ledger.messages) && out == []
      ensures messageId in old(ledger.messages) ==>
        var m := old(ledger.messages)[messageId];
        && ledger.messages == old(ledger.messages)[messageId := m.(readBy := m.readBy + {socket.userId})]
        && out == if m.senderId != socket.userId && m.senderId in onlineUsers && onlineUsers[m.senderId] != ""
                  then [Emit(ToSocket(onlineUsers[m.senderId]), MessageRead(messageId, socket.userId, socket.username))]
                  else []
      ensures ledger.order == old(ledger.order) && ledger.clock == old(ledger.clock) && ledger.typingUsers == old(ledger.typingUsers)
      ensures ledger.rooms == old(ledger.rooms) && ledger.roomOrder == old(ledger.roomOrder)
    {
      var _ := ledger.MarkMessageAsRead(messageId, socket.userId);
      var message := ledger.GetMessageById(messageId);
      out := [];
      if message.Some? && message.value.senderId != socket.userId {
        var senderSocket := if message.value.senderId in onlineUsers then Some(onlineUsers[message.value.senderId]) else None;
        if Truthy(senderSocket) {
          out := [Emit(ToSocket(senderSocket.value), MessageRead(messageId, socket.userId, socket.username))];
        }
      }
    }

    /**
     * `room:create`: a missing name gets a single error and no change.
     * Otherwise a room of the creator and the supplied members is created, the
     * creator's socket is indexed, the creator receives `room:created`, and each
     * supplied member with an online socket receives `room:invited`.
     */
    method HandleCreateRoom(socket: Socket, name: Option<string>, isPrivate: Option<bool>,
                            members: Option<seq<UserId>>, freshRoomId: RoomId)
      returns (out: seq<Outbound>)
      requires Valid()
      modifies this, ledger
      ensures Valid()
      ensures !Truthy(name) ==>
        out == [Reply(socket, Error("Room name is required"))]
        && ledger.rooms == old(ledger.rooms) && ledger.roomOrder == old(ledger.roomOrder) && roomSockets == old(roomSockets)
      ensures Truthy(name) ==>
        var invited := if members.Some? then members.value else [];
        var room := M.Room(freshRoomId, name.value, socket.userId, isPrivate == Some(true), {socket.userId} + Elements(invited));
        && ledger.rooms == old(ledger.rooms)[freshRoomId := room]
        && ledger.roomOrder == (if freshRoomId in old(ledger.rooms) then old(ledger.roomOrder) else old(ledger.roomOrder) + [freshRoomId])
        && roomSockets == Indexed(old(roomSockets), freshRoomId, socket.id)
        && out == [Reply(socket, RoomCreated(freshRoomId, name.value, room.isPrivate, |room.members|))]
                  + Invitations(onlineUsers, invited, room, socket)
      ensures ledger.messages == old(ledger.messages) && ledger.order == old(ledger.order)
      ensures ledger.clock == old(ledger.clock) && ledger.typingUsers == old(ledger.typingUsers)
      ensures onlineUsers == old(onlineUsers) && userSockets == old(userSockets)
    {
      if !Truthy(name) {
        return [Reply(socket, Error("Room name is required"))];
      }
      var private := if isPrivate.Some? then isPrivate.value else false;
      var invited := if members.Some? then members.value else [];
      var room := CreateAndEnter(socket, name.value, private, invited, freshRoomId);
      out := [Reply(socket, RoomCreated(room.id, room.name, room.isPrivate, |room.members|))];
      var invitations := InviteMembers(invited, room, socket);
      out := out + invitations;
    }

    /** The state changes of `room:create`: the room, the creator's membership and socket index. */
    method CreateAndEnter(socket: Socket, name: string, isPrivate: bool, invited: seq<UserId>, roomId: RoomId)
      returns (room: M.Room)
      requires Valid()
      modifies this, ledger
      ensures Valid()
      ensures room == M.Room(roomId, name, socket.userId, isPrivate, {socket.userId} + Elements(invited))
      ensures ledger.rooms == old(ledger.rooms)[roomId := room]
      ensures ledger.roomOrder == if roomId in old(ledger.rooms) then old(ledger.roomOrder) else old(ledger.roomOrder) + [roomId]
      ensures roomSockets == Indexed(old(roomSockets), roomId, socket.id)
      ensures ledger.messages == old(ledger.messages) && ledger.order == old(ledger.order)
      ensures ledger.clock == old(ledger.clock) && ledger.typingUsers == old(ledger.typingUsers)
      ensures onlineUsers == old(onlineUsers) && userSockets == old(userSockets)
    {
      assert Elements([socket.userId] + invited) == {socket.userId} + Elements(invited);
      room := ledger.CreateRoom(roomId, name, socket.userId, isPrivate, [socket.userId] + invited);
      assert room.(members := room.members + {socket.userId}) == room;
      var _ := ledger.AddUserToRoom(roomId, socket.userId);
      roomSockets := Indexed(roomSockets, roomId, socket.id);
    }

    /** The `members.forEach` loop of `room:create`. */
    method InviteMembers(members: seq<UserId>, room: M.Room, creator: Socket) returns (out: seq<Outbound>)
      ensures out == Invitations(onlineUsers, members, room, creator)
    {
      out := [];
      for i := 0 to |members|
        invariant out == Invitations(onlineUsers, members[..i], room, creator)
      {
        assert members[..i + 1][..i] == members[..i];
        var memberSocket := if members[i] in onlineUsers then Some(onlineUsers[members[i]]) else None;
        if Truthy(memberSocket) {
          out := out + [Emit(ToSocket(memberSocket.value), RoomInvited(room.id, room.name, creator.userId, creator.username))];
        }
      }
      assert members[..|members|] == members;
    }

    /**
     * `message:private`: a missing recipient or content, or an unknown
     * recipient, gets a single error. Otherwise the private room of the pair
     * is created on first use, one message is appended to it, the recipient's
     * latest socket (if online) receives it, and the sender always receives
     * `message:sent`.
     */
    method HandlePrivateMessage(socket: Socket, recipientId: Option<UserId>, content: Option<string>,
                                kind: Option<string>, fileData: Option<M.FileData>, freshId: MessageId)
      returns (out: seq<Outbound>)
      requires Valid()
      requires freshId !in ledger.messages
      modifies ledger
      ensures Valid()
      ensures !Truthy(recipientId) || !Truthy(content) ==>
        out == [Reply(socket, Error("Recipient ID and content are required"))]
        && ledger.messages == old(ledger.messages) && ledger.rooms == old(ledger.rooms)
        && ledger.order == old(ledger.order) && ledger.clock == old(ledger.clock) && ledger.roomOrder == old(ledger.roomOrder)
      ensures Truthy(recipientId) && Truthy(content) && recipientId.value !in directory.users ==>
        out == [Reply(socket, Error("Recipient not found"))]
        && ledger.messages == old(ledger.messages) && ledger.rooms == old(ledger.rooms)
        && ledger.order == old(ledger.order) && ledger.clock == old(ledger.clock) && ledger.roomOrder == old(ledger.roomOrder)
      ensures Truthy(recipientId) && Truthy(content) && recipientId.value in directory.users ==>
        var roomId := PrivateRoomId(socket.userId, recipientId.value);
        var m := M.Message(freshId, socket.userId, roomId, content.value, KindOrDefault(kind), fileData,
                           old(ledger.clock), {socket.userId}, false, false);
        && ledger.messages == old(ledger.messages)[freshId := m]
        && ledger.order == old(ledger.order) + [freshId] && ledger.clock == old(ledger.clock) + 1
        && ledger.roomOrder == (if roomId in old(ledger.rooms) then old(ledger.roomOrder) else old(ledger.roomOrder) + [roomId])
        && (roomId in old(ledger.rooms) ==> ledger.rooms == old(ledger.rooms))
        && (roomId !in old(ledger.rooms) ==>
              ledger.rooms == old(ledger.rooms)[roomId := M.Room(roomId,
                "Private: " + socket.username + " & " + directory.users[recipientId.value].username,
                "system", true, {socket.userId, recipientId.value})])
        && |out| >= 1
        && out[|out| - 1] == Reply(socket, MessageSent(freshId, roomId))
        && out[..|out| - 1] ==
             if recipientId.value in onlineUsers && onlineUsers[recipientId.value] != ""
             then [Emit(ToSocket(onlineUsers[recipientId.value]), MessagePrivate(View(m, socket, None), roomId))]
             else []
      ensures ledger.typingUsers == old(ledger.typingUsers)
    {
      if !Truthy(recipientId) || !Truthy(content) {
        return [Reply(socket, Error("Recipient ID and content are required"))];
      }
      var recipient := directory.GetUserById(recipientId.value);
      if recipient.None? {
        return [Reply(socket, Error("Recipient not found"))];
      }
      var roomId := PrivateRoomId(socket.userId, recipientId.value);
      var room := ledger.GetRoomById(roomId);
      if room.None? {
        assert Elements([socket.userId, recipientId.value]) == {socket.userId, recipientId.value};
        var _ := ledger.CreateRoom(roomId, "Private: " + socket.username + " & " + recipient.value.username,
                                   "system", true, [socket.userId, recipientId.value]);
      }
      var message := ledger.CreateMessage(freshId, socket.userId, roomId, content.value, KindOrDefault(kind), fileData);
      out := [];
      var recipientSocket := if recipientId.value in onlineUsers then Some(onlineUsers[recipientId.value]) else None;
      if Truthy(recipientSocket) {
        out := [Emit(ToSocket(recipientSocket.value), MessagePrivate(View(message, socket, None), roomId))];
      }
      out := out + [Reply(socket, MessageSent(message.id, roomId))];
    }

    /**
     * `file:share`: missing data or name, or an unknown room, gets a single
     * error. Otherwise one `file` message named after the file is appended
     * and the whole room receives it.
     */
    method HandleFileShare(socket: Socket, roomId: RoomId, fileData: Option<string>, fileName: Option<string>,
                           fileType: string, fileSize: int, freshId: MessageId)
      returns (out: seq<Outbound>)
      requires Valid()
      requires freshId !in ledger.messages
      modifies ledger
      ensures Valid()
      ensures !Truthy(fileData) || !Truthy(fileName) ==>
        out == [Reply(socket, Error("File data and name are required"))] && ledger.messages == old(ledger.messages)
        && ledger.order == old(ledger.order) && ledger.clock == old(ledger.clock)
      ensures Truthy(fileData) && Truthy(fileName) && roomId !in old(ledger.rooms) ==>
        out == [Reply(socket, Error("Room not found"))] && ledger.messages == old(ledger.messages)
        && ledger.order == old(ledger.order) && ledger.clock == old(ledger.clock)
      ensures Truthy(fileData) && Truthy(fileName) && roomId in old(ledger.rooms) ==>
        var m := M.Message(freshId, socket.userId, roomId, fileName.value, "file",
                           Some(M.FileData(fileData.value, fileType, fileSize)), old(ledger.clock), {socket.userId}, false, false);
        && ledger.messages == old(ledger.messages)[freshId := m]
        && ledger.order == old(ledger.order) + [freshId] && ledger.clock == old(ledger.clock) + 1
        && out == [Emit(ToRoom(roomId), FileShared(View(m, socket, None), roomId))]
      ensures ledger.rooms == old(ledger.rooms) && ledger.roomOrder == old(ledger.roomOrder) && ledger.typingUsers == old(ledger.typingUsers)
    {
      if !Truthy(fileData) || !Truthy(fileName) {
        return [Reply(socket, Error("File data and name are required"))];
      }
      var room := ledger.GetRoomById(roomId);
      if room.None? {
        return [Reply(socket, Error("Room not found"))];
      }
      var message := ledger.CreateMessage(freshId, socket.userId, roomId, fileName.value, "file",
                                          Some(M.FileData(fileData.value, fileType, fileSize)));
      out := [Emit(ToRoom(roomId), FileShared(View(message, socket, None), roomId))];
    }

    /** `user:status`: for a known user, the new status goes to everyone; otherwise nothing happens. */
    method HandleUserStatusUpdate(socket: Socket, status: string) returns (out: seq<Outbound>)
      requires Valid()
      modifies directory
      ensures Valid()
      ensures socket.userId in old(directory.users) ==>
        && directory.users == old(directory.users)[socket.userId := old(directory.users)[socket.userId].(status := status)]
        && out == [Emit(ToEveryone, UserStatus(socket.userId, socket.username, status))]
      ensures socket.userId !in old(directory.users) ==> directory.users == old(directory.users) && out == []
      ensures directory.onlineUsers == old(directory.onlineUsers)
      ensures directory.userOrder == old(directory.userOrder) && directory.onlineOrder == old(directory.onlineOrder)
    {
      var updated := directory.UpdateUserStatus(socket.userId, status);
      out := [];
      if updated.Some? {
        out := [Emit(ToEveryone, UserStatus(socket.userId, socket.username, updated.value.status))];
      }
    }

    /**
     * `room:search`: the requester alone receives every room whose name
     * contains the query, ignoring case, once each and in creation order.
     */
    method HandleRoomSearch(socket: Socket, query: string) returns (out: seq<Outbound>)
      requires Valid()
      ensures |out| == 1 && out[0].target == ToSocket(socket.id) && out[0].payload.RoomSearchResults?
      ensures out[0].payload.query == query
      ensures forall s :: s in out[0].payload.rooms ==>
        s.id in ledger.rooms && s == M.Summary(ledger.rooms[s.id]) && MatchesIgnoringCase(s.name, query)
      ensures forall id :: id in ledger.rooms && MatchesIgnoringCase(ledger.rooms[id].name, query) ==>
        M.Summary(ledger.rooms[id]) in out[0].payload.rooms
      ensures out[0].payload.rooms == Keep(ledger.GetAllRooms(), NameContains(query))
      ensures SubsequenceOf(out[0].payload.rooms, ledger.GetAllRooms())
      ensures DistinctBy(out[0].payload.rooms, (s: M.RoomSummary) => s.id)
    {
      var all := ledger.GetAllRooms();
      var found := Keep(all, NameContains(query));
      KeepDistinctBy(all, NameContains(query), (s: M.RoomSummary) => s.id);
      out := [Reply(socket, RoomSearchResults(query, found))];
      forall id | id in ledger.rooms && MatchesIgnoringCase(ledger.rooms[id].name, query)
        ensures M.Summary(ledger.rooms[id]) in found
      {
        var i :| 0 <= i < |all| && all[i].id == id;
      }
    }

    /** `message:search`: the requester alone receives the matching messages of the room, newest first. */
    method HandleMessageSearch(socket: Socket, roomId: RoomId, query: string) returns (out: seq<Outbound>)
      requires Valid()
      ensures |out| == 1 && out[0].target == ToSocket(socket.id)
      ensures out[0].payload == MessageSearchResults(roomId, query, M.Reverse(M.Select(ledger.messages, ledger.order, M.SearchIn(roomId, query))))
      ensures M.NewestFirst(out[0].payload.messages)
      ensures forall m :: m in out[0].payload.messages ==>
        m.roomId == roomId && !m.deleted && MatchesIgnoringCase(m.content, query)
    {
      var found := ledger.SearchMessages(roomId, query, socket.userId);
      out := [Reply(socket, MessageSearchResults(roomId, query, found))];
    }
  }

  /** Reversing a newest-first list gives an oldest-first one. */
  lemma NewestFirstReversed(s: seq<M.Message>)
    requires M.NewestFirst(s)
    ensures M.OldestFirst(M.Reverse(s))
  {
    var r := M.Reverse(s);
    forall i, j | 0 <= i < j < |r| ensures r[i].timestamp < r[j].timestamp {
      assert r[i] == s[|s| - 1 - i] && r[j] == s[|s| - 1 - j];
    }
  }
}
