/**
 * The message ledger, room registry and typing tracker of the chat server
 * (one in-memory singleton with three maps).
 *
 * A JavaScript `Map` iterates in insertion order; the ledger keeps that order
 * beside each map it iterates (`order` for messages, `roomOrder` for rooms).
 * Message timestamps come from a logical clock, so they strictly increase
 * along `order` and "sort by timestamp, newest first" is well defined.
 */
module MessageModel {
  import opened Base
  import opened Text
  import opened InsertionOrderedSet

  /** The attachment of a file message: payload, MIME type and byte size. */
  datatype FileData = FileData(data: string, mime: string, size: int)

  datatype Message = Message(
    id: MessageId,
    senderId: UserId,
    roomId: RoomId,
    content: string,
    kind: string,              // 'text', 'file', 'image' or 'system'
    fileData: Option<FileData>,
    timestamp: nat,
    readBy: set<UserId>,
    edited: bool,
    deleted: bool)

  datatype Room = Room(id: RoomId, name: string, createdBy: UserId, isPrivate: bool, members: set<UserId>)

  /** What `getAllRooms` and `getUserRooms` report for a room. */
  datatype RoomSummary = RoomSummary(id: RoomId, name: string, createdBy: UserId, isPrivate: bool, memberCount: nat)

  /** What `getPublicRooms` reports for a room (no privacy flag). */
  datatype PublicRoomSummary = PublicRoomSummary(id: RoomId, name: string, createdBy: UserId, memberCount: nat)

  datatype MessageStats = MessageStats(totalMessages: nat, textMessages: nat, fileMessages: nat, imageMessages: nat)

  const SystemKind: string := "system"

  /** A start-up room: public, created by `system`, with no members. */
  function DefaultRoom(id: RoomId, name: string): Room {
    Room(id, name, "system", false, {})
  }

  function Summary(room: Room): RoomSummary {
    RoomSummary(room.id, room.name, room.createdBy, room.isPrivate, |room.members|)
  }

  function PublicSummary(room: Room): PublicRoomSummary {
    PublicRoomSummary(room.id, room.name, room.createdBy, |room.members|)
  }

  // ---------------------------------------------------------------------------
  // Specification functions over the message map and its insertion order
  // ---------------------------------------------------------------------------

  /** Every id of the sequence is a key of the map. */
  ghost predicate Indexes(msgs: map<MessageId, Message>, ids: seq<MessageId>) {
    forall i :: 0 <= i < |ids| ==> ids[i] in msgs
  }

  /** Timestamps strictly increase along the sequence. */
  ghost predicate Ascending(msgs: map<MessageId, Message>, ids: seq<MessageId>)
    requires Indexes(msgs, ids)
  {
    forall i, j :: 0 <= i < j < |ids| ==> msgs[ids[i]].timestamp < msgs[ids[j]].timestamp
  }

  /** The two read paths that skip soft-deleted messages: the room listing and the search. */
  datatype Criterion = VisibleIn(roomId: RoomId) | SearchIn(roomId: RoomId, query: string)

  predicate Selects(c: Criterion, m: Message) {
    && m.roomId == c.roomId
    && !m.deleted
    && (c.SearchIn? ==> MatchesIgnoringCase(m.content, c.query))
  }

  /** The messages chosen by `c`, in insertion order. */
  ghost function Select(msgs: map<MessageId, Message>, ids: seq<MessageId>, c: Criterion): seq<Message>
    requires Indexes(msgs, ids)
  {
    if ids == [] then []
    else
      var last := msgs[ids[|ids| - 1]];
      Select(msgs, ids[..|ids| - 1], c) + if Selects(c, last) then [last] else []
  }

  /** `Select` keeps exactly the chosen messages of the sequence. */
  lemma {:induction false} SelectMembers(msgs: map<MessageId, Message>, ids: seq<MessageId>, c: Criterion)
    requires Indexes(msgs, ids)
    ensures forall m :: m in Select(msgs, ids, c) ==>
      Selects(c, m) && exists k :: 0 <= k < |ids| && msgs[ids[k]] == m
    ensures forall k :: 0 <= k < |ids| && Selects(c, msgs[ids[k]]) ==> msgs[ids[k]] in Select(msgs, ids, c)
  {
    if ids != [] {
      var prefix := ids[..|ids| - 1];
      SelectMembers(msgs, prefix, c);
      forall m | m in Select(msgs, ids, c)
        ensures exists k :: 0 <= k < |ids| && msgs[ids[k]] == m
      {
        if m in Select(msgs, prefix, c) {
          var k :| 0 <= k < |prefix| && msgs[prefix[k]] == m;
          assert msgs[ids[k]] == m;
        } else {
          assert msgs[ids[|ids| - 1]] == m;
        }
      }
      forall k | 0 <= k < |ids| && Selects(c, msgs[ids[k]])
        ensures msgs[ids[k]] in Select(msgs, ids, c)
      {
        if k < |prefix| {
          assert ids[k] == prefix[k];
        }
      }
    }
  }

  /** Strictly increasing timestamps: oldest first. */
  predicate OldestFirst(s: seq<Message>) {
    forall i, j :: 0 <= i < j < |s| ==> s[i].timestamp < s[j].timestamp
  }

  /** Strictly decreasing timestamps: newest first. */
  predicate NewestFirst(s: seq<Message>) {
    forall i, j :: 0 <= i < j < |s| ==> s[i].timestamp > s[j].timestamp
  }

  /** Chosen messages come out oldest first. */
  lemma {:induction false} SelectAscending(msgs: map<MessageId, Message>, ids: seq<MessageId>, c: Criterion)
    requires Indexes(msgs, ids) && Ascending(msgs, ids)
    ensures OldestFirst(Select(msgs, ids, c))
  {
    if ids != [] {
      var prefix := ids[..|ids| - 1];
      var last := msgs[ids[|ids| - 1]];
      assert Ascending(msgs, prefix) by {
        forall i, j | 0 <= i < j < |prefix| ensures msgs[prefix[i]].timestamp < msgs[prefix[j]].timestamp {
          assert prefix[i] == ids[i] && prefix[j] == ids[j];
        }
      }
      SelectAscending(msgs, prefix, c);
      SelectMembers(msgs, prefix, c);
      var p := Select(msgs, prefix, c);
      forall i | 0 <= i < |p| ensures p[i].timestamp < last.timestamp {
        assert p[i] in p;
        var k :| 0 <= k < |prefix| && msgs[prefix[k]] == p[i];
        assert prefix[k] == ids[k];
      }
      var s := Select(msgs, ids, c);
      assert s == p + if Selects(c, last) then [last] else [];
      forall i, j | 0 <= i < j < |s| ensures s[i].timestamp < s[j].timestamp {
        if j < |p| {
          assert s[i] == p[i] && s[j] == p[j];
        } else {
          assert j == |p| && i < |p|;
          assert s[i] == p[i] && s[j] == last;
        }
      }
    }
  }

  /** `array.reverse()` */
  function Reverse<T>(s: seq<T>): (r: seq<T>)
    ensures |r| == |s|
    ensures forall i :: 0 <= i < |s| ==> r[i] == s[|s| - 1 - i]
  {
    seq(|s|, i requires 0 <= i < |s| => s[|s| - 1 - i])
  }

  /** Reversing keeps the elements. */
  lemma ReverseMembers<T>(s: seq<T>)
    ensures forall x :: x in Reverse(s) <==> x in s
  {
    var r := Reverse(s);
    forall x | x in s ensures x in r {
      var i :| 0 <= i < |s| && s[i] == x;
      assert r[|s| - 1 - i] == x;
    }
  }

  /**
   * A page of the newest-first selection holds chosen, stored messages in
   * strictly decreasing time.
   */
  lemma NewestFirstPage(msgs: map<MessageId, Message>, ids: seq<MessageId>, c: Criterion, offset: nat, limit: nat)
    requires Indexes(msgs, ids) && Ascending(msgs, ids)
    requires forall id :: id in msgs ==> msgs[id].id == id
    ensures var page := Page(Reverse(Select(msgs, ids, c)), offset, limit);
      (forall m :: m in page ==> Selects(c, m) && m.id in msgs && msgs[m.id] == m) && NewestFirst(page)
  {
    var s := Select(msgs, ids, c);
    SelectMembers(msgs, ids, c);
    SelectAscending(msgs, ids, c);
    ReverseMembers(s);
    ReverseOldestFirst(s);
    PageNewestFirst(Reverse(s), offset, limit);
    var page := Page(Reverse(s), offset, limit);
    forall m | m in page ensures Selects(c, m) && m.id in msgs && msgs[m.id] == m {
      assert m in s;
      var k :| 0 <= k < |ids| && msgs[ids[k]] == m;
    }
  }

  lemma ReverseOldestFirst(s: seq<Message>)
    requires OldestFirst(s)
    ensures NewestFirst(Reverse(s))
  {
    var r := Reverse(s);
    forall i, j | 0 <= i < j < |r| ensures r[i].timestamp > r[j].timestamp {
      assert r[i] == s[|s| - 1 - i] && r[j] == s[|s| - 1 - j];
    }
  }

  lemma PageNewestFirst(s: seq<Message>, offset: nat, limit: nat)
    requires NewestFirst(s)
    ensures NewestFirst(Page(s, offset, limit))
  {
    var lo := Min(offset, |s|);
    var page := Page(s, offset, limit);
    forall i, j | 0 <= i < j < |page| ensures page[i].timestamp > page[j].timestamp {
      assert page[i] == s[lo + i] && page[j] == s[lo + j];
    }
  }

  /** `array.slice(offset, offset + limit)` */
  function Page<T>(s: seq<T>, offset: nat, limit: nat): (r: seq<T>)
    ensures |r| <= limit
    ensures forall x :: x in r ==> x in s
    ensures offset + limit <= |s| ==> r == s[offset..offset + limit]
    ensures offset >= |s| ==> r == []
  {
    s[Min(offset, |s|)..Min(offset + limit, |s|)]
  }

  /** Room-`roomId` messages that `userId` has not read and did not send (deleted ones included). */
  ghost function UnreadCount(msgs: map<MessageId, Message>, ids: seq<MessageId>, roomId: RoomId, userId: UserId): nat
    requires Indexes(msgs, ids)
  {
    if ids == [] then 0
    else
      var m := msgs[ids[|ids| - 1]];
      UnreadCount(msgs, ids[..|ids| - 1], roomId, userId)
      + if m.roomId == roomId && userId !in m.readBy && m.senderId != userId then 1 else 0
  }

  /** Room-`roomId` messages whose read set lacks `userId`, own messages included. */
  ghost function LackingCount(msgs: map<MessageId, Message>, ids: seq<MessageId>, roomId: RoomId, userId: UserId): nat
    requires Indexes(msgs, ids)
  {
    if ids == [] then 0
    else
      var m := msgs[ids[|ids| - 1]];
      LackingCount(msgs, ids[..|ids| - 1], roomId, userId)
      + if m.roomId == roomId && userId !in m.readBy then 1 else 0
  }

  /** The effect of `markRoomAsRead` on one message. */
  function ReadInRoom(m: Message, roomId: RoomId, userId: UserId): Message {
    if m.roomId == roomId then m.(readBy := m.readBy + {userId}) else m
  }

  function MarkedRead(msgs: map<MessageId, Message>, roomId: RoomId, userId: UserId): map<MessageId, Message> {
    map id | id in msgs :: ReadInRoom(msgs[id], roomId, userId)
  }

  /** Marking a room read changes only read sets: ids, keys and timestamps stay. */
  lemma MarkedReadShape(msgs: map<MessageId, Message>, ids: seq<MessageId>, roomId: RoomId, userId: UserId)
    requires Indexes(msgs, ids) && Ascending(msgs, ids)
    ensures var after := MarkedRead(msgs, roomId, userId);
      && after.Keys == msgs.Keys
      && (forall id :: id in after ==> after[id].id == msgs[id].id && after[id].timestamp == msgs[id].timestamp)
      && Indexes(after, ids) && Ascending(after, ids)
  {
  }

  /** After `markRoomAsRead(r, u)` the unread count of `u` in `r` is zero. */
  lemma {:induction false} NoUnreadAfterMarkRoom(msgs: map<MessageId, Message>, ids: seq<MessageId>, roomId: RoomId, userId: UserId)
    requires Indexes(msgs, ids)
    ensures Indexes(MarkedRead(msgs, roomId, userId), ids)
    ensures UnreadCount(MarkedRead(msgs, roomId, userId), ids, roomId, userId) == 0
  {
    if ids != [] {
      NoUnreadAfterMarkRoom(msgs, ids[..|ids| - 1], roomId, userId);
    }
  }

  /** A message is never unread by someone unless its read set lacks them: unread is at most lacking. */
  lemma {:induction false} UnreadAtMostLacking(msgs: map<MessageId, Message>, ids: seq<MessageId>, roomId: RoomId, userId: UserId)
    requires Indexes(msgs, ids)
    ensures UnreadCount(msgs, ids, roomId, userId) <= LackingCount(msgs, ids, roomId, userId)
  {
    if ids != [] {
      UnreadAtMostLacking(msgs, ids[..|ids| - 1], roomId, userId);
    }
  }

  /** `getMessageStats`: non-deleted messages of the room, in all and per kind. */
  ghost function Stats(msgs: map<MessageId, Message>, ids: seq<MessageId>, roomId: RoomId): MessageStats
    requires Indexes(msgs, ids)
  {
    if ids == [] then MessageStats(0, 0, 0, 0)
    else
      var s := Stats(msgs, ids[..|ids| - 1], roomId);
      var m := msgs[ids[|ids| - 1]];
      if m.roomId == roomId && !m.deleted then
        MessageStats(s.totalMessages + 1,
                     s.textMessages + (if m.kind == "text" then 1 else 0),
                     s.fileMessages + (if m.kind == "file" then 1 else 0),
                     s.imageMessages + (if m.kind == "image" then 1 else 0))
      else s
  }

  /**
   * The total of the statistics is the length of the room listing, and the
   * three per-kind counts never exceed it (system messages count only in the total).
   */
  lemma {:induction false} StatsConsistent(msgs: map<MessageId, Message>, ids: seq<MessageId>, roomId: RoomId)
    requires Indexes(msgs, ids)
    ensures var s := Stats(msgs, ids, roomId);
      && s.totalMessages == |Select(msgs, ids, VisibleIn(roomId))|
      && s.textMessages + s.fileMessages + s.imageMessages <= s.totalMessages
  {
    if ids != [] {
      StatsConsistent(msgs, ids[..|ids| - 1], roomId);
    }
  }

  // ---------------------------------------------------------------------------
  // Specification functions for the per-message updates and the typing sets
  // ---------------------------------------------------------------------------

  /** Who may soft-delete a message: its sender, or anyone when it is a system message. */
  predicate MayDelete(m: Message, userId: UserId) {
    m.senderId == userId || m.kind == SystemKind
  }

  function AfterDelete(msgs: map<MessageId, Message>, messageId: MessageId, userId: UserId): map<MessageId, Message> {
    if messageId in msgs && MayDelete(msgs[messageId], userId)
    then msgs[messageId := msgs[messageId].(deleted := true)]
    else msgs
  }

  /** Deleting twice is deleting once, and a delete that succeeded succeeds again. */
  lemma DeleteIdempotent(msgs: map<MessageId, Message>, messageId: MessageId, userId: UserId)
    ensures AfterDelete(AfterDelete(msgs, messageId, userId), messageId, userId) == AfterDelete(msgs, messageId, userId)
    ensures messageId in msgs && MayDelete(msgs[messageId], userId) ==>
      var after := AfterDelete(msgs, messageId, userId);
      messageId in after && MayDelete(after[messageId], userId) && after[messageId].deleted
  {
  }

  /** The typing set of a room; a room never touched has none. */
  function TypingIn(typing: map<RoomId, seq<UserId>>, roomId: RoomId): seq<UserId> {
    if roomId in typing then typing[roomId] else []
  }

  function TypingAfter(typing: map<RoomId, seq<UserId>>, roomId: RoomId, userId: UserId, isTyping: bool): map<RoomId, seq<UserId>> {
    var current := TypingIn(typing, roomId);
    typing[roomId := if isTyping then Add(current, userId) else Delete(current, userId)]
  }

  /**
   * A start followed by a stop of a user who was not typing restores the
   * room's typing set, and no other room's set is touched by either.
   */
  lemma TypingStartStopRestores(typing: map<RoomId, seq<UserId>>, roomId: RoomId, userId: UserId)
    requires userId !in TypingIn(typing, roomId)
    ensures var after := TypingAfter(TypingAfter(typing, roomId, userId, true), roomId, userId, false);
      && TypingIn(after, roomId) == TypingIn(typing, roomId)
      && forall r :: r != roomId ==> TypingIn(after, r) == TypingIn(typing, r)
  {
    DeleteAfterAdd(TypingIn(typing, roomId), userId);
  }

  /** Room summaries for `getAllRooms`, in creation order. */
  function Summaries(rooms: map<RoomId, Room>, ids: seq<RoomId>): (r: seq<RoomSummary>)
    requires forall i :: 0 <= i < |ids| ==> ids[i] in rooms
    ensures |r| == |ids|
    ensures forall i :: 0 <= i < |ids| ==> r[i] == Summary(rooms[ids[i]])
  {
    if ids == [] then [] else [Summary(rooms[ids[0]])] + Summaries(rooms, ids[1..])
  }

  /** The `!room.isPrivate` test of `getPublicRooms`. */
  function PublicIn(rooms: map<RoomId, Room>): RoomId -> bool {
    id => id in rooms && !rooms[id].isPrivate
  }

  /** Summaries of the public rooms for `getPublicRooms`, in creation order. */
  function PublicSummaries(rooms: map<RoomId, Room>, ids: seq<RoomId>): (r: seq<PublicRoomSummary>)
    requires forall i :: 0 <= i < |ids| ==> ids[i] in rooms
    requires forall i :: 0 <= i < |ids| ==> rooms[ids[i]].id == ids[i]
    ensures forall s :: s in r ==> s.id in rooms && !rooms[s.id].isPrivate && s == PublicSummary(rooms[s.id])
    ensures forall i :: 0 <= i < |ids| && !rooms[ids[i]].isPrivate ==> PublicSummary(rooms[ids[i]]) in r
  {
    if ids == [] then []
    else
      var rest := PublicSummaries(rooms, ids[1..]);
      assert forall i :: 1 <= i < |ids| ==> ids[1..][i - 1] == ids[i];
      if rooms[ids[0]].isPrivate then rest else [PublicSummary(rooms[ids[0]])] + rest
  }

  /**
   * The public listing follows the filter over the ids: one summary per id
   * that the public filter keeps, in the filter's order.
   */
  lemma {:induction false} PublicSummariesInOrder(rooms: map<RoomId, Room>, ids: seq<RoomId>)
    requires forall i :: 0 <= i < |ids| ==> ids[i] in rooms
    requires forall i :: 0 <= i < |ids| ==> rooms[ids[i]].id == ids[i]
    ensures |PublicSummaries(rooms, ids)| == |Keep(ids, PublicIn(rooms))|
    ensures forall i :: 0 <= i < |PublicSummaries(rooms, ids)| ==>
      PublicSummaries(rooms, ids)[i].id == Keep(ids, PublicIn(rooms))[i]
  {
    if ids != [] {
      PublicSummariesInOrder(rooms, ids[1..]);
      assert forall i :: 1 <= i < |ids| ==> ids[1..][i - 1] == ids[i];
      var p := PublicIn(rooms);
      var rest := PublicSummaries(rooms, ids[1..]);
      assert p(ids[0]) == !rooms[ids[0]].isPrivate;
      var r := PublicSummaries(rooms, ids);
      var kept := Keep(ids, p);
      var keptRest := Keep(ids[1..], p);
      if rooms[ids[0]].isPrivate {
        assert r == rest;
        assert kept == keptRest;
      } else {
        assert r == [PublicSummary(rooms[ids[0]])] + rest;
        assert kept == [ids[0]] + keptRest;
        forall i | 0 <= i < |r|
          ensures r[i].id == kept[i]
        {
          if i > 0 {
            assert r[i] == rest[i - 1];
            assert kept[i] == keptRest[i - 1];
          }
        }
      }
    }
  }

  /** Distinct ids give one public summary per room. */
  lemma PublicSummariesDistinct(rooms: map<RoomId, Room>, ids: seq<RoomId>)
    requires forall i :: 0 <= i < |ids| ==> ids[i] in rooms
    requires forall i :: 0 <= i < |ids| ==> rooms[ids[i]].id == ids[i]
    requires NoDuplicates(ids)
    ensures DistinctBy(PublicSummaries(rooms, ids), (s: PublicRoomSummary) => s.id)
  {
    PublicSummariesInOrder(rooms, ids);
    var kept := Keep(ids, PublicIn(rooms));
    assert DistinctBy(ids, (id: RoomId) => id);
    KeepDistinctBy(ids, PublicIn(rooms), (id: RoomId) => id);
    assert forall i, j :: 0 <= i < j < |kept| ==> kept[i] != kept[j];
  }

  /** Summaries of the rooms a user belongs to or created, for `getUserRooms`. */
  ghost function UserRooms(rooms: map<RoomId, Room>, ids: seq<RoomId>, userId: UserId): seq<RoomSummary>
    requires forall i :: 0 <= i < |ids| ==> ids[i] in rooms
  {
    if ids == [] then []
    else
      var room := rooms[ids[|ids| - 1]];
      UserRooms(rooms, ids[..|ids| - 1], userId)
      + if userId in room.members || room.createdBy == userId then [Summary(room)] else []
  }

  /** `getUserRooms` reports exactly the rooms the user is a member or the creator of. */
  lemma {:induction false} UserRoomsMembers(rooms: map<RoomId, Room>, ids: seq<RoomId>, userId: UserId)
    requires forall i :: 0 <= i < |ids| ==> ids[i] in rooms
    requires forall i :: 0 <= i < |ids| ==> rooms[ids[i]].id == ids[i]
    ensures forall s :: s in UserRooms(rooms, ids, userId) ==>
      s.id in rooms && s == Summary(rooms[s.id]) && (userId in rooms[s.id].members || rooms[s.id].createdBy == userId)
    ensures forall i :: 0 <= i < |ids| && (userId in rooms[ids[i]].members || rooms[ids[i]].createdBy == userId) ==>
      Summary(rooms[ids[i]]) in UserRooms(rooms, ids, userId)
  {
    if ids != [] {
      var prefix := ids[..|ids| - 1];
      UserRoomsMembers(rooms, prefix, userId);
      forall i | 0 <= i < |ids| && (userId in rooms[ids[i]].members || rooms[ids[i]].createdBy == userId)
        ensures Summary(rooms[ids[i]]) in UserRooms(rooms, ids, userId)
      {
        if i < |prefix| {
          assert ids[i] == prefix[i];
        }
      }
    }
  }

  /** Counting one more message of the sequence. */
  lemma LackingStep(msgs: map<MessageId, Message>, ids: seq<MessageId>, i: nat, roomId: RoomId, userId: UserId)
    requires Indexes(msgs, ids) && i < |ids|
    ensures LackingCount(msgs, ids[..i + 1], roomId, userId)
         == LackingCount(msgs, ids[..i], roomId, userId)
            + if msgs[ids[i]].roomId == roomId && userId !in msgs[ids[i]].readBy then 1 else 0
  {
    assert ids[..i + 1][..i] == ids[..i];
  }

  /** The first `i` messages of `ids` have been marked read in `updated`, the others are untouched. */
  ghost predicate ReadUpTo(msgs: map<MessageId, Message>, ids: seq<MessageId>, updated: map<MessageId, Message>,
                           i: nat, roomId: RoomId, userId: UserId)
    requires Indexes(msgs, ids)
  {
    && updated.Keys == msgs.Keys
    && forall k :: 0 <= k < |ids| ==>
         updated[ids[k]] == if k < i then ReadInRoom(msgs[ids[k]], roomId, userId) else msgs[ids[k]]
  }

  /** One turn of the loop of `markRoomAsRead` on the map. */
  lemma ReadStep(msgs: map<MessageId, Message>, ids: seq<MessageId>, updated: map<MessageId, Message>,
                 i: nat, roomId: RoomId, userId: UserId)
    requires Indexes(msgs, ids) && NoDuplicates(ids) && i < |ids|
    requires ReadUpTo(msgs, ids, updated, i, roomId, userId)
    ensures var m := updated[ids[i]];
      ReadUpTo(msgs, ids,
               if m.roomId == roomId && userId !in m.readBy then updated[ids[i] := m.(readBy := m.readBy + {userId})]
               else updated,
               i + 1, roomId, userId)
  {
    var m := updated[ids[i]];
    assert m == msgs[ids[i]];
    assert forall k :: 0 <= k < |ids| && k != i ==> ids[k] != ids[i];
    if !(m.roomId == roomId && userId !in m.readBy) {
      assert m.roomId == roomId ==> m.readBy + {userId} == m.readBy;
      assert ReadInRoom(m, roomId, userId) == m;
    }
  }

  /** After the loop every message of the map has been visited. */
  lemma ReadDone(msgs: map<MessageId, Message>, ids: seq<MessageId>, updated: map<MessageId, Message>,
                 roomId: RoomId, userId: UserId)
    requires Indexes(msgs, ids) && forall id :: id in msgs ==> id in ids
    requires ReadUpTo(msgs, ids, updated, |ids|, roomId, userId)
    ensures updated == MarkedRead(msgs, roomId, userId)
  {
    forall id | id in msgs ensures updated[id] == ReadInRoom(msgs[id], roomId, userId) {
      var k :| 0 <= k < |ids| && ids[k] == id;
    }
  }

  /** The loop of `markRoomAsRead`: the updated messages and the number that changed. */
  method ReadRoomMessages(msgs: map<MessageId, Message>, ids: seq<MessageId>, roomId: RoomId, userId: UserId)
    returns (updated: map<MessageId, Message>, updatedCount: nat)
    requires Indexes(msgs, ids) && NoDuplicates(ids)
    requires forall id :: id in msgs ==> id in ids
    ensures updated == MarkedRead(msgs, roomId, userId)
    ensures updatedCount == LackingCount(msgs, ids, roomId, userId)
    ensures forall id :: id in updated && updated[id].roomId == roomId ==> userId in updated[id].readBy
  {
    updated := msgs;
    updatedCount := 0;
    var i := 0;
    while i < |ids|
      invariant 0 <= i <= |ids|
      invariant ReadUpTo(msgs, ids, updated, i, roomId, userId)
      invariant updatedCount == LackingCount(msgs, ids[..i], roomId, userId)
    {
      ReadStep(msgs, ids, updated, i, roomId, userId);
      LackingStep(msgs, ids, i, roomId, userId);
      var m := updated[ids[i]];
      assert m == msgs[ids[i]];
      if m.roomId == roomId && userId !in m.readBy {
        updated := updated[ids[i] := m.(readBy := m.readBy + {userId})];
        updatedCount := updatedCount + 1;
      }
      i := i + 1;
    }
    assert ids[..i] == ids;
    ReadDone(msgs, ids, updated, roomId, userId);
  }

  // ---------------------------------------------------------------------------
  // The ledger
  // ---------------------------------------------------------------------------

  class Ledger {
    var messages: map<MessageId, Message>
    var order: seq<MessageId>           // insertion order of `messages`
    var clock: nat                      // the next timestamp
    var rooms: map<RoomId, Room>
    var roomOrder: seq<RoomId>          // insertion order of `rooms`
    var typingUsers: map<RoomId, seq<UserId>>

    ghost predicate Valid()
      reads this
    {
      && Indexes(messages, order)
      && (forall id :: id in messages ==> id in order)
      && (forall id :: id in messages ==> messages[id].id == id && messages[id].timestamp < clock)
      && Ascending(messages, order)
      && (forall i :: 0 <= i < |roomOrder| ==> roomOrder[i] in rooms)
      && (forall id :: id in rooms ==> id in roomOrder && rooms[id].id == id)
      && NoDuplicates(roomOrder)
      && (forall r :: r in typingUsers ==> NoDuplicates(typingUsers[r]))
    }

    /** An empty ledger. */
    constructor ()
      ensures Valid()
      ensures messages == map[] && order == [] && clock == 0
      ensures rooms == map[] && roomOrder == [] && typingUsers == map[]
    {
      messages, order, clock := map[], [], 0;
      rooms, roomOrder, typingUsers := map[], [], map[];
    }

    /** Ids along `order` are distinct, since their timestamps are. */
    lemma OrderDistinct()
      requires Valid()
      ensures NoDuplicates(order)
    {
    }

    method CreateMessage(id: MessageId, senderId: UserId, roomId: RoomId, content: string, kind: string, fileData: Option<FileData>)
      returns (message: Message)
      requires Valid()
      requires id !in messages
      modifies this
      ensures Valid()
      ensures message == Message(id, senderId, roomId, content, kind, fileData, old(clock), {senderId}, false, false)
      ensures messages == old(messages)[id := message] && order == old(order) + [id] && clock == old(clock) + 1
      ensures rooms == old(rooms) && roomOrder == old(roomOrder) && typingUsers == old(typingUsers)
    {
      message := Message(id, senderId, roomId, content, kind, fileData, clock, {senderId}, false, false);
      messages := messages[id := message];
      order := order + [id];
      clock := clock + 1;
    }

    /** `createRoom`; an existing id is overwritten in place, as `Map.set` does. */
    method CreateRoom(roomId: RoomId, name: string, createdBy: UserId, isPrivate: bool, members: seq<UserId>)
      returns (room: Room)
      requires Valid()
      modifies this
      ensures Valid()
      ensures room == Room(roomId, name, createdBy, isPrivate, Elements(members))
      ensures rooms == old(rooms)[roomId := room]
      ensures roomOrder == if roomId in old(rooms) then old(roomOrder) else old(roomOrder) + [roomId]
      ensures messages == old(messages) && order == old(order) && clock == old(clock) && typingUsers == old(typingUsers)
    {
      room := Room(roomId, name, createdBy, isPrivate, Elements(members));
      if roomId !in rooms {
        roomOrder := roomOrder + [roomId];
      }
      rooms := rooms[roomId := room];
    }

    /** The start-up rooms: four public rooms created by `system` with no members. */
    method InitializeDefaultRooms()
      requires Valid()
      modifies this
      ensures Valid()
      ensures rooms == old(rooms)
        ["global" := DefaultRoom("global", "Global Chat")]
        ["general" := DefaultRoom("general", "General")]
        ["random" := DefaultRoom("random", "Random")]
        ["help" := DefaultRoom("help", "Help & Support")]
      ensures roomOrder == Add(Add(Add(Add(old(roomOrder), "global"), "general"), "random"), "help")
      ensures messages == old(messages) && order == old(order) && clock == old(clock) && typingUsers == old(typingUsers)
    {
      assert Elements<UserId>([]) == {};
      var _ := CreateRoom("global", "Global Chat", "system", false, []);
      var _ := CreateRoom("general", "General", "system", false, []);
      var _ := CreateRoom("random", "Random", "system", false, []);
      var _ := CreateRoom("help", "Help & Support", "system", false, []);
    }

    function GetMessageById(messageId: MessageId): (r: Option<Message>)
      reads this
      requires Valid()
      ensures r.Some? <==> messageId in messages
      ensures r.Some? ==> r.value == messages[messageId] && r.value.id == messageId
    {
      if messageId in messages then Some(messages[messageId]) else None
    }

    function GetRoomById(roomId: RoomId): (r: Option<Room>)
      reads this
      requires Valid()
      ensures r.Some? <==> roomId in rooms
      ensures r.Some? ==> r.value == rooms[roomId] && r.value.id == roomId
    {
      if roomId in rooms then Some(rooms[roomId]) else None
    }

    /**
     * `getMessagesByRoom`: the room's non-deleted messages, newest first,
     * then the page `[offset, offset + limit)`.
     */
    method GetMessagesByRoom(roomId: RoomId, limit: nat, offset: nat) returns (page: seq<Message>)
      requires Valid()
      ensures page == Page(Reverse(Select(messages, order, VisibleIn(roomId))), offset, limit)
      ensures |page| <= limit
      ensures forall m :: m in page ==> m.roomId == roomId && !m.deleted && m.id in messages && messages[m.id] == m
      ensures NewestFirst(page)
    {
      var found := Collect(VisibleIn(roomId));
      page := Page(Reverse(found), offset, limit);
      NewestFirstPage(messages, order, VisibleIn(roomId), offset, limit);
    }

    /** `searchMessages`: non-deleted room messages whose content contains the query, ignoring case, newest first. */
    method SearchMessages(roomId: RoomId, query: string, userId: UserId) returns (results: seq<Message>)
      requires Valid()
      ensures results == Reverse(Select(messages, order, SearchIn(roomId, query)))
      ensures forall m :: m in results ==>
        m.roomId == roomId && !m.deleted && MatchesIgnoringCase(m.content, query) && m.id in messages && messages[m.id] == m
      ensures forall id :: id in messages ==>
        (messages[id].roomId == roomId && !messages[id].deleted && MatchesIgnoringCase(messages[id].content, query)
         ==> messages[id] in results)
      ensures NewestFirst(results)
    {
      var found := Collect(SearchIn(roomId, query));
      results := Reverse(found);
      NewestFirstPage(messages, order, SearchIn(roomId, query), 0, |found|);
      assert Page(results, 0, |found|) == results;
      SelectComplete(SearchIn(roomId, query));
      ReverseMembers(found);
    }

    /** The loop shared by the listing and the search: filter the messages in insertion order. */
    method Collect(c: Criterion) returns (found: seq<Message>)
      requires Valid()
      ensures found == Select(messages, order, c)
    {
      found := [];
      var i := 0;
      while i < |order|
        invariant 0 <= i <= |order|
        invariant found == Select(messages, order[..i], c)
      {
        var m := messages[order[i]];
        assert order[..i + 1][..i] == order[..i];
        if Selects(c, m) {
          found := found + [m];
        }
        i := i + 1;
      }
      assert order[..i] == order;
    }

    /** Every chosen message of the ledger is in the selection. */
    lemma SelectComplete(c: Criterion)
      requires Valid()
      ensures forall id :: id in messages && Selects(c, messages[id]) ==> messages[id] in Select(messages, order, c)
    {
      SelectMembers(messages, order, c);
      forall id | id in messages && Selects(c, messages[id])
        ensures messages[id] in Select(messages, order, c)
      {
        var k :| 0 <= k < |order| && order[k] == id;
      }
    }

    function GetAllRooms(): (r: seq<RoomSummary>)
      reads this
      requires Valid()
      ensures forall id :: id in rooms <==> exists i :: 0 <= i < |r| && r[i].id == id
      ensures forall i :: 0 <= i < |r| ==> r[i].id in rooms && r[i] == Summary(rooms[r[i].id])
      ensures |r| == |roomOrder| && forall i :: 0 <= i < |r| ==> r[i].id == roomOrder[i]
      ensures DistinctBy(r, (s: RoomSummary) => s.id)
    {
      var r := Summaries(rooms, roomOrder);
      assert forall id :: id in rooms ==> exists i :: 0 <= i < |roomOrder| && roomOrder[i] == id;
      r
    }

    function GetPublicRooms(): (r: seq<PublicRoomSummary>)
      reads this
      requires Valid()
      ensures forall s :: s in r ==> s.id in rooms && !rooms[s.id].isPrivate && s == PublicSummary(rooms[s.id])
      ensures forall id :: id in rooms && !rooms[id].isPrivate ==> PublicSummary(rooms[id]) in r
      ensures |r| == |Keep(roomOrder, PublicIn(rooms))|
      ensures forall i :: 0 <= i < |r| ==> r[i].id == Keep(roomOrder, PublicIn(rooms))[i]
      ensures DistinctBy(r, (s: PublicRoomSummary) => s.id)
    {
      var r := PublicSummaries(rooms, roomOrder);
      PublicSummariesInOrder(rooms, roomOrder);
      PublicSummariesDistinct(rooms, roomOrder);
      assert forall id :: id in rooms ==> exists i :: 0 <= i < |roomOrder| && roomOrder[i] == id;
      r
    }

    method GetUserRooms(userId: UserId) returns (result: seq<RoomSummary>)
      requires Valid()
      ensures result == UserRooms(rooms, roomOrder, userId)
      ensures forall s :: s in result ==>
        s.id in rooms && s == Summary(rooms[s.id]) && (userId in rooms[s.id].members || rooms[s.id].createdBy == userId)
      ensures forall id :: id in rooms && (userId in rooms[id].members || rooms[id].createdBy == userId) ==>
        Summary(rooms[id]) in result
    {
      result := [];
      var i := 0;
      while i < |roomOrder|
        invariant 0 <= i <= |roomOrder|
        invariant result == UserRooms(rooms, roomOrder[..i], userId)
      {
        var room := rooms[roomOrder[i]];
        assert roomOrder[..i + 1][..i] == roomOrder[..i];
        if userId in room.members || room.createdBy == userId {
          result := result + [Summary(room)];
        }
        i := i + 1;
      }
      assert roomOrder[..i] == roomOrder;
      UserRoomsMembers(rooms, roomOrder, userId);
      forall id | id in rooms && (userId in rooms[id].members || rooms[id].createdBy == userId)
        ensures Summary(rooms[id]) in result
      {
        var k :| 0 <= k < |roomOrder| && roomOrder[k] == id;
      }
    }

    /** `addUserToRoom`: `None` and no change for an unknown room, else a set insertion. */
    method AddUserToRoom(roomId: RoomId, userId: UserId) returns (room: Option<Room>)
      requires Valid()
      modifies this
      ensures Valid()
      ensures roomId !in old(rooms) ==> room == None && rooms == old(rooms)
      ensures roomId in old(rooms) ==>
        && room == Some(old(rooms)[roomId].(members := old(rooms)[roomId].members + {userId}))
        && rooms == old(rooms)[roomId := room.value]
      ensures roomOrder == old(roomOrder)
      ensures messages == old(messages) && order == old(order) && clock == old(clock) && typingUsers == old(typingUsers)
    {
      if roomId in rooms {
        var updated := rooms[roomId].(members := rooms[roomId].members + {userId});
        rooms := rooms[roomId := updated];
        room := Some(updated);
      } else {
        room := None;
      }
    }

    /** `removeUserFromRoom`: `None` and no change for an unknown room, else a set removal. */
    method RemoveUserFromRoom(roomId: RoomId, userId: UserId) returns (room: Option<Room>)
      requires Valid()
      modifies this
      ensures Valid()
      ensures roomId !in old(rooms) ==> room == None && rooms == old(rooms)
      ensures roomId in old(rooms) ==>
        && room == Some(old(rooms)[roomId].(members := old(rooms)[roomId].members - {userId}))
        && rooms == old(rooms)[roomId := room.value]
      ensures roomOrder == old(roomOrder)
      ensures messages == old(messages) && order == old(order) && clock == old(clock) && typingUsers == old(typingUsers)
    {
      if roomId in rooms {
        var updated := rooms[roomId].(members := rooms[roomId].members - {userId});
        rooms := rooms[roomId := updated];
        room := Some(updated);
      } else {
        room := None;
      }
    }

    /** `markMessageAsRead`: an idempotent insertion into the read set; `None` for an unknown id. */
    method MarkMessageAsRead(messageId: MessageId, userId: UserId) returns (message: Option<Message>)
      requires Valid()
      modifies this
      ensures Valid()
      ensures messageId !in old(messages) ==> message == None && messages == old(messages)
      ensures messageId in old(messages) ==>
        && message == Some(old(messages)[messageId].(readBy := old(messages)[messageId].readBy + {userId}))
        && messages == old(messages)[messageId := message.value]
      ensures order == old(order) && clock == old(clock)
      ensures rooms == old(rooms) && roomOrder == old(roomOrder) && typingUsers == old(typingUsers)
    {
      if messageId in messages {
        var updated := messages[messageId].(readBy := messages[messageId].readBy + {userId});
        messages := messages[messageId := updated];
        message := Some(updated);
      } else {
        message := None;
      }
    }

    /**
     * `markRoomAsRead`: adds `userId` to the read set of every message of the
     * room and returns how many lacked it before.
     */
    method MarkRoomAsRead(roomId: RoomId, userId: UserId) returns (updatedCount: nat)
      requires Valid()
      modifies this
      ensures Valid()
      ensures updatedCount == LackingCount(old(messages), old(order), roomId, userId)
      ensures messages == MarkedRead(old(messages), roomId, userId)
      ensures order == old(order) && clock == old(clock)
      ensures rooms == old(rooms) && roomOrder == old(roomOrder) && typingUsers == old(typingUsers)
    {
      OrderDistinct();
      var updated;
      updated, updatedCount := ReadRoomMessages(messages, order, roomId, userId);
      MarkedReadShape(messages, order, roomId, userId);
      messages := updated;
    }

    /** `getUnreadCount`: room messages `userId` neither read nor sent; deleted ones are counted too. */
    method GetUnreadCount(roomId: RoomId, userId: UserId) returns (count: nat)
      requires Valid()
      ensures count == UnreadCount(messages, order, roomId, userId)
      ensures count <= LackingCount(messages, order, roomId, userId)
    {
      count := 0;
      var i := 0;
      while i < |order|
        invariant 0 <= i <= |order|
        invariant count == UnreadCount(messages, order[..i], roomId, userId)
      {
        var m := messages[order[i]];
        assert order[..i + 1][..i] == order[..i];
        if m.roomId == roomId && userId !in m.readBy && m.senderId != userId {
          count := count + 1;
        }
        i := i + 1;
      }
      assert order[..i] == order;
      UnreadAtMostLacking(messages, order, roomId, userId);
    }

    /** `editMessage`: only the sender may edit; content replaced and `edited` set. */
    method EditMessage(messageId: MessageId, newContent: string, userId: UserId) returns (message: Option<Message>)
      requires Valid()
      modifies this
      ensures Valid()
      ensures message.Some? <==> messageId in old(messages) && old(messages)[messageId].senderId == userId
      ensures message.Some? ==>
        && message.value == old(messages)[messageId].(content := newContent, edited := true)
        && messages == old(messages)[messageId := message.value]
      ensures message.None? ==> messages == old(messages)
      ensures order == old(order) && clock == old(clock)
      ensures rooms == old(rooms) && roomOrder == old(roomOrder) && typingUsers == old(typingUsers)
    {
      if messageId in messages && messages[messageId].senderId == userId {
        var updated := messages[messageId].(content := newContent, edited := true);
        messages := messages[messageId := updated];
        message := Some(updated);
      } else {
        message := None;
      }
    }

    /** `deleteMessage`: a soft delete by the sender, or by anyone for a system message. */
    method DeleteMessage(messageId: MessageId, userId: UserId) returns (message: Option<Message>)
      requires Valid()
      modifies this
      ensures Valid()
      ensures message.Some? <==> messageId in old(messages) && MayDelete(old(messages)[messageId], userId)
      ensures message.Some? ==> message.value == old(messages)[messageId].(deleted := true)
      ensures messages == AfterDelete(old(messages), messageId, userId)
      ensures order == old(order) && clock == old(clock)
      ensures rooms == old(rooms) && roomOrder == old(roomOrder) && typingUsers == old(typingUsers)
    {
      if messageId in messages && MayDelete(messages[messageId], userId) {
        var updated := messages[messageId].(deleted := true);
        messages := messages[messageId := updated];
        message := Some(updated);
      } else {
        message := None;
      }
    }

    /** `setTypingStatus`: a set insertion or removal; returns the room's typing set afterwards. */
    method SetTypingStatus(roomId: RoomId, userId: UserId, isTyping: bool) returns (typing: seq<UserId>)
      requires Valid()
      modifies this
      ensures Valid()
      ensures typingUsers == TypingAfter(old(typingUsers), roomId, userId, isTyping)
      ensures typing == typingUsers[roomId]
      ensures forall u :: u in typing <==>
        if isTyping then u in TypingIn(old(typingUsers), roomId) || u == userId
        else u in TypingIn(old(typingUsers), roomId) && u != userId
      ensures messages == old(messages) && order == old(order) && clock == old(clock)
      ensures rooms == old(rooms) && roomOrder == old(roomOrder)
    {
      var current := TypingIn(typingUsers, roomId);
      if isTyping {
        typing := Add(current, userId);
      } else {
        typing := Delete(current, userId);
      }
      typingUsers := typingUsers[roomId := typing];
    }

    /** `getTypingUsers`: the room's typing set, each user once. */
    function GetTypingUsers(roomId: RoomId): (r: seq<UserId>)
      reads this
      requires Valid()
      ensures NoDuplicates(r)
      ensures roomId !in typingUsers ==> r == []
      ensures roomId in typingUsers ==> r == typingUsers[roomId]
    {
      TypingIn(typingUsers, roomId)
    }

    /** `getMessageStats` */
    method GetMessageStats(roomId: RoomId) returns (stats: MessageStats)
      requires Valid()
      ensures stats == Stats(messages, order, roomId)
      ensures stats.totalMessages == |Select(messages, order, VisibleIn(roomId))|
      ensures stats.textMessages + stats.fileMessages + stats.imageMessages <= stats.totalMessages
    {
      var total, text, file, image := 0, 0, 0, 0;
      var i := 0;
      while i < |order|
        invariant 0 <= i <= |order|
        invariant MessageStats(total, text, file, image) == Stats(messages, order[..i], roomId)
      {
        var m := messages[order[i]];
        assert order[..i + 1][..i] == order[..i];
        if m.roomId == roomId && !m.deleted {
          total := total + 1;
          if m.kind == "text" {
            text := text + 1;
          } else if m.kind == "file" {
            file := file + 1;
          } else if m.kind == "image" {
            image := image + 1;
          }
        }
        i := i + 1;
      }
      assert order[..i] == order;
      stats := MessageStats(total, text, file, image);
      StatsConsistent(messages, order, roomId);
    }
  }
}
