# A verified model of a real-time chat server and its client store

This project models, in Dafny, the core of a real-time chat application. A
Node.js server keeps every piece of state in memory, and a browser store
mirrors the events the server sends. The model covers six parts:

- **The message ledger** (`MessageModel`, class `Ledger`). It holds three maps:
  messages by id, rooms by id, and per room the set of users who are typing.
  It supports:
  - appending messages;
  - a newest-first, paginated listing that skips soft-deleted messages;
  - room membership;
  - read receipts and unread counts;
  - owner-only edit, and soft delete (by the owner, or of any `system` message);
  - typing toggles;
  - case-insensitive search;
  - per-room statistics.

  Message ids are fresh values supplied by the caller. A logical clock stamps
  every message. Timestamps therefore strictly increase in insertion order,
  so "sorted by timestamp, newest first" is the reverse of the insertion
  order.
- **The user directory** (`UserModel`, class `Directory`). Users and online
  users are kept in insertion order. It covers:
  - registration with duplicate username and email checks;
  - lookups;
  - online and offline transitions;
  - the online-user listing;
  - profile merge and deletion.
- **The socket router** (`SocketHandlers`, class `SocketHandler`). It keeps
  three index tables:
  - the latest socket of each user;
  - the set of sockets of each user;
  - the set of sockets in each room.

  Every handler validates its input against the ledger and the directory,
  updates state, and returns the events it emits, in order. Each event is
  addressed to one socket, to a room with or without the sender, or to
  everyone. Routing rules are therefore postconditions, such as "an error
  goes only to the requester" or "a read receipt reaches the sender's latest
  socket only".
- **The client chat store** (`ChatStore`). Each server event is a pure function
  from the old store state to the new one. The getters read per-room message
  lists, typing lists and unread counters. `Apply` dispatches one event, and
  the lemmas relate sequences of events.
- **Registration, login and profile validation** (`AuthController`). It covers:
  - the ordered field checks of registration;
  - the email pattern `^[^\s@]+@[^\s@]+\.[^\s@]+$`, stated as a predicate over
    split points and proved equal to a linear scan;
  - duplicate detection;
  - login outcomes;
  - the profile update built only from truthy fields.
- **Bearer header parsing** (`Jwt`).

Shared helpers:

- `Base`: `Option`, `Result`, ids, JavaScript truthiness of strings, and
  `Array.prototype.filter` as an in-order filter (`Keep`, `SubsequenceOf`).
- `Text`: ASCII lower-casing, substring search and JavaScript's default
  string order.
- `InsertionOrderedSet`: a JavaScript `Set` as a duplicate-free sequence.

The model keeps the code's behaviour in three places where a reader might
expect otherwise:

- One might expect a soft-deleted message to stop counting as unread.
  `getUnreadCount` and `markRoomAsRead` do not skip soft-deleted messages, so
  a deleted message stays unread until the room is marked read.
- One might expect a room's creator to be one of its members. The ledger does
  not add the creator to `members`. Only the router adds the creator
  explicitly, and `getUserRooms` tests `createdBy` separately.
- One might expect the router's `onlineUsers` table to move to a user's
  remaining socket when their latest socket closes. It is not updated while
  another of their sockets stays open. The entry then still names the closed
  socket, and read receipts, invitations and private messages are addressed
  to it. `HandleDisconnection`'s contract states this outright:
  `onlineUsers` is unchanged in that branch.

## Model

| member | source | states |
|---|---|---|
| MessageModel.Ledger.constructor | server/models/Message.js:4-8 | the ledger starts with no messages, no rooms and no typing sets |
| MessageModel.Ledger.InitializeDefaultRooms | server/server.js:93-98 | the four default rooms (`global`, `general`, `random`, `help`) exist afterwards: public, created by `system`, no members; the room order gains each new id once, in that order; messages are untouched |
| MessageModel.Ledger.CreateMessage | server/models/Message.js:10-26 | a new message has `readBy = {sender}`, is neither edited nor deleted, carries the next clock value, and is stored under its id; the rest of the ledger is unchanged |
| MessageModel.Ledger.CreateRoom | server/models/Message.js:28-41 | the room is stored under its id with the given members as a set, replacing a room with the same id as `Map.set` does; messages and typing sets are unchanged |
| MessageModel.Ledger.GetMessageById | server/models/Message.js:43-45 | some message exactly when the id is stored, and then that message |
| MessageModel.Ledger.GetRoomById | server/models/Message.js:47-49 | some room exactly when the id is stored, and then that room |
| MessageModel.Ledger.GetMessagesByRoom | server/models/Message.js:51-63 | the page is the slice `[offset, offset+limit)` of the room's non-deleted messages, newest first; at most `limit` long; every entry is a stored, non-deleted message of that room |
| MessageModel.NewestFirstPage | server/models/Message.js:51-63 | every page of the reversed selection is newest-first and holds only stored messages that meet the criterion |
| MessageModel.Page | server/models/Message.js:62 | `slice(offset, offset+limit)`: at most `limit` long, its elements come from the input, it is the exact slice when in range and empty past the end |
| MessageModel.Reverse | server/models/Message.js:60 | element `i` of the result is element `n-1-i` of the input |
| MessageModel.ReverseMembers | server/models/Message.js:60 | reversal keeps exactly the same elements |
| MessageModel.SelectMembers | server/models/Message.js:53-58 | the filter over the insertion order keeps exactly the messages that meet the criterion |
| MessageModel.SelectAscending | server/models/Message.js:53-60 | the filtered messages are in strictly increasing timestamp order |
| MessageModel.ReverseOldestFirst | server/models/Message.js:60 | reversing an oldest-first list gives a newest-first list |
| MessageModel.PageNewestFirst | server/models/Message.js:60-62 | a slice of a newest-first list is newest-first |
| MessageModel.Ledger.GetAllRooms | server/models/Message.js:65-75 | one summary per stored room, in creation order (position `i` is the room `i`-th in the room order), each the summary built from that room; no room is listed twice |
| MessageModel.Summaries | server/models/Message.js:65-75 | position by position, the summary of each listed room |
| MessageModel.Ledger.GetPublicRooms | server/models/Message.js:77-88 | exactly the summaries of the non-private rooms, in creation order: position `i` is the `i`-th room the public filter keeps from the room order; no room is listed twice |
| MessageModel.PublicSummaries | server/models/Message.js:77-88 | the summaries listed are exactly those of the non-private rooms among the given ids |
| MessageModel.PublicSummariesInOrder | server/models/Message.js:77-88 | the listing has one summary per id the public filter keeps, in the filter's order |
| MessageModel.PublicSummariesDistinct | server/models/Message.js:77-88 | distinct ids give at most one public summary per room |
| MessageModel.Ledger.GetUserRooms | server/models/Message.js:90-106 | exactly the rooms where the user is a member or the creator |
| MessageModel.UserRoomsMembers | server/models/Message.js:90-106 | the selection holds a room's summary iff the user is a member or its creator |
| MessageModel.Ledger.AddUserToRoom | server/models/Message.js:108-116 | an absent room gives none and no change; otherwise the user is added to that room's members only and the room is returned |
| MessageModel.Ledger.RemoveUserFromRoom | server/models/Message.js:118-126 | an absent room gives none and no change; otherwise the user is removed from that room's members only |
| MessageModel.Ledger.MarkMessageAsRead | server/models/Message.js:128-135 | an unknown id gives none and no change; otherwise the user is added to that message's read set and nothing else changes |
| MessageModel.Ledger.MarkRoomAsRead | server/models/Message.js:137-146 | the count is the number of the room's messages that lacked the user, deleted ones included; afterwards every message of the room has the user in its read set and no other message changed |
| MessageModel.ReadRoomMessages | server/models/Message.js:139-145 | the loop's result is the read-marked map, and its counter equals the number of messages that lacked the user |
| MessageModel.MarkedReadShape | server/models/Message.js:137-146 | marking keeps every id and timestamp, so the ledger's id set and timestamp order stay valid |
| MessageModel.Ledger.GetUnreadCount | server/models/Message.js:148-158 | the number of the room's messages not read by the user and not sent by them (deleted ones included); never more than the count `markRoomAsRead` would return |
| MessageModel.NoUnreadAfterMarkRoom | server/models/Message.js:137-158 | after `markRoomAsRead(r, u)`, `getUnreadCount(r, u)` is 0 |
| MessageModel.UnreadAtMostLacking | server/models/Message.js:137-158 | the unread count never exceeds the number of messages lacking the user |
| MessageModel.Ledger.EditMessage | server/models/Message.js:160-169 | succeeds iff the message exists and the editor is its sender; it then sets the content and `edited`; on failure nothing changes |
| MessageModel.Ledger.DeleteMessage | server/models/Message.js:171-179 | succeeds iff the message exists and the requester is its sender or it is a `system` message; it then sets `deleted` only |
| MessageModel.DeleteIdempotent | server/models/Message.js:171-179 | deleting twice gives the same ledger as deleting once, and a permitted delete succeeds again |
| MessageModel.Ledger.SetTypingStatus | server/models/Message.js:181-195 | the room's typing set gains or loses the user and is returned; every other room's set is unchanged |
| MessageModel.TypingStartStopRestores | server/models/Message.js:181-195 | start then stop, for a user not already typing, restores the room's previous typing set |
| MessageModel.Ledger.GetTypingUsers | server/models/Message.js:197-201 | the room's typing list as stored, duplicate-free; empty for a room never seen |
| MessageModel.Ledger.SearchMessages | server/models/Message.js:203-213 | exactly the room's non-deleted messages whose content contains the query, ignoring ASCII case, newest first |
| MessageModel.Ledger.SelectComplete | server/models/Message.js:205-211 | every stored message that meets the criterion is selected |
| MessageModel.Ledger.Collect | server/models/Message.js:205-211 | the loop over the messages in insertion order collects exactly the selection |
| MessageModel.Ledger.GetMessageStats | server/models/Message.js:215-244 | the statistics of the room's non-deleted messages; the total is their number, and text, file and image counts together do not exceed it |
| MessageModel.StatsConsistent | server/models/Message.js:215-244 | the total equals the length of the room's non-deleted listing, and the text, file and image counts add up to at most the total (`system` messages count only in the total) |
| MessageModel.Ledger.OrderDistinct | server/models/Message.js:4-8 | the insertion order lists each message once |
| UserModel.Directory.constructor | server/models/User.js:5-8 | the directory starts with no users and no one online |
| UserModel.Directory.CreateUser | server/models/User.js:10-38 | a taken username fails with "Username already exists"; otherwise a taken email fails with "Email already exists"; on failure nothing is added; on success one user is added under the fresh id with status `offline` |
| UserModel.Directory.GetUserById | server/models/User.js:54-56 | some user exactly when the id is stored, and then that user |
| UserModel.Directory.FindFirst | server/models/User.js:58-74 | none iff no user has that username (or email); otherwise the user of the first id in registration order that has it |
| UserModel.FirstMatch | server/models/User.js:58-74 | the first id in the given order whose user has the looked-up field: none iff no listed user has it, otherwise every earlier id's user lacks it |
| UserModel.Directory.UpdateUserStatus | server/models/User.js:76-85 | an unknown id gives none and no change; otherwise only that user's status changes |
| UserModel.Directory.SetUserOnline | server/models/User.js:87-97 | an unknown id gives none and no change; otherwise status `online` and the online table maps the user to the socket |
| UserModel.Directory.SetUserOffline | server/models/User.js:99-109 | an unknown id gives none and no change; otherwise status `offline`; either way the id is not online afterwards |
| UserModel.Directory.GetOnlineUsers | server/models/User.js:111-126 | exactly the online ids that still have a user, each with that user's public view |
| UserModel.OnlineViewsMembers | server/models/User.js:111-126 | the projection holds the view of an id iff the id is listed and still a user |
| UserModel.Directory.GetAllUsers | server/models/User.js:128-138 | one password-free summary per user, in registration order (position `i` is the `i`-th registered id) |
| UserModel.Summaries | server/models/User.js:128-138 | position by position, the password-free summary of each listed user |
| UserModel.Directory.OrderCoversUsers | server/models/User.js:128-138 | the insertion order lists every user exactly once |
| UserModel.Directory.UpdateUserProfile | server/models/User.js:140-147 | an unknown id gives none and no change; otherwise only the supplied fields are overwritten |
| UserModel.ApplyUpdates | server/models/User.js:140-147 | each supplied field replaces the stored one, all others keep their values |
| UserModel.ApplyUpdatesIdempotent | server/models/User.js:140-147 | merging the same updates twice equals merging once; merging no updates changes nothing |
| UserModel.Directory.DeleteUser | server/models/User.js:149-157 | true iff the user existed; afterwards the id is in neither map and nothing else changed |
| SocketHandlers.SocketHandler.constructor | server/socket/socketHandler.js:5-10 | the three index tables start empty |
| SocketHandlers.SocketHandler.HandleConnection | server/socket/socketHandler.js:12-37 | the latest socket is recorded and added to the user's sockets; a known user goes online and joins the end of the directory's online order if absent; the default rooms are joined; `user:online` goes to everyone and `users:online` to the new socket only |
| SocketHandlers.SocketHandler.JoinDefaultRooms | server/socket/socketHandler.js:144-170 | each existing default room gains the user as a member and the socket in its index, with one `room:joined` reply; missing rooms are skipped |
| SocketHandlers.SocketHandler.JoinIfExists | server/socket/socketHandler.js:147-168 | one default room: membership, socket index and reply when it exists, nothing otherwise |
| SocketHandlers.JoinReplies | server/socket/socketHandler.js:160-167 | the replies all go to the joining socket, are `room:joined` events, and name only the default rooms |
| SocketHandlers.IndexedUnderSpec | server/socket/socketHandler.js:147-158 | after the default-room joins the index holds the socket exactly under the existing default rooms, and is unchanged elsewhere |
| SocketHandlers.WithMemberSpec | server/socket/socketHandler.js:147-151 | after the default-room joins the user is a member of exactly the existing default rooms, in addition to the old members |
| SocketHandlers.SocketHandler.HandleDisconnection | server/socket/socketHandler.js:113-142 | the socket leaves its user's set; only when the set empties does the user leave both online tables and the online order, a known user's status become `offline`, and `user:offline` go to everyone; otherwise the directory is unchanged; the socket leaves every room index |
| SocketHandlers.LeaveAllRooms | server/socket/socketHandler.js:135-141 | the loop removes the socket from every room entry and deletes entries that become empty, keeping all others |
| SocketHandlers.WithoutSocket | server/socket/socketHandler.js:135-141 | no entry holds the socket or is empty, and each room's sockets are the old ones minus it |
| SocketHandlers.Indexed | server/socket/socketHandler.js:153-157 | the key's set gains the socket; other keys are unchanged |
| SocketHandlers.Unindexed | server/socket/socketHandler.js:215-222 | the key's set loses the socket and is dropped exactly when it becomes empty; other keys are unchanged |
| SocketHandlers.SocketHandler.HandleJoinRoom | server/socket/socketHandler.js:172-209 | an unknown room or a private room the user is not in gets one error to the requester and no change; otherwise membership and index are added, the requester gets up to 50 latest non-deleted messages oldest first, and the rest of the room gets `user:joined` |
| SocketHandlers.NewestFirstReversed | server/socket/socketHandler.js:190-195 | the reversed newest-first page is oldest first |
| SocketHandlers.SocketHandler.HandleLeaveRoom | server/socket/socketHandler.js:211-231 | never errors: membership and socket index are removed, an emptied index entry is deleted, and the rest of the room gets `user:left` |
| SocketHandlers.SocketHandler.HandleSendMessage | server/socket/socketHandler.js:233-268 | missing content or room id, or an unknown room, gives one error to the requester and leaves the messages, their order and the clock unchanged; otherwise exactly one message is appended at the end of the order, the whole room gets `message:received`, and the sender leaves the room's typing set |
| SocketHandlers.SocketHandler.HandleTypingStart | server/socket/socketHandler.js:270-280 | the user is in the room's typing set, and the rest of the room gets the new set |
| SocketHandlers.SocketHandler.HandleTypingStop | server/socket/socketHandler.js:282-292 | the user is out of the room's typing set, and the rest of the room gets the new set |
| SocketHandlers.SocketHandler.HandleEditMessage | server/socket/socketHandler.js:294-311 | a refused edit is one error to the requester and no change; an accepted edit goes to the message's own room |
| SocketHandlers.SocketHandler.HandleDeleteMessage | server/socket/socketHandler.js:313-328 | a refused delete is one error to the requester and no change; an accepted delete goes to the message's own room |
| SocketHandlers.SocketHandler.HandleMessageRead | server/socket/socketHandler.js:330-347 | the reader joins the read set; a receipt goes to the sender's latest socket only if the message exists, the reader is not its sender and the sender is online |
| SocketHandlers.SocketHandler.HandleCreateRoom | server/socket/socketHandler.js:349-395 | a missing name is one error and no change; otherwise the room holds the creator and the supplied members, a new room id goes last in creation order, the creator's socket is indexed, the creator gets `room:created`, and `room:invited` goes only to supplied members who are online |
| SocketHandlers.SocketHandler.CreateAndEnter | server/socket/socketHandler.js:357-368 | the new room has the creator and the invited users as members, a new id is appended to the room order, and the creator's socket is indexed under it |
| SocketHandlers.SocketHandler.InviteMembers | server/socket/socketHandler.js:382-394 | the loop emits exactly `Invitations`, in the order the members were supplied |
| SocketHandlers.Invitations | server/socket/socketHandler.js:382-394 | every invitation goes to the latest socket of a supplied, online member, and every such member gets one |
| SocketHandlers.SocketHandler.HandlePrivateMessage | server/socket/socketHandler.js:397-446 | missing fields or an unknown recipient give one error and leave messages, order, clock and rooms unchanged; otherwise the private room is created once (private, by `system`, the two users as members, appended to the room order) and an existing one is kept in place, one message is appended, the recipient's socket gets it if online, and the sender always gets `message:sent` last |
| SocketHandlers.PrivateRoomIdSymmetric | server/socket/socketHandler.js:412 | the private room id is the same for (a, b) and (b, a) |
| SocketHandlers.PrivateRoomIdOrdered | server/socket/socketHandler.js:412 | the id joins the smaller id, `_`, and the larger one in JavaScript's default order |
| Text.LexLessTotal | server/socket/socketHandler.js:412 | two different strings are ordered one way or the other |
| Text.LexLessAsymmetric | server/socket/socketHandler.js:412 | the string order is never both ways |
| SocketHandlers.SocketHandler.HandleFileShare | server/socket/socketHandler.js:448-483 | missing data or name, or an unknown room, gives one error and leaves messages, order and clock unchanged; otherwise one `file` message named after the file is appended and the whole room gets `file:shared` |
| SocketHandlers.SocketHandler.HandleUserStatusUpdate | server/socket/socketHandler.js:485-497 | for a known user only the status changes (registration and online orders and the online table stay as they were) and `user:status` goes to everyone; otherwise nothing happens |
| SocketHandlers.SocketHandler.HandleRoomSearch | server/socket/socketHandler.js:499-510 | one reply to the requester, holding exactly the rooms whose name contains the query, ignoring case, in the order of `getAllRooms` and once per room |
| SocketHandlers.SocketHandler.HandleMessageSearch | server/socket/socketHandler.js:512-522 | one reply to the requester, holding the ledger's search result, newest first |
| Text.Includes | server/models/Message.js:208 | `includes`: true iff the needle occurs at some position |
| Text.Lower | server/models/Message.js:208 | `toLowerCase` on ASCII: same length, each upper-case letter mapped to its lower-case form |
| InsertionOrderedSet.Add | server/models/Message.js:188-189 | `Set.add`: the element is present afterwards, order and absence of duplicates are kept, and an existing element changes nothing |
| InsertionOrderedSet.Delete | server/models/Message.js:190-191 | `Set.delete`: exactly the element is gone and no duplicates appear |
| InsertionOrderedSet.DeleteAfterAdd | server/models/Message.js:181-195 | adding then deleting an absent element restores the set |
| Base.Elements | server/models/Message.js:34 | `new Set(members)` holds exactly the listed members |
| ChatStore.OnUsersOnline | client/src/store/chatStore.js:30-32 | the online list becomes the server's list; nothing else changes |
| ChatStore.OnUserOnlineAsWritten | client/src/store/chatStore.js:34-38 | as written: entries whose `id` equals the payload's `id` are dropped and the payload is appended |
| ChatStore.OnUserOfflineAsWritten | client/src/store/chatStore.js:40-44 | as written: entries whose `id` equals the payload's `id` are dropped |
| ChatStore.UserOnlineAsWrittenDuplicates | client/src/store/chatStore.js:34-38 | with a server payload (no `id`), a user already listed stays listed next to the new entry, so the list is no longer unique per user |
| ChatStore.UserOnlineAsWrittenDropsOthers | client/src/store/chatStore.js:34-38 | with a server payload, every other entry without an `id` is dropped as well |
| ChatStore.UserOfflineAsWrittenKeepsUser | client/src/store/chatStore.js:40-44 | with a server payload, the user going offline stays in the list |
| ChatStore.UserOnlineAsWrittenExample | client/src/store/chatStore.js:34-44 | a concrete listed user and server payload: `user:online` lists the user twice and `user:offline` keeps them |
| ChatStore.OnUserOnline | client/src/store/chatStore.js:34-38 | corrected: the user is listed once, at the end; every other user stays, as often as before and in order; uniqueness per user is kept |
| ChatStore.OnUserOffline | client/src/store/chatStore.js:40-44 | corrected: exactly the entries of that user are removed; the others stay, as often as before and in order |
| ChatStore.OnlineThenOffline | client/src/store/chatStore.js:34-44 | online then offline for a user equals offline alone |
| ChatStore.Upsert | client/src/store/chatStore.js:34-38 | filter-then-append: the new element is last; before it exactly the others with a different key stay, as often as before and in order; uniqueness per key is kept |
| ChatStore.RemoveKey | client/src/store/chatStore.js:40-44 | filter on the key: exactly the elements with a different key stay, as often as before and in order; uniqueness per key is kept, and an absent key changes nothing |
| ChatStore.UpsertThenRemove | client/src/store/chatStore.js:34-44 | removing a key after upserting it equals removing it from the original list |
| Base.Keep | client/src/store/chatStore.js:40-44 | `filter`: keeps exactly the elements that pass, each as often as in the input, in their order, and keeps everything when all pass |
| Base.KeepDistinctBy | client/src/store/chatStore.js:40-44 | filtering keeps uniqueness per key |
| ChatStore.OnRoomJoined | client/src/store/chatStore.js:46-50 | the room is listed once, replacing any room with that id; other rooms stay |
| ChatStore.OnRoomCreated | client/src/store/chatStore.js:131-135 | the room is appended without removing duplicates |
| ChatStore.CreatedThenJoinedListedOnce | client/src/store/chatStore.js:131-135 | creating and then joining a new room leaves the room list unique per id |
| ChatStore.OnRoomMessages | client/src/store/chatStore.js:52-58 | the room's list becomes the server's list; other rooms are unchanged |
| ChatStore.Appended | client/src/store/chatStore.js:60-68 | the room's list gains the message at its end; other rooms are unchanged |
| ChatStore.OnMessageReceived | client/src/store/chatStore.js:60-79 | the message is appended; the room's unread count grows by 1 iff it is not the current room; other counts are unchanged; the total grows likewise |
| ChatStore.ViewedRoomStaysRead | client/src/store/chatStore.js:186-196 | a message arriving in the room just entered leaves its unread count at 0 |
| ChatStore.OnFileShared | client/src/store/chatStore.js:137-144 | the message is appended to the room; counters are unchanged |
| ChatStore.OnMessagePrivate | client/src/store/chatStore.js:146-162 | the message is appended and the room's unread count always grows by 1, whichever room is current; the total grows by 1 |
| ChatStore.Bumped | client/src/store/chatStore.js:70-76 | one room's counter grows by 1, other rooms are unchanged, and the total grows by 1 |
| ChatStore.Edited | client/src/store/chatStore.js:81-93 | same length and order; only messages with the id get the new content and `edited`, all others are unchanged |
| ChatStore.EditedTwice | client/src/store/chatStore.js:81-93 | editing twice equals editing once with the later content |
| ChatStore.OnMessageEdited | client/src/store/chatStore.js:81-93 | only the room's list changes, by that edit |
| ChatStore.OnMessageDeleted | client/src/store/chatStore.js:95-103 | exactly the messages with that id are removed; the rest stay, as often as before and in order; other rooms are unchanged |
| ChatStore.OnTyping | client/src/store/chatStore.js:105-119 | the room's typing list becomes the server's list; other rooms are unchanged |
| ChatStore.DisconnectSocket | client/src/store/chatStore.js:173-184 | messages, rooms, current room, online users, typing and unread counts are reset and the store is disconnected; loading and error are kept |
| ChatStore.DisconnectForgetsSession | client/src/store/chatStore.js:173-184 | two stores that agree on loading and error are equal after a disconnect |
| ChatStore.SetCurrentRoom | client/src/store/chatStore.js:186-196 | the room becomes current and its unread count 0; other counts are unchanged; the total drops by the old count |
| ChatStore.SetCount | client/src/store/chatStore.js:191-194 | `Map.set`: the room's count is the new one, every other room's is unchanged |
| ChatStore.SetCountKeys | client/src/store/chatStore.js:191-194 | after `Map.set` the keys are the old ones plus the room |
| ChatStore.SetCountDistinct | client/src/store/chatStore.js:191-194 | `Map.set` keeps one entry per room |
| ChatStore.TotalSetCount | client/src/store/chatStore.js:307-310 | changing one room's count changes the total by the difference |
| ChatStore.CountsWithinTotal | client/src/store/chatStore.js:307-310 | no room's count exceeds the total |
| ChatStore.GetTotalUnreadCount | client/src/store/chatStore.js:307-310 | the sum over all rooms; at least every room's own count |
| ChatStore.ClearError | client/src/store/chatStore.js:283-285 | the error is cleared, nothing else changes |
| ChatStore.SetLoading | client/src/store/chatStore.js:287-289 | only the loading flag changes |
| ChatStore.Apply | client/src/store/chatStore.js:17-166 | the listener for each event, with the corrected `user:online`/`user:offline` reducers: one entry per room in the unread counters is kept; events other than `users:online` keep the online list unique per user; the connection flag follows connect and disconnect only |
| ChatStore.UnreadTotalGrowsByAtMostOne | client/src/store/chatStore.js:60-162 | no single event raises the total unread count by more than 1, and only message events raise it at all |
| AuthController.IndexOf | server/controllers/authController.js:32-33 | the first position of the character, or the length when it is absent |
| AuthController.ScanSound | server/controllers/authController.js:32-33 | a string accepted by the scan matches the email pattern |
| AuthController.ScanComplete | server/controllers/authController.js:32-33 | a string matching the pattern at given split points is accepted by the scan |
| AuthController.ScanMatchesPattern | server/controllers/authController.js:32-33 | the scan accepts exactly the strings matching `^[^\s@]+@[^\s@]+\.[^\s@]+$` |
| AuthController.ValidEmail | server/controllers/authController.js:32-38 | true iff the email matches the pattern |
| AuthController.CheckRegistration | server/controllers/authController.js:10-38 | the first failing check, in the order required fields, username length 3, password length 6, email pattern, gives the message; all rejections are status 400; no rejection iff all checks pass |
| AuthController.AcceptedRegistrationShape | server/controllers/authController.js:10-38 | an accepted registration has a username of at least 3 and a password of at least 6 characters, and an email with exactly one `@` not at either end |
| AuthController.Register | server/controllers/authController.js:5-77 | a validation failure or a taken username (400) or taken email (500) adds no user; otherwise exactly one user is added with the hashed password and status `offline`, its id goes last in registration order, and the reply is the password-free summary; the online tables are unchanged |
| AuthController.Login | server/controllers/authController.js:79-128 | missing fields are 400; otherwise success iff the first user in registration order with that username exists and the password matches its hash; a failure is 401 "Invalid username or password" and nothing changes; on success that user goes `online` and the reply is its password-free summary; orders and online tables are unchanged |
| AuthController.GetProfile | server/controllers/authController.js:130-156 | the password-free summary of an existing user, 404 "User not found" otherwise |
| AuthController.CheckProfileEmail | server/controllers/authController.js:172-179 | a rejection iff an email is supplied and does not match the pattern |
| AuthController.ProfileUpdatesFor | server/controllers/authController.js:181-186 | the updates hold exactly the truthy fields, with the supplied values |
| AuthController.FalsyFieldsKept | server/controllers/authController.js:181-188 | a field left empty in the request keeps its stored value |
| AuthController.UpdateProfile | server/controllers/authController.js:158-212 | an unknown user is 404 and a bad email 400, both with no change; otherwise only the truthy fields change and the reply is the password-free summary; orders and online tables are unchanged |
| Jwt.ExtractTokenFromHeader | server/utils/jwt.js:27-32 | refused iff the header is missing, empty or does not start with `Bearer `; the token is the header without those seven characters |
| Jwt.ExtractAfterPrefix | server/utils/jwt.js:27-32 | every token put behind `Bearer ` comes back unchanged |
| Jwt.WrongSchemeRefused | server/utils/jwt.js:28-30 | a header that differs from `Bearer ` in its first seven characters is refused |

## Left out

- Transport: socket.io rooms (`socket.join`/`socket.leave`), delivery and the client's socket wrapper. Handlers return addressed events, and the router's own room index stands in for socket.io's rooms.
- Password hashing and comparison (bcrypt) are parameters: `Register` receives a `hash` function and `Login` a `passwordMatches` function. `validateUser` is modelled inside `Login`.
- JWT signing, verification and decoding, and socket authentication, are library calls. The tokens that `register` and `login` return are not modelled.
- `uuid`, `Date.now()` and `Math.random()` ids are caller-supplied fresh values. Message timestamps come from a logical clock. `createdAt`, `updatedAt`, `lastSeen` and `editedAt` dates are not stored.
- Unicode case folding and UTF-16 code units: `toLowerCase` is modelled on ASCII letters, and strings are sequences of characters.
- The client's `error` event stores the reason (`Apply` with `ErrorReceived`); the `catch` of `initializeSocket`, which does the same, is not modelled. The client's request methods (`joinRoom`, `sendMessage`, …) only emit to the socket and do not change the store.
- The controller's `getUsers` and `getOnlineUsers` only wrap `UserModel.Directory.GetAllUsers` and `GetOnlineUsers` in an HTTP reply.
- Client messages keep only id, sender, content, kind and `edited`; a server message without `edited` is modelled with `false`.
- `user:joined` and `user:left` leave the client store unchanged, as in the source.
- The email and the new username in `updateProfile` are not checked against other users, as in the source; `UpdateProfile` does not add that check.
- Concurrency: Node runs one handler at a time, so the model is sequential.
- MessageModel.Ledger.GetMessagesByRoom: messages stamped in the same millisecond keep insertion order in the source's stable sort; here the logical clock gives every message its own timestamp, and same-millisecond messages come out newest-insert first. `SocketHandlers.SocketHandler.HandleJoinRoom` inherits this order.
- MessageModel.Ledger.SearchMessages: same tie order as `GetMessagesByRoom`: the source keeps same-millisecond matches in insertion order, the model lists them newest-insert first. `SocketHandlers.SocketHandler.HandleMessageSearch` inherits this order.
- ChatStore.Apply: dispatches `user:online` and `user:offline` to the corrected reducers. The store as written (`OnUserOnlineAsWritten`, `OnUserOfflineAsWritten`) can list a user twice (see Findings), so the uniqueness promise holds of the corrected store only.
- MessageModel.Ledger.GetMessagesByRoom: the default arguments (`limit = 50`, `offset = 0`) are not modelled; callers pass both.
- UserModel.Directory.CreateUser: `createdAt`, `updatedAt` and `lastSeen` are not stored; hashing happens in the caller (`AuthController.Register`), which passes the hash in.

## Findings

| source | as written | input that shows it | evidently intended | confidence | as-written member | corrected member |
|---|---|---|---|---|---|---|
| client/src/store/chatStore.js:34-44 | `user:online` and `user:offline` keep the online users whose `id` differs from the payload's `id`, but the server sends `userId` and no `id` (server/socket/socketHandler.js:29-33, 128-131) | list `[{id: "u1", username: "alice"}]`, then `user:online` with `{userId: "u1", username: "alice"}`: the list holds alice twice; then `user:offline` with `{userId: "u1"}`: alice stays listed | match entries on the user id, whichever field carries it | not executed | ChatStore.UserOnlineAsWrittenExample | ChatStore.OnlineThenOffline |
