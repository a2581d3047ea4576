/**
 * The user directory of the chat server: registered users by id, and the
 * users currently online with their latest socket.
 *
 * Both are JavaScript `Map`s, iterated in insertion order by the lookups and
 * listings; `userOrder` and `onlineOrder` keep that order. Setting an existing
 * key keeps its position; deleting a key drops it from the order.
 */
module UserModel {
  import opened Base
  import opened InsertionOrderedSet

  /** A registered user; `password` is the stored hash, computed by the caller. */
  datatype User = User(id: UserId, username: string, email: string, password: string, avatar: string, status: string)

  /** An entry of `getAllUsers`: every field but the password hash. */
  datatype UserSummary = UserSummary(id: UserId, username: string, email: string, avatar: string, status: string)

  /** An entry of `getOnlineUsers`. */
  datatype OnlineUser = OnlineUser(id: UserId, username: string, avatar: string, status: string)

  /** The keys a profile update may carry; an absent key leaves the field as it is. */
  datatype ProfileUpdates = ProfileUpdates(username: Option<string>, email: Option<string>, avatar: Option<string>)

  /** What a lookup loop compares against. */
  datatype Lookup = ByUsername(username: string) | ByEmail(email: string)

  predicate Matches(user: User, key: Lookup) {
    match key
    case ByUsername(name) => user.username == name
    case ByEmail(email) => user.email == email
  }

  /**
   * The first id of `order` whose user has the looked-up field, as a scan
   * of the directory in registration order finds it.
   */
  function FirstMatch(users: map<UserId, User>, order: seq<UserId>, key: Lookup): (r: Option<UserId>)
    requires forall i :: 0 <= i < |order| ==> order[i] in users
    ensures r.None? <==> forall i :: 0 <= i < |order| ==> !Matches(users[order[i]], key)
    ensures r.Some? ==>
      && r.value in users && Matches(users[r.value], key)
      && exists i :: 0 <= i < |order| && order[i] == r.value
           && forall j :: 0 <= j < i ==> !Matches(users[order[j]], key)
  {
    if order == [] then None
    else if Matches(users[order[0]], key) then Some(order[0])
    else
      var rest := FirstMatch(users, order[1..], key);
      assert forall i :: 1 <= i < |order| ==> order[i] == order[1..][i - 1];
      rest
  }

  const AvatarService: string := "https://api.dicebear.com/7.x/avataaars/svg?seed="

  function AvatarFor(username: string): string {
    AvatarService + username
  }

  function SummaryOf(user: User): UserSummary {
    UserSummary(user.id, user.username, user.email, user.avatar, user.status)
  }

  function OnlineViewOf(user: User): OnlineUser {
    OnlineUser(user.id, user.username, user.avatar, user.status)
  }

  /** `Object.assign(user, updates)`: the keys present overwrite, the others stay. */
  function ApplyUpdates(user: User, updates: ProfileUpdates): (r: User)
    ensures r.id == user.id && r.password == user.password && r.status == user.status
    ensures r.username == if updates.username.Some? then updates.username.value else user.username
    ensures r.email == if updates.email.Some? then updates.email.value else user.email
    ensures r.avatar == if updates.avatar.Some? then updates.avatar.value else user.avatar
  {
    var u1 := if updates.username.Some? then user.(username := updates.username.value) else user;
    var u2 := if updates.email.Some? then u1.(email := updates.email.value) else u1;
    if updates.avatar.Some? then u2.(avatar := updates.avatar.value) else u2
  }

  /** Applying the same updates twice is applying them once; no updates change nothing. */
  lemma ApplyUpdatesIdempotent(user: User, updates: ProfileUpdates)
    ensures ApplyUpdates(ApplyUpdates(user, updates), updates) == ApplyUpdates(user, updates)
    ensures ApplyUpdates(user, ProfileUpdates(None, None, None)) == user
  {
  }

  /** The online listing over an order of ids: users that still exist, in order. */
  ghost function OnlineViews(users: map<UserId, User>, ids: seq<UserId>): seq<OnlineUser> {
    if ids == [] then []
    else
      var id := ids[|ids| - 1];
      OnlineViews(users, ids[..|ids| - 1]) + if id in users then [OnlineViewOf(users[id])] else []
  }

  /** The online listing holds exactly the ids of the order that are registered users. */
  lemma {:induction false} OnlineViewsMembers(users: map<UserId, User>, ids: seq<UserId>)
    requires forall id :: id in users ==> users[id].id == id
    ensures forall v :: v in OnlineViews(users, ids) ==> v.id in users && v.id in ids && v == OnlineViewOf(users[v.id])
    ensures forall id :: id in ids && id in users ==> OnlineViewOf(users[id]) in OnlineViews(users, ids)
  {
    if ids != [] {
      var prefix := ids[..|ids| - 1];
      OnlineViewsMembers(users, prefix);
      assert ids == prefix + [ids[|ids| - 1]];
    }
  }

  /** `getAllUsers`: every user, without the password hash, in registration order. */
  function Summaries(users: map<UserId, User>, ids: seq<UserId>): (r: seq<UserSummary>)
    requires forall i :: 0 <= i < |ids| ==> ids[i] in users
    ensures |r| == |ids|
    ensures forall i :: 0 <= i < |ids| ==> r[i] == SummaryOf(users[ids[i]])
  {
    if ids == [] then [] else [SummaryOf(users[ids[0]])] + Summaries(users, ids[1..])
  }

  class Directory {
    var users: map<UserId, User>
    var userOrder: seq<UserId>
    var onlineUsers: map<UserId, SocketId>
    var onlineOrder: seq<UserId>

    ghost predicate Valid()
      reads this
    {
      && (forall i :: 0 <= i < |userOrder| ==> userOrder[i] in users)
      && (forall id :: id in users ==> id in userOrder && users[id].id == id)
      && NoDuplicates(userOrder)
      && (forall id :: id in onlineUsers <==> id in onlineOrder)
      && NoDuplicates(onlineOrder)
      && (forall id :: id in onlineUsers ==> id in users)
    }

    constructor ()
      ensures Valid()
      ensures users == map[] && userOrder == [] && onlineUsers == map[] && onlineOrder == []
    {
      users, userOrder := map[], [];
      onlineUsers, onlineOrder := map[], [];
    }

    function GetUserById(userId: UserId): (r: Option<User>)
      reads this
      requires Valid()
      ensures r.Some? <==> userId in users
      ensures r.Some? ==> r.value == users[userId] && r.value.id == userId
    {
      if userId in users then Some(users[userId]) else None
    }

    /**
     * `getUserByUsername` / `getUserByEmail`: the first user in registration
     * order whose field equals the key, or `None` when there is none.
     */
    method FindFirst(key: Lookup) returns (user: Option<User>)
      requires Valid()
      ensures user.None? <==> forall id :: id in users ==> !Matches(users[id], key)
      ensures user.Some? ==>
        && user.value.id in users && users[user.value.id] == user.value && Matches(user.value, key)
        && exists i :: 0 <= i < |userOrder| && userOrder[i] == user.value.id
             && forall j :: 0 <= j < i ==> !Matches(users[userOrder[j]], key)
      ensures user.Some? <==> FirstMatch(users, userOrder, key).Some?
      ensures user.Some? ==> user.value == users[FirstMatch(users, userOrder, key).value]
    {
      var i := 0;
      while i < |userOrder|
        invariant 0 <= i <= |userOrder|
        invariant forall j :: 0 <= j < i ==> !Matches(users[userOrder[j]], key)
        invariant FirstMatch(users, userOrder[i..], key) == FirstMatch(users, userOrder, key)
      {
        assert userOrder[i..][1..] == userOrder[i + 1..];
        var candidate := users[userOrder[i]];
        if Matches(candidate, key) {
          return Some(candidate);
        }
        i := i + 1;
      }
      forall id | id in users ensures !Matches(users[id], key) {
        var k :| 0 <= k < |userOrder| && userOrder[k] == id;
      }
      return None;
    }

    /**
     * `createUser`: refused when the username is taken, then when the email is
     * taken; otherwise an offline user with the default avatar is added.
     */
    method CreateUser(username: string, hashedPassword: string, email: string, freshId: UserId)
      returns (result: Result<User, string>)
      requires Valid()
      requires freshId !in users
      modifies this
      ensures Valid()
      ensures (exists id :: id in old(users) && old(users)[id].username == username) ==>
        result == Err("Username already exists")
      ensures ((forall id :: id in old(users) ==> old(users)[id].username != username)
        && (exists id :: id in old(users) && old(users)[id].email == email)) ==>
        result == Err("Email already exists")
      ensures result.Err? ==> users == old(users) && userOrder == old(userOrder)
      ensures result.Ok? ==>
        && result.value == User(freshId, username, email, hashedPassword, AvatarFor(username), "offline")
        && users == old(users)[freshId := result.value]
        && userOrder == old(userOrder) + [freshId]
      ensures result.Ok? <==> forall id :: id in old(users) ==> old(users)[id].username != username && old(users)[id].email != email
      ensures onlineUsers == old(onlineUsers) && onlineOrder == old(onlineOrder)
    {
      var sameName := FindFirst(ByUsername(username));
      if sameName.Some? {
        return Err("Username already exists");
      }
      var sameEmail := FindFirst(ByEmail(email));
      if sameEmail.Some? {
        return Err("Email already exists");
      }
      var user := User(freshId, username, email, hashedPassword, AvatarFor(username), "offline");
      assert freshId !in userOrder;
      users := users[freshId := user];
      userOrder := userOrder + [freshId];
      return Ok(user);
    }

    /** `updateUserStatus`: sets the status of an existing user; `None` and no change otherwise. */
    method UpdateUserStatus(userId: UserId, status: string) returns (user: Option<User>)
      requires Valid()
      modifies this
      ensures Valid()
      ensures userId !in old(users) ==> user == None && users == old(users)
      ensures userId in old(users) ==>
        user == Some(old(users)[userId].(status := status)) && users == old(users)[userId := user.value]
      ensures userOrder == old(userOrder) && onlineUsers == old(onlineUsers) && onlineOrder == old(onlineOrder)
    {
      if userId in users {
        var updated := users[userId].(status := status);
        users := users[userId := updated];
        return Some(updated);
      }
      return None;
    }

    /** `setUserOnline`: status `online` and the socket recorded as the user's latest. */
    method SetUserOnline(userId: UserId, socketId: SocketId) returns (user: Option<User>)
      requires Valid()
      modifies this
      ensures Valid()
      ensures userId !in old(users) ==>
        && user == None && users == old(users)
        && onlineUsers == old(onlineUsers) && onlineOrder == old(onlineOrder)
      ensures userId in old(users) ==>
        && user == Some(old(users)[userId].(status := "online"))
        && users == old(users)[userId := user.value]
        && onlineUsers == old(onlineUsers)[userId := socketId]
        && onlineOrder == Add(old(onlineOrder), userId)
      ensures userOrder == old(userOrder)
    {
      if userId in users {
        var updated := users[userId].(status := "online");
        users := users[userId := updated];
        onlineUsers := onlineUsers[userId := socketId];
        onlineOrder := Add(onlineOrder, userId);
        return Some(updated);
      }
      return None;
    }

    /** `setUserOffline`: status `offline` and the user no longer online. */
    method SetUserOffline(userId: UserId) returns (user: Option<User>)
      requires Valid()
      modifies this
      ensures Valid()
      ensures userId !in old(users) ==>
        && user == None && users == old(users)
        && onlineUsers == old(onlineUsers) && onlineOrder == old(onlineOrder)
      ensures userId in old(users) ==>
        && user == Some(old(users)[userId].(status := "offline"))
        && users == old(users)[userId := user.value]
        && onlineUsers == old(onlineUsers) - {userId}
        && onlineOrder == Delete(old(onlineOrder), userId)
      ensures userId !in onlineUsers
      ensures userOrder == old(userOrder)
    {
      if userId in users {
        var updated := users[userId].(status := "offline");
        users := users[userId := updated];
        onlineUsers := onlineUsers - {userId};
        onlineOrder := Delete(onlineOrder, userId);
        return Some(updated);
      }
      return None;
    }

    /** `getOnlineUsers`: the online users that are still registered, in the order they came online. */
    method GetOnlineUsers() returns (result: seq<OnlineUser>)
      requires Valid()
      ensures result == OnlineViews(users, onlineOrder)
      ensures forall v :: v in result ==> v.id in onlineUsers && v.id in users && v == OnlineViewOf(users[v.id])
      ensures forall id :: id in onlineUsers && id in users ==> OnlineViewOf(users[id]) in result
    {
      result := [];
      var i := 0;
      while i < |onlineOrder|
        invariant 0 <= i <= |onlineOrder|
        invariant result == OnlineViews(users, onlineOrder[..i])
      {
        var id := onlineOrder[i];
        assert onlineOrder[..i + 1][..i] == onlineOrder[..i];
        if id in users {
          result := result + [OnlineViewOf(users[id])];
        }
        i := i + 1;
      }
      assert onlineOrder[..i] == onlineOrder;
      OnlineViewsMembers(users, onlineOrder);
    }

    /** `getAllUsers` */
    function GetAllUsers(): (r: seq<UserSummary>)
      reads this
      requires Valid()
      ensures |r| == |users|
      ensures forall id :: id in users <==> exists i :: 0 <= i < |r| && r[i].id == id
      ensures forall i :: 0 <= i < |r| ==> r[i].id in users && r[i] == SummaryOf(users[r[i].id])
      ensures |r| == |userOrder| && forall i :: 0 <= i < |r| ==> r[i].id == userOrder[i]
    {
      OrderCoversUsers();
      Summaries(users, userOrder)
    }

    /** The registration order lists every user exactly once. */
    lemma OrderCoversUsers()
      requires Valid()
      ensures |userOrder| == |users|
      ensures forall id :: id in users ==> exists i :: 0 <= i < |userOrder| && userOrder[i] == id
    {
      DistinctCount(userOrder, users.Keys);
    }

    /** `updateUserProfile`: merges the updates into an existing user; `None` and no change otherwise. */
    method UpdateUserProfile(userId: UserId, updates: ProfileUpdates) returns (user: Option<User>)
      requires Valid()
      modifies this
      ensures Valid()
      ensures userId !in old(users) ==> user == None && users == old(users)
      ensures userId in old(users) ==>
        user == Some(ApplyUpdates(old(users)[userId], updates)) && users == old(users)[userId := user.value]
      ensures userOrder == old(userOrder) && onlineUsers == old(onlineUsers) && onlineOrder == old(onlineOrder)
    {
      if userId in users {
        var updated := ApplyUpdates(users[userId], updates);
        users := users[userId := updated];
        return Some(updated);
      }
      return None;
    }

    /** `deleteUser`: true iff the user existed; afterwards the id is in neither map. */
    method DeleteUser(userId: UserId) returns (deleted: bool)
      requires Valid()
      modifies this
      ensures Valid()
      ensures deleted <==> userId in old(users)
      ensures userId !in users && userId !in onlineUsers
      ensures deleted ==>
        && users == old(users) - {userId} && userOrder == Delete(old(userOrder), userId)
        && onlineUsers == old(onlineUsers) - {userId} && onlineOrder == Delete(old(onlineOrder), userId)
      ensures !deleted ==>
        && users == old(users) && userOrder == old(userOrder)
        && onlineUsers == old(onlineUsers) && onlineOrder == old(onlineOrder)
    {
      if userId in users {
        users := users - {userId};
        userOrder := Delete(userOrder, userId);
        assert forall i :: 0 <= i < |userOrder| ==> userOrder[i] in userOrder;
        onlineUsers := onlineUsers - {userId};
        onlineOrder := Delete(onlineOrder, userId);
        return true;
      }
      return false;
    }
  }

  /** A sequence without duplicates whose elements are exactly a set has the set's size. */
  lemma {:induction false} DistinctCount<T>(s: seq<T>, keys: set<T>)
    requires NoDuplicates(s)
    requires forall x :: x in keys <==> x in s
    ensures |s| == |keys|
  {
    if s != [] {
      var last := s[|s| - 1];
      var prefix := s[..|s| - 1];
      assert forall x :: x in keys - {last} <==> x in prefix by {
        forall x ensures x in keys - {last} <==> x in prefix {
          if x in prefix {
            var k :| 0 <= k < |prefix| && prefix[k] == x;
            assert s[k] == x;
          }
          if x in s && x != last {
            var k :| 0 <= k < |s| && s[k] == x;
            assert k < |s| - 1;
            assert prefix[k] == x;
          }
        }
      }
      DistinctCount(prefix, keys - {last});
    }
  }
}
