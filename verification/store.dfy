/** The user controller as an object over the two tables. Each method is
    one request handler: it reads and edits the documents in the order the
    handler does, saving each document as soon as the handler does. Each
    method that changes the tables is proved to leave them as the matching
    function of `Handlers` describes; the two read-only ones state their
    answers in terms of the `Queries` functions. */
module Store {
  import opened Records
  import opened Lists
  import opened Queries
  import opened Handlers

  /** The lists getUserConnections answers with, as user ids. */
  datatype Relations = Relations(
    connections: seq<string>,
    followers: seq<string>,
    following: seq<string>,
    pending: seq<string>)

  class UserStore {
    /** The `User` collection, keyed by `_id`. */
    var users: map<string, User>
    /** The ids of `users` in insertion order, the order the collection is scanned in. */
    var order: seq<string>
    /** The `Connection` collection in insertion order. */
    var requests: seq<Request>
    /** The ids of the requests announced on the event bus. */
    var events: seq<nat>

    /** The tables as a value. */
    function Snapshot(): Db
      reads this
    {
      Db(users, order, requests, events)
    }

    ghost predicate Valid()
      reads this
    {
      Handlers.Valid(Snapshot())
    }

    constructor ()
      ensures Valid()
      ensures Snapshot() == Db(map[], [], [], [])
    {
      users, order, requests, events := map[], [], [], [];
    }

    /** getUserData: the caller's record, created from the identity claims
        when the table does not hold it. */
    method GetUserData(auth: Auth) returns (profile: User)
      requires Valid()
      modifies this
      ensures Valid()
      ensures ProvisionSelf(old(Snapshot()), auth) == Found(auth.userId, Snapshot())
      ensures auth.userId in users && profile == users[auth.userId]
    {
      ProvisionKeepsValid(Snapshot(), auth);
      if auth.userId !in users {
        var created := NewUser(auth.email, auth.fullName, auth.username);
        users := users[auth.userId := created];
        order := order + [auth.userId];
      }
      profile := users[auth.userId];
    }

    /** updateUserData, as far as the username goes: an empty field keeps
        the current name, and a new name some user already holds is
        silently replaced by the current one. */
    method UpdateUserData(caller: string, requested: string) returns (r: Reply)
      requires Valid()
      modifies this
      ensures Valid()
      ensures Effect(r, Snapshot()) == UpdateUsername(old(Snapshot()), caller, requested)
    {
      UserEditsKeepValid(Snapshot(), caller, caller, requested);
      if caller !in users {
        return MissingUser;
      }
      var current := users[caller];
      var name := requested;
      if name == "" {
        name := current.username;
      }
      if current.username != name {
        if Taken(users, order, name) {
          name := current.username;
        }
      }
      users := users[caller := current.(username := name)];
      r := Success;
    }

    /** discoverUsers: the users the search matches, in table order, less
        the caller. */
    method DiscoverUsers(caller: string, matches: User -> bool) returns (found: seq<string>)
      requires Valid()
      ensures caller !in found
      ensures forall id :: id in found <==> id != caller && id in users && matches(users[id])
      ensures IsSubsequence(found, Matching(users, order, matches))
    {
      var all := Matching(users, order, matches);
      found := Without(all, caller);
      WithoutKeepsOrder(all, caller);
      assert forall id :: id in found <==> multiset(found)[id] > 0;
      assert forall id :: id in all <==> multiset(all)[id] > 0;
    }

    /** followUser. */
    method FollowUser(caller: string, target: string) returns (r: Reply)
      requires Valid()
      modifies this
      ensures Valid()
      ensures Effect(r, Snapshot()) == Follow(old(Snapshot()), caller, target)
    {
      UserEditsKeepValid(Snapshot(), caller, target, "");
      if caller !in users {
        return MissingUser;
      }
      var user := users[caller];
      if target in user.following {
        return AlreadyFollowing;
      }
      user := user.(following := user.following + [target]);
      users := users[caller := user];
      if target !in users {
        return MissingUser;
      }
      var toUser := users[target];
      toUser := toUser.(followers := toUser.followers + [caller]);
      users := users[target := toUser];
      r := Success;
    }

    /** unfollowUser. */
    method UnfollowUser(caller: string, target: string) returns (r: Reply)
      requires Valid()
      modifies this
      ensures Valid()
      ensures Effect(r, Snapshot()) == Unfollow(old(Snapshot()), caller, target)
    {
      UserEditsKeepValid(Snapshot(), caller, target, "");
      if caller !in users {
        return MissingUser;
      }
      var user := users[caller];
      user := user.(following := Without(user.following, target));
      users := users[caller := user];
      if target !in users {
        return MissingUser;
      }
      var toUser := users[target];
      toUser := toUser.(followers := Without(toUser.followers, caller));
      users := users[target := toUser];
      r := Success;
    }

    /** sendConnectionRequest at time `now` (milliseconds). */
    method SendConnectionRequest(caller: string, target: string, now: int) returns (r: Reply)
      requires Valid()
      modifies this
      ensures Valid()
      ensures Effect(r, Snapshot()) == SendRequest(old(Snapshot()), caller, target, now)
    {
      SendKeepsValid(Snapshot(), caller, target, now);
      var recent := SentAfter(requests, caller, now - Day);
      if recent >= RequestLimit {
        return RateLimited;
      }
      var existing := FindPair(requests, caller, target);
      if existing.None? {
        var id := |requests|;
        requests := requests + [Request(caller, target, Pending, now)];
        events := events + [id];
        return Success;
      } else if requests[existing.value].status == Accepted {
        return AlreadyConnected;
      }
      r := RequestPending;
    }

    /** getUserConnections: the caller's three lists and the senders of the
        pending requests addressed to the caller. */
    method GetUserConnections(caller: string) returns (view: Option<Relations>)
      ensures view.None? <==> caller !in users
      ensures view.Some? ==>
                && view.value.connections == users[caller].connections
                && view.value.followers == users[caller].followers
                && view.value.following == users[caller].following
      ensures view.Some? ==>
                forall x :: x in view.value.pending <==>
                  exists i :: 0 <= i < |requests| && Awaits(requests[i], caller, x)
      ensures view.Some? ==> view.value.pending == PendingFrom(requests, caller)
    {
      if caller !in users {
        return None;
      }
      var user := users[caller];
      var pending := PendingFrom(requests, caller);
      view := Some(Relations(user.connections, user.followers, user.following, pending));
    }

    /** acceptConnectionRequest: the caller accepts what `sender` sent them. */
    method AcceptConnectionRequest(caller: string, sender: string) returns (r: Reply)
      requires Valid()
      modifies this
      ensures Valid()
      ensures Effect(r, Snapshot()) == AcceptRequest(old(Snapshot()), caller, sender)
    {
      AcceptKeepsValid(Snapshot(), caller, sender);
      var found := FindIncoming(requests, sender, caller);
      if found.None? {
        return ConnectionNotFound;
      }
      var k := found.value;
      if caller !in users {
        return MissingUser;
      }
      var user := users[caller];
      user := user.(connections := user.connections + [sender]);
      users := users[caller := user];
      if sender !in users {
        return MissingUser;
      }
      var toUser := users[sender];
      toUser := toUser.(connections := toUser.connections + [caller]);
      users := users[sender := toUser];
      requests := requests[k := requests[k].(status := Accepted)];
      r := Success;
    }

    /** getUserProfiles: the profile a path parameter names, by id, then by
        username, and otherwise a newly created placeholder. */
    method GetUserProfiles(profileId: string, auth: Auth) returns (id: string, profile: User)
      requires Valid()
      modifies this
      ensures Valid()
      ensures ResolveProfile(old(Snapshot()), profileId, auth) == Found(id, Snapshot())
      ensures id in users && profile == users[id]
    {
      ResolveKeepsValid(Snapshot(), profileId, auth);
      var key := Trim(profileId);
      if key in users {
        return key, users[key];
      }
      var byName := FindByUsername(users, order, key);
      if byName.Some? {
        return byName.value, users[byName.value];
      }
      var created;
      if auth.userId == key {
        created := NewUser(auth.email, auth.fullName, auth.username);
      } else {
        created := NewUser("", "User", key);
      }
      users := users[key := created];
      order := order + [key];
      id, profile := key, created;
    }
  }
}
