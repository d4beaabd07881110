/** What each controller handler does to the two tables, as a function from
    the tables before the request to the reply and the tables after it.
    Each handler runs to completion before the next one starts; where a
    handler saves one document and then fails on the next, the first save
    stays. */
module Handlers {
  import opened Records
  import opened Lists
  import opened Queries

  /** The users table (keyed by `_id`, with its insertion order), the
      connection requests in insertion order, and the ids of the requests
      announced on the event bus. The id of a request is its position. */
  datatype Db = Db(
    users: map<string, User>,
    order: seq<string>,
    requests: seq<Request>,
    events: seq<nat>)

  /** A handler's reply and the tables it leaves behind. */
  datatype Effect = Effect(reply: Reply, after: Db)

  /** A looked-up (or newly created) profile and the tables afterwards. */
  datatype Found = Found(id: string, after: Db)

  /** `order` lists every user of the table exactly once. */
  ghost predicate OrderIndexes(users: map<string, User>, order: seq<string>)
  {
    && (forall i, j :: 0 <= i < j < |order| ==> order[i] != order[j])
    && (forall id :: id in users <==> id in order)
  }

  /** No two requests link the same two users, in either direction. */
  ghost predicate UniquePairs(rs: seq<Request>)
  {
    forall i, j :: 0 <= i < j < |rs| ==> !Links(rs[j], rs[i].from, rs[i].to)
  }

  /** No sender has more than the limit of requests in any 24-hour window. */
  ghost predicate WindowBounded(rs: seq<Request>)
  {
    forall u, t :: SentWithin(rs, u, t) <= RequestLimit
  }

  /** What every handler keeps true of the tables. */
  ghost predicate Valid(db: Db)
  {
    OrderIndexes(db.users, db.order) && UniquePairs(db.requests) && WindowBounded(db.requests)
  }

  /** The upsert of a user the table does not hold yet. */
  function Insert(db: Db, id: string, u: User): (r: Db)
    ensures r.users.Keys == db.users.Keys + {id} && r.users[id] == u
    ensures forall x :: x in db.users && x != id ==> r.users[x] == db.users[x]
    ensures r.order == db.order + [id] && r.requests == db.requests && r.events == db.events
  {
    db.(users := db.users[id := u], order := db.order + [id])
  }

  lemma InsertKeepsValid(db: Db, id: string, u: User)
    requires Valid(db) && id !in db.users
    ensures Valid(Insert(db, id, u))
  {
    var after := Insert(db, id, u);
    forall i, j | 0 <= i < j < |after.order|
      ensures after.order[i] != after.order[j]
    {
      if j == |db.order| {
        assert db.order[i] in db.users;
      }
    }
  }

  // ---------------------------------------------------------------------
  // followUser and unfollowUser

  /** followUser: the caller `caller` follows `target`. */
  function Follow(db: Db, caller: string, target: string): (e: Effect)
    ensures e.after.order == db.order && e.after.requests == db.requests && e.after.events == db.events
    ensures e.after.users.Keys == db.users.Keys
    ensures e.reply == Success || e.reply == AlreadyFollowing || e.reply == MissingUser
    ensures e.reply == AlreadyFollowing <==> caller in db.users && target in db.users[caller].following
    ensures e.reply == Success <==>
              caller in db.users && target !in db.users[caller].following && target in db.users
    ensures caller !in db.users || target in db.users[caller].following ==> e.after == db
    // the caller's save happens before the target is read
    ensures caller in db.users && target !in db.users[caller].following && target !in db.users ==>
              e.after.users == db.users[caller := db.users[caller].(following := db.users[caller].following + [target])]
    ensures e.reply == Success ==>
              && e.after.users[caller].following == db.users[caller].following + [target]
              && e.after.users[target].followers == db.users[target].followers + [caller]
    ensures e.reply == Success && caller != target ==>
              && e.after.users[caller] == db.users[caller].(following := db.users[caller].following + [target])
              && e.after.users[target] == db.users[target].(followers := db.users[target].followers + [caller])
    // following oneself lands on one record, both lists of which grow
    ensures e.reply == Success && caller == target ==>
              e.after.users[caller] == db.users[caller].(following := db.users[caller].following + [caller],
                                                         followers := db.users[caller].followers + [caller])
    ensures forall id :: id in db.users && id != caller && id != target ==> e.after.users[id] == db.users[id]
  {
    if caller !in db.users then Effect(MissingUser, db)
    else
      var user := db.users[caller];
      if target in user.following then Effect(AlreadyFollowing, db)
      else
        var users := db.users[caller := user.(following := user.following + [target])];
        if target !in users then Effect(MissingUser, db.(users := users))
        else
          var toUser := users[target];
          Effect(Success, db.(users := users[target := toUser.(followers := toUser.followers + [caller])]))
  }

  /** Following is not repeated: once a follow has reached the caller's
      save, asking again is refused and changes nothing, even when the
      first attempt stopped short of the target's list. */
  lemma FollowTwiceRefused(db: Db, caller: string, target: string)
    requires caller in db.users && Follow(db, caller, target).reply != AlreadyFollowing
    ensures var mid := Follow(db, caller, target).after;
            Follow(mid, caller, target) == Effect(AlreadyFollowing, mid)
  {
  }

  /** The follower list takes no membership test: a caller already listed
      among the target's followers is listed once more. */
  lemma FollowersNotDeduplicated(db: Db, caller: string, target: string)
    requires Follow(db, caller, target).reply == Success
    ensures var after := Follow(db, caller, target).after;
            multiset(after.users[target].followers)[caller]
              == multiset(db.users[target].followers)[caller] + 1
  {
  }

  /** unfollowUser: the caller `caller` stops following `target`. */
  function Unfollow(db: Db, caller: string, target: string): (e: Effect)
    ensures e.after.order == db.order && e.after.requests == db.requests && e.after.events == db.events
    ensures e.after.users.Keys == db.users.Keys
    ensures e.reply == Success || e.reply == MissingUser
    ensures e.reply == Success <==> caller in db.users && target in db.users
    ensures caller !in db.users ==> e.after == db
    ensures caller in db.users ==>
              e.after.users[caller].following == Without(db.users[caller].following, target)
    // the caller's save happens before the target is read
    ensures caller in db.users && target !in db.users ==>
              e.after.users == db.users[caller := db.users[caller].(following := Without(db.users[caller].following, target))]
    ensures e.reply == Success && caller != target ==>
              && e.after.users[caller] == db.users[caller].(following := Without(db.users[caller].following, target))
              && e.after.users[target] == db.users[target].(followers := Without(db.users[target].followers, caller))
    ensures e.reply == Success && caller == target ==>
              e.after.users[caller] == db.users[caller].(following := Without(db.users[caller].following, caller),
                                                         followers := Without(db.users[caller].followers, caller))
    ensures e.reply == Success ==> caller !in e.after.users[target].followers
    ensures forall id :: id in db.users && id != caller && id != target ==> e.after.users[id] == db.users[id]
  {
    if caller !in db.users then Effect(MissingUser, db)
    else
      var user := db.users[caller];
      var users := db.users[caller := user.(following := Without(user.following, target))];
      if target !in users then Effect(MissingUser, db.(users := users))
      else
        var toUser := users[target];
        Effect(Success, db.(users := users[target := toUser.(followers := Without(toUser.followers, caller))]))
  }

  /** Unfollowing twice is unfollowing once: same reply, same tables. */
  lemma UnfollowIdempotent(db: Db, caller: string, target: string)
    ensures var once := Unfollow(db, caller, target);
            Unfollow(once.after, caller, target) == once
  {
    var once := Unfollow(db, caller, target);
    if caller in db.users {
      var d := once.after;
      var user := d.users[caller];
      WithoutAbsent(user.following, target);
      assert d.users[caller := user.(following := Without(user.following, target))] == d.users;
      if target in d.users {
        var toUser := d.users[target];
        WithoutAbsent(toUser.followers, caller);
        assert d.users[target := toUser.(followers := Without(toUser.followers, caller))] == d.users;
      }
    }
  }

  // ---------------------------------------------------------------------
  // sendConnectionRequest

  /** sendConnectionRequest: `caller` asks `target` to connect at time `now`. */
  function SendRequest(db: Db, caller: string, target: string, now: int): (e: Effect)
    ensures e.after.users == db.users && e.after.order == db.order
    ensures e.reply == Success || e.reply == RateLimited || e.reply == AlreadyConnected || e.reply == RequestPending
    ensures e.reply == RateLimited <==> SentAfter(db.requests, caller, now - Day) >= RequestLimit
    ensures e.reply == Success <==>
              SentAfter(db.requests, caller, now - Day) < RequestLimit
              && forall j :: 0 <= j < |db.requests| ==> !Links(db.requests[j], caller, target)
    ensures e.reply == Success ==>
              && e.after.requests == db.requests + [Request(caller, target, Pending, now)]
              && e.after.events == db.events + [|db.requests|]
    ensures e.reply != Success ==> e.after == db
  {
    if SentAfter(db.requests, caller, now - Day) >= RequestLimit then Effect(RateLimited, db)
    else match FindPair(db.requests, caller, target)
      case None =>
        var id := |db.requests|;
        Effect(Success, db.(requests := db.requests + [Request(caller, target, Pending, now)],
                            events := db.events + [id]))
      case Some(i) =>
        if db.requests[i].status == Accepted then Effect(AlreadyConnected, db)
        else Effect(RequestPending, db)
  }

  /** The rate limit is checked first: it refuses even a pair that is
      already connected. */
  lemma RateLimitBeforePairLookup(db: Db, caller: string, target: string, now: int, i: nat)
    requires i < |db.requests| && Links(db.requests[i], caller, target) && db.requests[i].status == Accepted
    requires SentAfter(db.requests, caller, now - Day) >= RequestLimit
    ensures SendRequest(db, caller, target, now) == Effect(RateLimited, db)
  {
  }

  /** Two requests that link the same two users link each other's ends. */
  lemma SamePair(p: Request, q: Request, a: string, b: string)
    requires Links(p, a, b) && Links(q, a, b)
    ensures Links(q, p.from, p.to) && Links(p, q.from, q.to)
  {
  }

  /** With one request per pair, two requests that link the same two users
      are the same request. */
  lemma OnePerPair(rs: seq<Request>, i: nat, k: nat, a: string, b: string)
    requires UniquePairs(rs)
    requires i < |rs| && k < |rs| && Links(rs[i], a, b)
    ensures Links(rs[k], a, b) ==> i == k
  {
    if Links(rs[k], a, b) {
      SamePair(rs[i], rs[k], a, b);
    }
  }

  /** With one request per pair, a blocked send reports that request's
      status, whichever of the two users sent it. */
  lemma {:induction false} SendReportsPairStatus(db: Db, caller: string, target: string, now: int, i: nat)
    requires UniquePairs(db.requests)
    requires i < |db.requests| && Links(db.requests[i], caller, target)
    requires SentAfter(db.requests, caller, now - Day) < RequestLimit
    ensures SendRequest(db, caller, target, now).reply
              == if db.requests[i].status == Accepted then AlreadyConnected else RequestPending
  {
    var k := FindPair(db.requests, caller, target).value;
    OnePerPair(db.requests, i, k, caller, target);
  }

  /** The limit is not stricter than 20: with no request stamped after
      `now`, a sender with fewer than 20 requests in the last 24 hours who
      has no request with the target gets a new pending request. */
  lemma SendUnderLimitSucceeds(db: Db, caller: string, target: string, now: int)
    requires forall i :: 0 <= i < |db.requests| ==> db.requests[i].createdAt <= now
    requires SentWithin(db.requests, caller, now) < RequestLimit
    requires forall j :: 0 <= j < |db.requests| ==> !Links(db.requests[j], caller, target)
    ensures SendRequest(db, caller, target, now).reply == Success
    ensures SendRequest(db, caller, target, now).after.requests
         == db.requests + [Request(caller, target, Pending, now)]
  {
    QueryIsWindow(db.requests, caller, now);
  }

  /** The pair lookup is symmetric: two users under the rate limit get the
      same answer whichever of them asks. */
  lemma SendSymmetric(db: Db, a: string, b: string, now: int)
    requires SentAfter(db.requests, a, now - Day) < RequestLimit
    requires SentAfter(db.requests, b, now - Day) < RequestLimit
    ensures SendRequest(db, a, b, now).reply == SendRequest(db, b, a, now).reply
  {
    FindPairSymmetric(db.requests, a, b);
  }

  /** Sending keeps the users table, the pair uniqueness and the window bound. */
  lemma SendKeepsValid(db: Db, caller: string, target: string, now: int)
    requires Valid(db)
    ensures Valid(SendRequest(db, caller, target, now).after)
  {
    var e := SendRequest(db, caller, target, now);
    if e.reply == Success {
      var rs := db.requests;
      var q := Request(caller, target, Pending, now);
      var rs' := rs + [q];
      assert e.after.requests == rs';
      forall i, j | 0 <= i < j < |rs'|
        ensures !Links(rs'[j], rs'[i].from, rs'[i].to)
      {
        if j == |rs| {
          assert !Links(rs[i], caller, target);
        }
      }
      forall u, t
        ensures SentWithin(rs', u, t) <= RequestLimit
      {
        SentWithinAppend(rs, q, u, t);
        if u == caller && t - Day < now <= t {
          WindowWithinQuery(rs, u, t, now);
        }
      }
    }
  }

  // ---------------------------------------------------------------------
  // acceptConnectionRequest

  /** acceptConnectionRequest: `caller` accepts the request that `sender`
      addressed to them. */
  function AcceptRequest(db: Db, caller: string, sender: string): (e: Effect)
    ensures e.after.order == db.order && e.after.events == db.events
    ensures e.after.users.Keys == db.users.Keys
    ensures e.reply == Success || e.reply == ConnectionNotFound || e.reply == MissingUser
    ensures e.reply == ConnectionNotFound <==>
              forall j :: 0 <= j < |db.requests| ==> !(db.requests[j].from == sender && db.requests[j].to == caller)
    ensures e.reply == ConnectionNotFound || caller !in db.users ==> e.after == db
    ensures e.reply == Success <==> e.reply != ConnectionNotFound && caller in db.users && sender in db.users
    ensures e.reply != Success ==> e.after.requests == db.requests
    // the caller's save happens before the sender is read
    ensures e.reply == MissingUser && caller in db.users ==>
              e.after.users == db.users[caller := db.users[caller].(connections := db.users[caller].connections + [sender])]
    ensures e.reply == Success ==>
              && e.after.users[caller].connections == db.users[caller].connections + [sender]
                   + (if caller == sender then [caller] else [])
              && (caller != sender ==> e.after.users[sender].connections == db.users[sender].connections + [caller])
    ensures e.reply == Success && caller != sender ==>
              && e.after.users[caller] == db.users[caller].(connections := db.users[caller].connections + [sender])
              && e.after.users[sender] == db.users[sender].(connections := db.users[sender].connections + [caller])
    ensures e.reply == Success && caller == sender ==>
              e.after.users[caller] == db.users[caller].(connections := db.users[caller].connections + [caller] + [caller])
    ensures e.reply == Success ==>
              var k := FindIncoming(db.requests, sender, caller).value;
              e.after.requests == db.requests[k := db.requests[k].(status := Accepted)]
    ensures forall id :: id in db.users && id != caller && id != sender ==> e.after.users[id] == db.users[id]
  {
    match FindIncoming(db.requests, sender, caller)
    case None => Effect(ConnectionNotFound, db)
    case Some(k) =>
      if caller !in db.users then Effect(MissingUser, db)
      else
        var user := db.users[caller];
        var users := db.users[caller := user.(connections := user.connections + [sender])];
        if sender !in users then Effect(MissingUser, db.(users := users))
        else
          var toUser := users[sender];
          var users' := users[sender := toUser.(connections := toUser.connections + [caller])];
          var request := db.requests[k];
          Effect(Success, db.(users := users', requests := db.requests[k := request.(status := Accepted)]))
  }

  /** Accepting checks neither the status nor the lists: accepting the
      same request twice lists each user twice in the other's connections. */
  lemma AcceptTwiceDuplicates(db: Db, caller: string, sender: string)
    requires caller != sender
    requires AcceptRequest(db, caller, sender).reply == Success
    ensures var once := AcceptRequest(db, caller, sender);
            var twice := AcceptRequest(once.after, caller, sender);
            && twice.reply == Success
            && twice.after.users[caller].connections == db.users[caller].connections + [sender, sender]
            && twice.after.users[sender].connections == db.users[sender].connections + [caller, caller]
  {
    var once := AcceptRequest(db, caller, sender);
    var k := FindIncoming(db.requests, sender, caller).value;
    assert once.after.requests[k].from == sender && once.after.requests[k].to == caller;
    assert db.users[caller].connections + [sender] + [sender] == db.users[caller].connections + [sender, sender];
    assert db.users[sender].connections + [caller] + [caller] == db.users[sender].connections + [caller, caller];
  }

  /** Accepting is one-directional: a request the caller sent to `sender`
      does not let the caller accept anything from `sender`. */
  lemma AcceptIsDirectional(db: Db, caller: string, sender: string, now: int, i: nat)
    requires caller != sender
    requires UniquePairs(db.requests)
    requires i < |db.requests| && db.requests[i].from == caller && db.requests[i].to == sender
    requires db.requests[i].status == Pending
    requires SentAfter(db.requests, sender, now - Day) < RequestLimit
    ensures AcceptRequest(db, caller, sender) == Effect(ConnectionNotFound, db)
    ensures SendRequest(db, sender, caller, now).reply == RequestPending
  {
    var rs := db.requests;
    forall j | 0 <= j < |rs|
      ensures !(rs[j].from == sender && rs[j].to == caller)
    {
      OnePerPair(rs, i, j, caller, sender);
    }
    SendReportsPairStatus(db, sender, caller, now, i);
  }

  /** With one request per pair, an accepted request leaves the sender off
      the caller's pending list. */
  lemma AcceptClearsPending(db: Db, caller: string, sender: string)
    requires UniquePairs(db.requests)
    requires AcceptRequest(db, caller, sender).reply == Success
    ensures sender !in PendingFrom(AcceptRequest(db, caller, sender).after.requests, caller)
  {
    var rs := db.requests;
    var k := FindIncoming(rs, sender, caller).value;
    var rs' := AcceptRequest(db, caller, sender).after.requests;
    forall i | 0 <= i < |rs'|
      ensures !Awaits(rs'[i], caller, sender)
    {
      OnePerPair(rs, k, i, sender, caller);
    }
  }

  /** Accepting keeps the users table, the pair uniqueness and the window bound. */
  lemma AcceptKeepsValid(db: Db, caller: string, sender: string)
    requires Valid(db)
    ensures Valid(AcceptRequest(db, caller, sender).after)
  {
    var e := AcceptRequest(db, caller, sender);
    if e.reply == Success {
      var rs, rs' := db.requests, e.after.requests;
      forall u, t
        ensures SentWithin(rs', u, t) <= RequestLimit
      {
        SentWithinSameStamps(rs, rs', u, t);
      }
      forall i, j | 0 <= i < j < |rs'|
        ensures !Links(rs'[j], rs'[i].from, rs'[i].to)
      {
        assert rs'[i].from == rs[i].from && rs'[i].to == rs[i].to;
        assert rs'[j].from == rs[j].from && rs'[j].to == rs[j].to;
      }
    }
  }

  /** The request lifecycle the handlers give: user `a` asks user `b`, `b`
      accepts, and from then on `a` asking again is told they are
      connected. */
  lemma ConnectScenario(db: Db, a: string, b: string, now: int, later: int)
    requires a != b && a in db.users && b in db.users && db.requests == []
    ensures var sent := SendRequest(db, a, b, now);
            && sent.reply == Success
            && sent.after.requests == [Request(a, b, Pending, now)]
            && var accepted := AcceptRequest(sent.after, b, a);
               && accepted.reply == Success
               && accepted.after.requests == [Request(a, b, Accepted, now)]
               && a in accepted.after.users[b].connections
               && b in accepted.after.users[a].connections
               && SendRequest(accepted.after, a, b, later).reply == AlreadyConnected
  {
    var sent := SendRequest(db, a, b, now);
    assert sent.reply == Success;
    var accepted := AcceptRequest(sent.after, b, a);
    assert FindIncoming(sent.after.requests, a, b) == Some(0);
    assert accepted.reply == Success;
    var rs := accepted.after.requests;
    assert rs == [Request(a, b, Accepted, now)];
    assert SentAfter(rs, a, later - Day) <= 1;
    assert Links(rs[0], a, b);
    assert FindPair(rs, a, b) == Some(0);
  }

  // ---------------------------------------------------------------------
  // updateUserData (the username), getUserData, getUserProfiles

  /** updateUserData, as far as the username goes. */
  function UpdateUsername(db: Db, caller: string, requested: string): (e: Effect)
    ensures e.after.order == db.order && e.after.requests == db.requests && e.after.events == db.events
    ensures e.reply == Success <==> caller in db.users
    ensures e.reply != Success ==> e.reply == MissingUser && e.after == db
    ensures e.reply == Success ==> caller in e.after.users
    ensures e.reply == Success ==>
              var name := e.after.users[caller].username;
              && e.after.users == db.users[caller := db.users[caller].(username := name)]
              && (name == requested || name == db.users[caller].username)
              && (name != db.users[caller].username ==> !Taken(db.users, db.order, name))
    ensures e.reply == Success ==>
              e.after.users[caller].username == ChosenUsername(db.users, db.order, db.users[caller].username, requested)
  {
    if caller !in db.users then Effect(MissingUser, db)
    else
      var user := db.users[caller];
      var name := ChosenUsername(db.users, db.order, user.username, requested);
      Effect(Success, db.(users := db.users[caller := user.(username := name)]))
  }

  /** No two users hold the same username. */
  ghost predicate UniqueUsernames(users: map<string, User>)
  {
    forall x, y :: x in users && y in users && x != y ==> users[x].username != users[y].username
  }

  /** The username rule never creates a clash that was not already there. */
  lemma UpdateKeepsUsernamesUnique(db: Db, caller: string, requested: string)
    requires OrderIndexes(db.users, db.order) && UniqueUsernames(db.users)
    ensures UniqueUsernames(UpdateUsername(db, caller, requested).after.users)
  {
    var e := UpdateUsername(db, caller, requested);
    if e.reply == Success {
      var name := e.after.users[caller].username;
      forall x, y | x in e.after.users && y in e.after.users && x != y
        ensures e.after.users[x].username != e.after.users[y].username
      {
        if name != db.users[caller].username {
          assert !Taken(db.users, db.order, name);
          if x == caller {
            assert db.users[y].username != name;
          } else if y == caller {
            assert db.users[x].username != name;
          }
        }
      }
    }
  }

  /** getUserData: the caller's record, created from the identity claims
      the first time it is asked for. */
  function ProvisionSelf(db: Db, auth: Auth): (res: Found)
    ensures res.id == auth.userId && res.id in res.after.users
    ensures res.after.requests == db.requests && res.after.events == db.events
    ensures auth.userId in db.users ==> res.after == db
    ensures auth.userId !in db.users ==>
              res.after == Insert(db, auth.userId, NewUser(auth.email, auth.fullName, auth.username))
  {
    if auth.userId in db.users then Found(auth.userId, db)
    else Found(auth.userId, Insert(db, auth.userId, NewUser(auth.email, auth.fullName, auth.username)))
  }

  /** getUserProfiles: the profile for a path parameter, looked up by id,
      then by username, and otherwise created. */
  function ResolveProfile(db: Db, profileId: string, auth: Auth): (res: Found)
    ensures res.id in res.after.users
    ensures res.id == Trim(profileId) || res.after.users[res.id].username == Trim(profileId)
    ensures res.after.requests == db.requests && res.after.events == db.events
    ensures forall id :: id in db.users ==> id in res.after.users && res.after.users[id] == db.users[id]
    ensures Trim(profileId) in db.users ==> res == Found(Trim(profileId), db)
    // otherwise the first user in table order that holds the name
    ensures Trim(profileId) !in db.users && FindByUsername(db.users, db.order, Trim(profileId)).Some? ==>
              res == Found(FindByUsername(db.users, db.order, Trim(profileId)).value, db)
    ensures res.id != Trim(profileId) ==> res.after == db
    // neither an id nor a username: exactly one placeholder is upserted
    ensures Trim(profileId) !in db.users && FindByUsername(db.users, db.order, Trim(profileId)).None? ==>
              res == Found(Trim(profileId), Insert(db, Trim(profileId),
                       if auth.userId == Trim(profileId) then NewUser(auth.email, auth.fullName, auth.username)
                       else NewUser("", "User", Trim(profileId))))
  {
    var key := Trim(profileId);
    if key in db.users then Found(key, db)
    else match FindByUsername(db.users, db.order, key)
      case Some(id) => Found(id, db)
      case None =>
        var profile := if auth.userId == key then NewUser(auth.email, auth.fullName, auth.username)
                       else NewUser("", "User", key);
        Found(key, Insert(db, key, profile))
  }

  /** A placeholder is created only when neither the id nor any username
      matches, and it takes the caller's claims only for the caller's own id. */
  lemma ResolveCreatesOnlyWhenUnknown(db: Db, profileId: string, auth: Auth)
    requires Valid(db)
    ensures var key := Trim(profileId);
            var res := ResolveProfile(db, profileId, auth);
            && (res.after != db <==> key !in db.users && !Taken(db.users, db.order, key))
            && (res.after != db ==>
                  res.after.users[key] == if auth.userId == key then NewUser(auth.email, auth.fullName, auth.username)
                                          else NewUser("", "User", key))
  {
    var key := Trim(profileId);
    if key !in db.users && !Taken(db.users, db.order, key) {
      assert key in ResolveProfile(db, profileId, auth).after.users;
    }
  }

  /** Only the first visit creates: looking the same profile up again
      finds the same record and changes nothing. */
  lemma ResolveIdempotent(db: Db, profileId: string, auth: Auth)
    requires Valid(db)
    ensures var first := ResolveProfile(db, profileId, auth);
            ResolveProfile(first.after, profileId, auth) == Found(first.id, first.after)
  {
    var key := Trim(profileId);
    var first := ResolveProfile(db, profileId, auth);
    if key !in db.users {
      match FindByUsername(db.users, db.order, key)
      case Some(id) =>
      case None =>
    }
  }

  lemma ResolveKeepsValid(db: Db, profileId: string, auth: Auth)
    requires Valid(db)
    ensures Valid(ResolveProfile(db, profileId, auth).after)
  {
    var key := Trim(profileId);
    if key !in db.users && FindByUsername(db.users, db.order, key).None? {
      var profile := if auth.userId == key then NewUser(auth.email, auth.fullName, auth.username)
                     else NewUser("", "User", key);
      InsertKeepsValid(db, key, profile);
    }
  }

  lemma ProvisionKeepsValid(db: Db, auth: Auth)
    requires Valid(db)
    ensures Valid(ProvisionSelf(db, auth).after)
  {
    if auth.userId !in db.users {
      InsertKeepsValid(db, auth.userId, NewUser(auth.email, auth.fullName, auth.username));
    }
  }

  /** Following, unfollowing and renaming touch only user records. */
  lemma UserEditsKeepValid(db: Db, caller: string, target: string, requested: string)
    requires Valid(db)
    ensures Valid(Follow(db, caller, target).after)
    ensures Valid(Unfollow(db, caller, target).after)
    ensures Valid(UpdateUsername(db, caller, requested).after)
  {
  }
}
