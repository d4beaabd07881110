/** The read-only queries the handlers run against the two tables, written
    as the filters and first-match searches they are: `Connection.findOne`
    and `User.findOne` return the first match in insertion order,
    `Connection.find(...).length` counts, `Array.prototype.filter` keeps
    order. */
module Queries {
  import opened Records

  /** The position of the first document of `s` that satisfies `p`. */
  function First<T>(s: seq<T>, p: T -> bool): (r: Option<nat>)
    ensures r.Some? ==> r.value < |s| && p(s[r.value])
    ensures r.Some? ==> forall j :: 0 <= j < r.value ==> !p(s[j])
    ensures r.None? ==> forall j :: 0 <= j < |s| ==> !p(s[j])
  {
    if s == [] then None
    else if p(s[0]) then Some(0)
    else match First(s[1..], p)
      case None => None
      case Some(i) => Some(i + 1)
  }

  /** `q` links `a` and `b`, in either direction. */
  predicate Links(q: Request, a: string, b: string)
  {
    (q.from == a && q.to == b) || (q.from == b && q.to == a)
  }

  /** The lookup of sendConnectionRequest: the first request between the
      two users, whichever of them sent it. */
  function FindPair(rs: seq<Request>, a: string, b: string): (r: Option<nat>)
    ensures r.Some? ==> r.value < |rs| && Links(rs[r.value], a, b)
    ensures r.Some? ==> forall j :: 0 <= j < r.value ==> !Links(rs[j], a, b)
    ensures r.None? <==> forall j :: 0 <= j < |rs| ==> !Links(rs[j], a, b)
  {
    First(rs, q => Links(q, a, b))
  }

  /** The lookup of acceptConnectionRequest: the first request sent by
      `sender` to `addressee`, in that direction only and whatever its status. */
  function FindIncoming(rs: seq<Request>, sender: string, addressee: string): (r: Option<nat>)
    ensures r.Some? ==> r.value < |rs| && rs[r.value].from == sender && rs[r.value].to == addressee
    ensures r.Some? ==> forall j :: 0 <= j < r.value ==> !(rs[j].from == sender && rs[j].to == addressee)
    ensures r.None? <==> forall j :: 0 <= j < |rs| ==> !(rs[j].from == sender && rs[j].to == addressee)
  {
    First(rs, (q: Request) => q.from == sender && q.to == addressee)
  }

  /** The pair lookup does not depend on which of the two users asks. */
  lemma FindPairSymmetric(rs: seq<Request>, a: string, b: string)
    ensures FindPair(rs, a, b) == FindPair(rs, b, a)
  {
    var x, y := FindPair(rs, a, b), FindPair(rs, b, a);
    assert forall q :: Links(q, a, b) <==> Links(q, b, a);
    if x.Some? {
      assert Links(rs[x.value], b, a);
    }
    if y.Some? {
      assert Links(rs[y.value], a, b);
    }
  }

  /** The rate-limit query: how many requests `u` has sent whose creation
      time is strictly after `since`. It has no upper bound on the time. */
  function SentAfter(rs: seq<Request>, u: string, since: int): (r: nat)
    ensures r <= |rs|
    ensures r == 0 <==> forall i :: 0 <= i < |rs| ==> !(rs[i].from == u && rs[i].createdAt > since)
  {
    if rs == [] then 0
    else
      var q := rs[|rs| - 1];
      SentAfter(rs[..|rs| - 1], u, since) + (if q.from == u && q.createdAt > since then 1 else 0)
  }

  /** How many requests `u` sent in the 24-hour window that ends at `t`
      (creation time in `(t - Day, t]`). */
  function SentWithin(rs: seq<Request>, u: string, t: int): nat
  {
    if rs == [] then 0
    else
      var q := rs[|rs| - 1];
      SentWithin(rs[..|rs| - 1], u, t) + (if q.from == u && t - Day < q.createdAt <= t then 1 else 0)
  }

  /** With no request stamped after `now`, the rate-limit query made at
      `now` counts exactly the requests of the window that ends at `now`. */
  lemma {:induction false} QueryIsWindow(rs: seq<Request>, u: string, now: int)
    requires forall i :: 0 <= i < |rs| ==> rs[i].createdAt <= now
    ensures SentAfter(rs, u, now - Day) == SentWithin(rs, u, now)
  {
    if rs != [] {
      QueryIsWindow(rs[..|rs| - 1], u, now);
    }
  }

  /** Appending one request adds it to the window count exactly when it
      falls in the window. */
  lemma SentWithinAppend(rs: seq<Request>, q: Request, u: string, t: int)
    ensures SentWithin(rs + [q], u, t)
         == SentWithin(rs, u, t) + (if q.from == u && t - Day < q.createdAt <= t then 1 else 0)
  {
    assert (rs + [q])[..|rs|] == rs;
  }

  /** Every request in a window that ends at or after `now` is counted by
      the rate-limit query made at `now`. */
  lemma {:induction false} WindowWithinQuery(rs: seq<Request>, u: string, t: int, now: int)
    requires now <= t
    ensures SentWithin(rs, u, t) <= SentAfter(rs, u, now - Day)
  {
    if rs != [] {
      WindowWithinQuery(rs[..|rs| - 1], u, t, now);
    }
  }

  /** The window counts read only the sender and the creation time. */
  lemma {:induction false} SentWithinSameStamps(rs: seq<Request>, rs': seq<Request>, u: string, t: int)
    requires |rs| == |rs'|
    requires forall i :: 0 <= i < |rs| ==> rs[i].from == rs'[i].from && rs[i].createdAt == rs'[i].createdAt
    ensures SentWithin(rs, u, t) == SentWithin(rs', u, t)
  {
    if rs != [] {
      SentWithinSameStamps(rs[..|rs| - 1], rs'[..|rs'| - 1], u, t);
    }
  }

  /** `q` is a pending request sent by `x` to `u`. */
  predicate Awaits(q: Request, u: string, x: string)
  {
    q.to == u && q.status == Pending && q.from == x
  }

  /** The pending list of getUserConnections: the senders of the pending
      requests addressed to `u`, in request order. */
  function PendingFrom(rs: seq<Request>, u: string): (r: seq<string>)
    ensures |r| <= |rs|
    ensures forall x :: x in r <==> exists i :: 0 <= i < |rs| && Awaits(rs[i], u, x)
  {
    if rs == [] then []
    else
      var rest := PendingFrom(rs[1..], u);
      assert forall i :: 1 <= i < |rs| ==> rs[1..][i - 1] == rs[i];
      if rs[0].to == u && rs[0].status == Pending then [rs[0].from] + rest else rest
  }

  /** A request stored after the others adds its sender at the end of the
      list exactly when it is pending and addressed to `u`; with
      `PendingFrom([], u) == []` this fixes the list, order and repeats
      included. */
  lemma {:induction false} PendingFromAppend(rs: seq<Request>, q: Request, u: string)
    ensures PendingFrom(rs + [q], u)
         == PendingFrom(rs, u) + (if q.to == u && q.status == Pending then [q.from] else [])
  {
    if rs == [] {
      assert [q][1..] == [];
    } else {
      assert (rs + [q])[1..] == rs[1..] + [q];
      PendingFromAppend(rs[1..], q, u);
    }
  }

  /** The user recorded under `id` holds `name`. */
  predicate Holds(users: map<string, User>, id: string, name: string)
  {
    id in users && users[id].username == name
  }

  /** The first id in `order` whose user holds `name`: `User.findOne({username})`. */
  function FindByUsername(users: map<string, User>, order: seq<string>, name: string): (r: Option<string>)
    ensures r.Some? ==> exists i :: 0 <= i < |order| && order[i] == r.value && Holds(users, order[i], name)
                          && forall j :: 0 <= j < i ==> !Holds(users, order[j], name)
    ensures r.Some? ==> r.value in users && users[r.value].username == name
    ensures r.None? <==> forall id :: id in order && id in users ==> users[id].username != name
  {
    match First(order, (id: string) => Holds(users, id, name))
    case None => None
    case Some(i) => Some(order[i])
  }

  /** Some user of the table holds `name`: the same `User.findOne({username})`,
      which updateUserData uses only as a yes/no answer. */
  function Taken(users: map<string, User>, order: seq<string>, name: string): (b: bool)
    ensures b <==> exists id :: id in order && id in users && users[id].username == name
  {
    FindByUsername(users, order, name).Some?
  }

  /** The username updateUserData stores for a user whose current username
      is `current` and who asked for `requested` (the empty string when the
      form leaves it out). */
  function ChosenUsername(users: map<string, User>, order: seq<string>, current: string, requested: string): (r: string)
    ensures r == requested || r == current
    ensures requested == "" ==> r == current
    ensures requested != "" ==> (r == requested <==> requested == current || !Taken(users, order, requested))
    ensures r != current ==> !Taken(users, order, r)
  {
    var name := if requested == "" then current else requested;
    if current != name && Taken(users, order, name) then current else name
  }

  /** The users the search query returns, in table order; the regular
      expressions of the query are the abstract predicate `matches`. */
  function Matching(users: map<string, User>, order: seq<string>, matches: User -> bool): (r: seq<string>)
    ensures forall id :: id in r <==> id in order && id in users && matches(users[id])
  {
    if order == [] then []
    else
      var rest := Matching(users, order[1..], matches);
      assert forall id :: id in order <==> id == order[0] || id in order[1..];
      if order[0] in users && matches(users[order[0]]) then [order[0]] + rest else rest
  }

  /** An id listed after the others adds itself at the end of the result
      exactly when its user matches; with `Matching(users, [], matches) == []`
      this fixes the result: each match once, in table order. */
  lemma {:induction false} MatchingAppend(users: map<string, User>, order: seq<string>, id: string,
                                          matches: User -> bool)
    ensures Matching(users, order + [id], matches)
         == Matching(users, order, matches) + (if id in users && matches(users[id]) then [id] else [])
  {
    if order == [] {
      assert [id][1..] == [];
    } else {
      assert (order + [id])[1..] == order[1..] + [id];
      MatchingAppend(users, order[1..], id, matches);
    }
  }

  /** The characters JavaScript's `String.prototype.trim` removes: the
      WhiteSpace and LineTerminator code points of ECMA-262 (the Zs range
      U+2000 to U+200A written out). */
  const JsSpaces: set<char> := {
    '\t', '\n', '\U{000B}', '\U{000C}', '\r', ' ', '\U{00A0}', '\U{1680}',
    '\U{2000}', '\U{2001}', '\U{2002}', '\U{2003}', '\U{2004}', '\U{2005}',
    '\U{2006}', '\U{2007}', '\U{2008}', '\U{2009}', '\U{200A}',
    '\U{2028}', '\U{2029}', '\U{202F}', '\U{205F}', '\U{3000}', '\U{FEFF}'}

  predicate IsJsSpace(c: char)
  {
    c in JsSpaces
  }

  /** The number of leading space characters of `s`. */
  function LeadingSpace(s: string): (k: nat)
    ensures k <= |s|
    ensures forall i :: 0 <= i < k ==> IsJsSpace(s[i])
    ensures k < |s| ==> !IsJsSpace(s[k])
  {
    if s != [] && IsJsSpace(s[0]) then 1 + LeadingSpace(s[1..]) else 0
  }

  /** Where the kept part of `s[lo..hi]` ends once trailing space is cut:
      everything from the result up to `hi` is space, and the character
      just before it, if it lies after `lo`, is not. */
  function KeptEnd(s: string, lo: nat, hi: nat): (j: nat)
    requires lo <= hi <= |s|
    ensures lo <= j <= hi
    ensures forall k :: j <= k < hi ==> IsJsSpace(s[k])
    ensures lo < j ==> !IsJsSpace(s[j - 1])
    decreases hi - lo
  {
    if lo < hi && IsJsSpace(s[hi - 1]) then KeptEnd(s, lo, hi - 1) else hi
  }

  /** `String.prototype.trim`: `s` without its leading and trailing space. */
  function Trim(s: string): (r: string)
    ensures r == [] || (!IsJsSpace(r[0]) && !IsJsSpace(r[|r| - 1]))
    ensures exists i, j :: 0 <= i <= j <= |s| && r == s[i..j]
              && (forall k :: 0 <= k < i ==> IsJsSpace(s[k]))
              && (forall k :: j <= k < |s| ==> IsJsSpace(s[k]))
  {
    var i := LeadingSpace(s);
    var j := KeptEnd(s, i, |s|);
    s[i..j]
  }
}
