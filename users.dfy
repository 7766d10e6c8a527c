/** Users (controllers/userController.js): the paged user list, the
    self-only account and profile handlers, and follow/unfollow, which write
    the same directed records as the connection handlers. */
module UserController {
  import opened Common
  import opened Records
  import opened Store
  import opened ConnectionController
  import Seqs

  // ---------------------------------------------------------------------
  // getUsers

  /** One page of users in storage order; the descriptor counts every user.
      A page number and limit whose skip is negative is a database error. */
  function GetUsers(us: seq<User>, rawPage: Option<int>, rawLimit: Option<int>): (r: Option<Page<User>>)
    ensures var page, limit := OrDefault(rawPage, 1), OrDefault(rawLimit, 10);
      && (r.None? <==> (page - 1) * limit < 0)
      && (r.Some? ==>
            var skip := (page - 1) * limit;
            && |r.value.items| <= |us|
            && (limit != 0 ==> |r.value.items| <= Abs(limit))
            && (skip < |us| ==> skip + |r.value.items| <= |us| && r.value.items == us[skip..skip + |r.value.items|])
            && (skip < |us| ==> |r.value.items| == if limit == 0 || skip + Abs(limit) > |us| then |us| - skip else Abs(limit))
            && (skip >= |us| ==> r.value.items == [])
            && (r.value.pagination.next.Some? <==> page * limit < |us|)
            && (r.value.pagination.prev.Some? <==> skip > 0))
  {
    Paged(us, rawPage, rawLimit, |us|)
  }

  // ---------------------------------------------------------------------
  // updateUser, deleteUser

  /** The user with every field the patch names replaced. */
  function ApplyUserPatch(u: User, patch: UserPatch): (v: User)
    ensures v.id == u.id
    ensures patch.firstName.None? ==> v.firstName == u.firstName
    ensures patch.firstName.Some? ==> v.firstName == patch.firstName.value
    ensures patch.lastName.None? ==> v.lastName == u.lastName
    ensures patch.lastName.Some? ==> v.lastName == patch.lastName.value
    ensures patch.email.None? ==> v.email == u.email
    ensures patch.email.Some? ==> v.email == patch.email.value
    ensures patch.headline.None? ==> v.headline == u.headline
    ensures patch.headline.Some? ==> v.headline == patch.headline.value
  {
    User(u.id,
         if patch.firstName.Some? then patch.firstName.value else u.firstName,
         if patch.lastName.Some? then patch.lastName.value else u.lastName,
         if patch.email.Some? then patch.email.value else u.email,
         if patch.headline.Some? then patch.headline.value else u.headline)
  }

  /** Unauthorized whenever the path names someone else, before the user is
      even looked up; then NotFound for a missing user; otherwise the patch is
      applied. */
  method UpdateUser(db: Db, caller: Id, id: Id, patch: UserPatch) returns (r: Outcome)
    requires db.Valid()
    modifies db`users
    ensures db.Valid()
    ensures id != caller ==> r == Unauthorized
    ensures id == caller && FindUser(old(db.users), id).None? ==> r == NotFound
    ensures id == caller && FindUser(old(db.users), id).Some? ==>
      var k := FindUser(old(db.users), id).value;
      r == Ok && db.users == old(db.users)[k := ApplyUserPatch(old(db.users)[k], patch)]
    ensures r != Ok ==> db.users == old(db.users)
  {
    if id != caller {
      return Unauthorized;
    }
    var k := FindUser(db.users, id);
    if k.None? {
      return NotFound;
    }
    var u := ApplyUserPatch(db.users[k.value], patch);
    FreshIdsReplace(db.users, UserIdOf, db.nextId, k.value, u);
    db.users := db.users[k.value := u];
    r := Ok;
  }

  /** A user left after removing the one at k was in the store and has
      another identifier. */
  lemma RemovedUserLeft(us: seq<User>, k: nat, bound: nat, u: User)
    requires FreshIds(us, UserIdOf, bound) && k < |us| && u in us[..k] + us[k + 1..]
    ensures u in us && u.id != us[k].id
  {
    var rest := us[..k] + us[k + 1..];
    var i :| 0 <= i < |rest| && rest[i] == u;
    var i' := if i < k then i else i + 1;
    assert u == us[i'];
    assert UserIdOf(us[i']) != UserIdOf(us[k]);
  }

  /** A user of the store whose identifier differs from the one at k survives
      its removal. */
  lemma RemovedUserKeeps(us: seq<User>, k: nat, u: User)
    requires k < |us| && u in us && u.id != us[k].id
    ensures u in us[..k] + us[k + 1..]
  {
    var rest := us[..k] + us[k + 1..];
    var i :| 0 <= i < |us| && us[i] == u;
    assert i != k;
    assert u == rest[if i < k then i else i - 1];
  }

  /** With distinct identifiers, removing the user at k leaves exactly the
      users with other identifiers. */
  lemma RemoveUserMembers(us: seq<User>, k: nat, bound: nat)
    requires FreshIds(us, UserIdOf, bound) && k < |us|
    ensures forall u :: u in us[..k] + us[k + 1..] <==> u in us && u.id != us[k].id
  {
    forall u ensures u in us[..k] + us[k + 1..] <==> u in us && u.id != us[k].id {
      if u in us[..k] + us[k + 1..] {
        RemovedUserLeft(us, k, bound, u);
      }
      if u in us && u.id != us[k].id {
        RemovedUserKeeps(us, k, u);
      }
    }
  }

  /** Unauthorized whenever the path names someone else; otherwise the user,
      if present, is removed and the answer is Ok either way. Nothing the user
      owns is removed with them. */
  method DeleteUser(db: Db, caller: Id, id: Id) returns (r: Outcome)
    requires db.Valid()
    modifies db`users
    ensures db.Valid()
    ensures id != caller <==> r == Unauthorized
    ensures r == Ok <==> id == caller
    ensures r == Ok ==> forall u :: u in db.users <==> u in old(db.users) && u.id != id
    ensures r == Ok && FindUser(old(db.users), id).Some? ==>
      var k := FindUser(old(db.users), id).value;
      db.users == old(db.users)[..k] + old(db.users)[k + 1..]
    ensures r != Ok || FindUser(old(db.users), id).None? ==> db.users == old(db.users)
  {
    if id != caller {
      return Unauthorized;
    }
    var k := FindUser(db.users, id);
    if k.None? {
      return Ok;
    }
    var us := db.users;
    FreshIdsRemove(us, UserIdOf, db.nextId, k.value);
    RemoveUserMembers(us, k.value, db.nextId);
    db.users := us[..k.value] + us[k.value + 1..];
    r := Ok;
  }

  // ---------------------------------------------------------------------
  // updateUserProfile

  /** The position of the profile of `user`, if any. */
  function FindProfile(ps: seq<Profile>, user: Id): (r: Option<nat>)
    ensures r.Some? ==> r.value < |ps| && ps[r.value].user == user
    ensures r.None? <==> forall i :: 0 <= i < |ps| ==> ps[i].user != user
  {
    Seqs.FindFirst(ps, (p: Profile) => p.user == user)
  }

  /** The body's fields; its own `user` key is overridden by the path's. */
  function BodyFields(body: map<string, string>): (f: map<string, string>)
    ensures "user" !in f
    ensures forall key :: key in f <==> key in body && key != "user"
    ensures forall key :: key in f ==> f[key] == body[key]
  {
    body - {"user"}
  }

  /** A new profile for `user` keeps one profile per user. */
  lemma CreateKeepsOneProfilePerUser(ps: seq<Profile>, p: Profile)
    requires OneProfilePerUser(ps) && forall i :: 0 <= i < |ps| ==> ps[i].user != p.user
    ensures OneProfilePerUser(ps + [p])
  {
    var ps' := ps + [p];
    forall i, j | 0 <= i < j < |ps'| ensures ps'[i].user != ps'[j].user {
      if j == |ps| {
        assert ps'[i] == ps[i];
      }
    }
  }

  /** Unauthorized whenever the path names someone else. Otherwise the
      user's profile, when there is one, gets the body's fields set over its
      own (no validation); when there is none, a profile for the path's user
      with the body's fields is created if the schema `accepts` them, and the
      request fails if not. Either way the user has at most one profile. */
  method UpdateUserProfile(db: Db, caller: Id, id: Id, body: map<string, string>,
                           accepts: map<string, string> -> bool) returns (r: Outcome)
    requires db.Valid()
    modifies db`profiles, db`nextId
    ensures db.Valid()
    ensures id != caller ==> r == Unauthorized
    ensures var k := FindProfile(old(db.profiles), id);
      && (id == caller && k.Some? ==>
            && r == Ok
            && db.profiles == old(db.profiles)[k.value := old(db.profiles)[k.value].(fields := old(db.profiles)[k.value].fields + BodyFields(body))]
            && db.nextId == old(db.nextId))
      && (id == caller && k.None? && !accepts(BodyFields(body)) ==> r == Failed)
      && (id == caller && k.None? && accepts(BodyFields(body)) ==>
            && r == Ok
            && db.profiles == old(db.profiles) + [Profile(old(db.nextId), id, BodyFields(body))]
            && db.nextId == old(db.nextId) + 1)
    ensures r != Ok ==> db.profiles == old(db.profiles) && db.nextId == old(db.nextId)
    ensures r == Ok ==> FindProfile(db.profiles, id).Some?
  {
    if id != caller {
      return Unauthorized;
    }
    var fields := BodyFields(body);
    var k := FindProfile(db.profiles, id);
    if k.Some? {
      var p := db.profiles[k.value];
      FreshIdsReplace(db.profiles, ProfileIdOf, db.nextId, k.value, p.(fields := p.fields + fields));
      db.profiles := db.profiles[k.value := p.(fields := p.fields + fields)];
      assert db.profiles[k.value].user == id;
      return Ok;
    }
    if !accepts(fields) {
      return Failed;
    }
    var ps := db.profiles;
    var pid := db.NewId();
    var p := Profile(pid, id, fields);
    FreshIdsAppend(ps, ProfileIdOf, pid, p);
    CreateKeepsOneProfilePerUser(ps, p);
    db.profiles := ps + [p];
    assert db.profiles[|ps|].user == id;
    r := Ok;
  }

  // ---------------------------------------------------------------------
  // followUser, unfollowUser

  predicate From(c: Connection, a: Id, b: Id)
  {
    c.requester == a && c.recipient == b
  }

  /** Some record, of any status, runs from `a` to `b`. */
  predicate Follows(cs: seq<Connection>, a: Id, b: Id)
  {
    exists i :: 0 <= i < |cs| && From(cs[i], a, b)
  }

  /** Refused for oneself and for an unknown user; refused when a record from
      the caller to the target exists; otherwise a pending record from the
      caller to the target is added. A record the other way is not looked at. */
  method FollowUser(db: Db, caller: Id, target: Id, now: Time) returns (r: Outcome)
    requires db.Valid()
    modifies db`connections, db`nextId
    ensures db.Valid()
    ensures target == caller ==> r == BadRequest
    ensures target != caller && !UserExists(db.users, target) ==> r == NotFound
    ensures target != caller && UserExists(db.users, target) && Follows(old(db.connections), caller, target)
      ==> r == BadRequest
    ensures r == Ok <==>
      target != caller && UserExists(db.users, target) && !Follows(old(db.connections), caller, target)
    ensures r == Ok ==>
      db.connections == old(db.connections) + [Connection(old(db.nextId), caller, target, Pending, now)]
    ensures r != Ok ==> db.connections == old(db.connections) && db.nextId == old(db.nextId)
  {
    if target == caller {
      return BadRequest;
    }
    if FindUser(db.users, target).None? {
      return NotFound;
    }
    if Follows(db.connections, caller, target) {
      return BadRequest;
    }
    var cs := db.connections;
    var id := db.NewId();
    var c := Connection(id, caller, target, Pending, now);
    FreshIdsAppend(cs, ConnectionIdOf, id, c);
    db.connections := cs + [c];
    r := Ok;
  }

  /** A follow is let through after the target has asked the caller, and the
      pair then has two records: the connection handler's one-record-per-pair
      rule does not survive a follow. */
  lemma FollowMayDuplicatePair(a: Id, b: Id, t: Time)
    requires a != b
    ensures var cs := [Connection(0, b, a, Pending, t)];
      && OneRecordPerPair(cs)
      && !Follows(cs, a, b)
      && Linked(cs, a, b)
      && !OneRecordPerPair(cs + [Connection(1, a, b, Pending, t)])
  {
    var cs := [Connection(0, b, a, Pending, t)];
    assert Joins(cs[0], a, b);
    var cs' := cs + [Connection(1, a, b, Pending, t)];
    assert Joins(cs'[1], cs'[0].requester, cs'[0].recipient);
  }

  /** The first record from `a` to `b`, of any status. */
  function FindFollow(cs: seq<Connection>, a: Id, b: Id): (k: Option<nat>)
    ensures k.Some? ==> k.value < |cs| && From(cs[k.value], a, b)
    ensures k.None? <==> !Follows(cs, a, b)
  {
    Seqs.FindFirst(cs, (c: Connection) => From(c, a, b))
  }

  /** Refused for oneself; NotFound when no record runs from the caller to the
      target; otherwise the first such record is deleted, whatever its status. */
  method UnfollowUser(db: Db, caller: Id, target: Id) returns (r: Outcome)
    requires db.Valid()
    modifies db`connections
    ensures db.Valid()
    ensures target == caller ==> r == BadRequest
    ensures target != caller && !Follows(old(db.connections), caller, target) ==> r == NotFound
    ensures target != caller && Follows(old(db.connections), caller, target) ==>
      var k := FindFollow(old(db.connections), caller, target).value;
      r == Ok && db.connections == old(db.connections)[..k] + old(db.connections)[k + 1..]
    ensures r != Ok ==> db.connections == old(db.connections)
  {
    if target == caller {
      return BadRequest;
    }
    var k := FindFollow(db.connections, caller, target);
    if k.None? {
      return NotFound;
    }
    FreshIdsRemove(db.connections, ConnectionIdOf, db.nextId, k.value);
    db.connections := db.connections[..k.value] + db.connections[k.value + 1..];
    r := Ok;
  }

  /** Where a pair has one record, unfollowing along it ends the connection
      even when it had been accepted. */
  lemma UnfollowEndsConnection(cs: seq<Connection>, a: Id, b: Id)
    requires OneRecordPerPair(cs) && Follows(cs, a, b)
    ensures var k := FindFollow(cs, a, b).value;
      b !in ConnectedIds(cs[..k] + cs[k + 1..], a)
  {
  }
}
