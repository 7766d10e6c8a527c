/** The connection graph (controllers/connectionController.js): directed
    records (requester, recipient, status) that move from pending to accepted
    or rejected, the caller's connected users derived from the accepted ones,
    and suggestions from the users the caller has no record with. */
module ConnectionController {
  import opened Common
  import opened Records
  import opened Store
  import Seqs

  /** The caller is one of the two ends of the record. */
  predicate Involves(c: Connection, u: Id)
  {
    c.requester == u || c.recipient == u
  }

  /** The end of a record that is not `u`: the recipient when `u` requested,
      otherwise the requester. */
  function Other(c: Connection, u: Id): (v: Id)
    ensures Involves(c, u) && c.requester != c.recipient ==> v != u && Involves(c, v)
  {
    if c.requester == u then c.recipient else c.requester
  }

  /** A record between `a` and `b`, in either direction. */
  predicate Joins(c: Connection, a: Id, b: Id)
  {
    (c.requester == a && c.recipient == b) || (c.requester == b && c.recipient == a)
  }

  /** Some record, of any status, joins `a` and `b`. */
  predicate Linked(cs: seq<Connection>, a: Id, b: Id)
  {
    exists i :: 0 <= i < |cs| && Joins(cs[i], a, b)
  }

  // ---------------------------------------------------------------------
  // getConnections

  datatype ConnectedUser = ConnectedUser(connectionId: Id, user: Id, createdAt: Time)

  predicate AcceptedWith(c: Connection, u: Id)
  {
    c.status == Accepted && Involves(c, u)
  }

  function Entry(c: Connection, u: Id): ConnectedUser
  {
    ConnectedUser(c.id, Other(c, u), c.createdAt)
  }

  /** The accepted records that involve the caller, in storage order: what
      the `$or` query finds. */
  function AcceptedRecords(cs: seq<Connection>, caller: Id): (r: seq<Connection>)
    ensures forall c :: c in r <==> c in cs && AcceptedWith(c, caller)
    ensures forall c :: multiset(r)[c] == if AcceptedWith(c, caller) then multiset(cs)[c] else 0
  {
    Seqs.Filter(cs, (c: Connection) => AcceptedWith(c, caller))
  }

  /** One entry per record the query finds, in the order found, each shown as
      the user at the other end. */
  function GetConnections(cs: seq<Connection>, caller: Id): (r: seq<ConnectedUser>)
    ensures |r| == |AcceptedRecords(cs, caller)|
    ensures forall i :: 0 <= i < |r| ==> r[i] == Entry(AcceptedRecords(cs, caller)[i], caller)
    ensures forall e :: e in r <==> exists c :: c in cs && AcceptedWith(c, caller) && e == Entry(c, caller)
  {
    var found := AcceptedRecords(cs, caller);
    var r := seq(|found|, i requires 0 <= i < |found| => Entry(found[i], caller));
    assert forall c :: c in found ==> Entry(c, caller) in r by {
      forall c | c in found ensures Entry(c, caller) in r {
        var i :| 0 <= i < |found| && found[i] == c;
        assert r[i] == Entry(c, caller);
      }
    }
    r
  }

  /** The users the caller is connected to, whichever side asked. */
  function ConnectedIds(cs: seq<Connection>, caller: Id): (s: set<Id>)
    ensures forall u :: u in s <==> exists c :: c in cs && AcceptedWith(c, caller) && Other(c, caller) == u
  {
    var r := GetConnections(cs, caller);
    assert forall c :: c in cs && AcceptedWith(c, caller) ==> Entry(c, caller) in r;
    set e | e in r :: e.user
  }

  /** Nobody is listed as their own connection. */
  lemma ConnectedNeverSelf(cs: seq<Connection>, caller: Id)
    requires NoSelfConnections(cs)
    ensures caller !in ConnectedIds(cs, caller)
  {
  }

  /** Accepting a request between a and b makes each a connection of the other. */
  lemma AcceptConnectsBothWays(cs: seq<Connection>, k: nat)
    requires k < |cs| && cs[k].requester != cs[k].recipient
    ensures var cs' := cs[k := cs[k].(status := Accepted)];
      && cs[k].recipient in ConnectedIds(cs', cs[k].requester)
      && cs[k].requester in ConnectedIds(cs', cs[k].recipient)
  {
    var cs' := cs[k := cs[k].(status := Accepted)];
    assert cs'[k] in cs';
    assert AcceptedWith(cs'[k], cs[k].requester) && Other(cs'[k], cs[k].requester) == cs[k].recipient;
    assert AcceptedWith(cs'[k], cs[k].recipient) && Other(cs'[k], cs[k].recipient) == cs[k].requester;
  }

  // ---------------------------------------------------------------------
  // sendConnectionRequest

  /** A request to connect with `target`: refused for oneself, for an unknown
      user and whenever any record already joins the two, whatever its status;
      otherwise one pending record from the caller to the target is added. */
  method SendConnectionRequest(db: Db, caller: Id, target: Id, now: Time) returns (r: Outcome)
    requires db.Valid()
    modifies db`connections, db`nextId
    ensures db.Valid()
    ensures target == caller ==> r == BadRequest
    ensures target != caller && !UserExists(db.users, target) ==> r == NotFound
    ensures target != caller && UserExists(db.users, target) && Linked(old(db.connections), caller, target)
      ==> r == BadRequest
    ensures r == Ok <==>
      target != caller && UserExists(db.users, target) && !Linked(old(db.connections), caller, target)
    ensures r == Ok ==>
      db.connections == old(db.connections) + [Connection(old(db.nextId), caller, target, Pending, now)]
    ensures r != Ok ==> db.connections == old(db.connections) && db.nextId == old(db.nextId)
  {
    if target == caller {
      return BadRequest;
    }
    if FindUser(db.users, target).None? {
      return NotFound;
    }
    if Linked(db.connections, caller, target) {
      return BadRequest;
    }
    var id := db.NewId();
    var c := Connection(id, caller, target, Pending, now);
    FreshIdsAppend(db.connections, ConnectionIdOf, db.nextId - 1, c);
    db.connections := db.connections + [c];
    r := Ok;
  }

  /** Every pair of users has at most one record between them. */
  ghost predicate OneRecordPerPair(cs: seq<Connection>)
  {
    forall i, j :: 0 <= i < j < |cs| ==> !Joins(cs[j], cs[i].requester, cs[i].recipient)
  }

  /** A request the handler lets through keeps at most one record per pair. */
  lemma RequestKeepsOneRecordPerPair(cs: seq<Connection>, c: Connection)
    requires OneRecordPerPair(cs) && !Linked(cs, c.requester, c.recipient)
    ensures OneRecordPerPair(cs + [c])
  {
    var cs' := cs + [c];
    forall i, j | 0 <= i < j < |cs'| ensures !Joins(cs'[j], cs'[i].requester, cs'[i].recipient) {
      if j == |cs| {
        assert !Joins(cs[i], c.requester, c.recipient);
      }
    }
  }

  /** Status changes never unlink a pair: once refused, a pair is refused for
      good, since the handler does not look at the status of what it finds. */
  lemma StatusChangeKeepsLink(cs: seq<Connection>, k: nat, s: ConnectionStatus, a: Id, b: Id)
    requires k < |cs| && Linked(cs, a, b)
    ensures Linked(cs[k := cs[k].(status := s)], a, b)
  {
    var i :| 0 <= i < |cs| && Joins(cs[i], a, b);
    assert Joins(cs[k := cs[k].(status := s)][i], a, b);
  }

  // ---------------------------------------------------------------------
  // acceptConnectionRequest, rejectConnectionRequest

  predicate PendingFor(c: Connection, id: Id, caller: Id)
  {
    c.id == id && c.recipient == caller && c.status == Pending
  }

  /** The pending record `id` addressed to the caller, if any. */
  function FindPendingFor(cs: seq<Connection>, id: Id, caller: Id): (k: Option<nat>)
    ensures k.Some? ==> k.value < |cs| && PendingFor(cs[k.value], id, caller)
    ensures k.None? <==> forall i :: 0 <= i < |cs| ==> !PendingFor(cs[i], id, caller)
  {
    Seqs.FindFirst(cs, (c: Connection) => PendingFor(c, id, caller))
  }

  /** Only the recipient of a pending record may answer it; anything else is
      NotFound. The answer sets the status and changes nothing else. */
  method Respond(db: Db, caller: Id, id: Id, answer: ConnectionStatus) returns (r: Outcome)
    requires db.Valid()
    modifies db`connections
    ensures db.Valid()
    ensures var k := FindPendingFor(old(db.connections), id, caller);
      && (k.None? ==> r == NotFound && db.connections == old(db.connections))
      && (k.Some? ==> r == Ok && db.connections == old(db.connections)[k.value := old(db.connections)[k.value].(status := answer)])
  {
    var k := FindPendingFor(db.connections, id, caller);
    if k.None? {
      return NotFound;
    }
    var c := db.connections[k.value];
    FreshIdsReplace(db.connections, ConnectionIdOf, db.nextId, k.value, c.(status := answer));
    db.connections := db.connections[k.value := c.(status := answer)];
    r := Ok;
  }

  method AcceptConnectionRequest(db: Db, caller: Id, id: Id) returns (r: Outcome)
    requires db.Valid()
    modifies db`connections
    ensures db.Valid()
    ensures var k := FindPendingFor(old(db.connections), id, caller);
      && (k.None? ==> r == NotFound && db.connections == old(db.connections))
      && (k.Some? ==> r == Ok && db.connections == old(db.connections)[k.value := old(db.connections)[k.value].(status := Accepted)])
  {
    r := Respond(db, caller, id, Accepted);
  }

  method RejectConnectionRequest(db: Db, caller: Id, id: Id) returns (r: Outcome)
    requires db.Valid()
    modifies db`connections
    ensures db.Valid()
    ensures var k := FindPendingFor(old(db.connections), id, caller);
      && (k.None? ==> r == NotFound && db.connections == old(db.connections))
      && (k.Some? ==> r == Ok && db.connections == old(db.connections)[k.value := old(db.connections)[k.value].(status := Rejected)])
  {
    r := Respond(db, caller, id, Rejected);
  }

  // ---------------------------------------------------------------------
  // removeConnection

  predicate AcceptedFor(c: Connection, id: Id, caller: Id)
  {
    c.id == id && AcceptedWith(c, caller)
  }

  /** The accepted record `id` with the caller at either end, if any. */
  function FindAcceptedFor(cs: seq<Connection>, id: Id, caller: Id): (k: Option<nat>)
    ensures k.Some? ==> k.value < |cs| && AcceptedFor(cs[k.value], id, caller)
    ensures k.None? <==> forall i :: 0 <= i < |cs| ==> !AcceptedFor(cs[i], id, caller)
  {
    Seqs.FindFirst(cs, (c: Connection) => AcceptedFor(c, id, caller))
  }

  /** Either end may delete an accepted record; a pending or rejected record,
      or one the caller is not part of, is NotFound. */
  method RemoveConnection(db: Db, caller: Id, id: Id) returns (r: Outcome)
    requires db.Valid()
    modifies db`connections
    ensures db.Valid()
    ensures var k := FindAcceptedFor(old(db.connections), id, caller);
      && (k.None? ==> r == NotFound && db.connections == old(db.connections))
      && (k.Some? ==> r == Ok && db.connections == old(db.connections)[..k.value] + old(db.connections)[k.value + 1..])
  {
    var k := FindAcceptedFor(db.connections, id, caller);
    if k.None? {
      return NotFound;
    }
    FreshIdsRemove(db.connections, ConnectionIdOf, db.nextId, k.value);
    db.connections := db.connections[..k.value] + db.connections[k.value + 1..];
    r := Ok;
  }

  // ---------------------------------------------------------------------
  // getConnectionSuggestions

  /** Everyone the caller shares a record with, of any status. */
  function Related(cs: seq<Connection>, caller: Id): set<Id>
  {
    set c | c in cs && Involves(c, caller) :: Other(c, caller)
  }

  const SuggestionLimit: nat := 10

  /** A user the caller may be suggested: not the caller, and sharing no
      record with the caller. */
  predicate Eligible(u: User, cs: seq<Connection>, caller: Id)
  {
    u.id != caller && u.id !in Related(cs, caller)
  }

  /** The users the `$nin` query finds, in storage order. */
  function EligibleUsers(us: seq<User>, cs: seq<Connection>, caller: Id): (r: seq<User>)
    ensures forall u :: u in r <==> u in us && Eligible(u, cs, caller)
    ensures forall u :: multiset(r)[u] == if Eligible(u, cs, caller) then multiset(us)[u] else 0
    ensures multiset(r) <= multiset(us)
  {
    Seqs.Filter(us, (u: User) => Eligible(u, cs, caller))
  }

  /** Up to ten users, in storage order, other than the caller and anyone the
      caller shares a record with: the first ten the query finds, each once. */
  function GetConnectionSuggestions(us: seq<User>, cs: seq<Connection>, caller: Id): (r: seq<User>)
    ensures |r| <= SuggestionLimit
    ensures |r| == if |EligibleUsers(us, cs, caller)| < SuggestionLimit then |EligibleUsers(us, cs, caller)| else SuggestionLimit
    ensures r == EligibleUsers(us, cs, caller)[..|r|]
    ensures multiset(r) <= multiset(us)
    ensures forall u :: u in r ==> u in us && u.id != caller && u.id !in Related(cs, caller)
    ensures forall c :: c in cs && Involves(c, caller) ==> forall u :: u in r ==> u.id != Other(c, caller)
    ensures |r| < SuggestionLimit ==>
      forall u :: u in us && u.id != caller && u.id !in Related(cs, caller) ==> u in r
  {
    var eligible := EligibleUsers(us, cs, caller);
    var r := Seqs.Take(eligible, SuggestionLimit);
    assert eligible == r + eligible[|r|..];
    assert multiset(r) <= multiset(eligible);
    assert forall u :: u in r ==> u in eligible;
    r
  }
}
