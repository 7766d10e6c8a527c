/** Direct messages (controllers/messageController.js): one conversation per
    pair of users, found or created on the first message; its last-message
    pointer follows sends and deletions; reading a thread marks the other
    party's messages as read. */
module MessageController {
  import opened Common
  import opened Records
  import opened Store
  import Seqs

  // ---------------------------------------------------------------------
  // getConversations

  /** A conversation as listed: the first participant who is not the caller. */
  datatype ConversationView = ConversationView(
    id: Id, otherParticipant: Option<Id>, lastMessage: Option<Id>, updatedAt: Time)

  function OtherParticipant(ps: seq<Id>, caller: Id): (r: Option<Id>)
    ensures r.Some? ==> r.value in ps && r.value != caller
    ensures r.None? <==> forall i :: 0 <= i < |ps| ==> ps[i] == caller
  {
    match Seqs.FindFirst(ps, (x: Id) => x != caller)
    case None => None
    case Some(i) => Some(ps[i])
  }

  function View(c: Conversation, caller: Id): ConversationView
  {
    ConversationView(c.id, OtherParticipant(c.participants, caller), c.lastMessage, c.updatedAt)
  }

  function ConversationsOf(cs: seq<Conversation>, caller: Id): (r: seq<Conversation>)
    ensures forall c :: c in r <==> c in cs && caller in c.participants
    ensures forall c :: multiset(r)[c] == if caller in c.participants then multiset(cs)[c] else 0
  {
    Seqs.Filter(cs, (c: Conversation) => caller in c.participants)
  }

  /** Each conversation of `s` as listed, in the same order. */
  function Views(s: seq<Conversation>, caller: Id): (r: seq<ConversationView>)
    ensures |r| == |s|
    ensures forall i :: 0 <= i < |s| ==> r[i] == View(s[i], caller)
  {
    seq(|s|, i requires 0 <= i < |s| => View(s[i], caller))
  }

  lemma ViewsMembers(s: seq<Conversation>, caller: Id)
    ensures forall v :: v in Views(s, caller) <==> exists c :: c in s && v == View(c, caller)
  {
    var r := Views(s, caller);
    forall c | c in s ensures View(c, caller) in r {
      var i :| 0 <= i < |s| && s[i] == c;
      assert r[i] == View(c, caller);
    }
  }

  /** The conversations the caller takes part in, most recently updated
      first: each occurs as often as it is stored, and no other one occurs. */
  function ConversationOrder(cs: seq<Conversation>, caller: Id): (r: seq<Conversation>)
    ensures forall i, j :: 0 <= i < j < |r| ==> r[i].updatedAt >= r[j].updatedAt
    ensures forall c :: multiset(r)[c] == if caller in c.participants then multiset(cs)[c] else 0
    ensures forall c :: c in r <==> c in cs && caller in c.participants
  {
    var mine := ConversationsOf(cs, caller);
    var sorted := Seqs.SortDesc(mine, ConversationUpdatedAt);
    Seqs.SortDescMembers(mine, ConversationUpdatedAt);
    assert forall i, j :: 0 <= i < j < |sorted| ==> ConversationUpdatedAt(sorted[i]) >= ConversationUpdatedAt(sorted[j]);
    sorted
  }

  /** The caller's conversations as listed: one view per conversation of
      `ConversationOrder`, in that order. */
  function GetConversations(cs: seq<Conversation>, caller: Id): (r: seq<ConversationView>)
    ensures |r| == |ConversationOrder(cs, caller)|
    ensures forall i :: 0 <= i < |r| ==> r[i] == View(ConversationOrder(cs, caller)[i], caller)
    ensures forall i, j :: 0 <= i < j < |r| ==> r[i].updatedAt >= r[j].updatedAt
    ensures forall v :: v in r <==> exists c :: c in cs && caller in c.participants && v == View(c, caller)
  {
    var sorted := ConversationOrder(cs, caller);
    ViewsMembers(sorted, caller);
    Views(sorted, caller)
  }

  /** In a well-formed store every listed conversation names the other user. */
  lemma ListedOtherIsSomeoneElse(cs: seq<Conversation>, caller: Id)
    requires ConversationsWellFormed(cs)
    ensures forall v :: v in GetConversations(cs, caller) ==> v.otherParticipant.Some? && v.otherParticipant.value != caller
  {
    forall v | v in GetConversations(cs, caller)
      ensures v.otherParticipant.Some? && v.otherParticipant.value != caller
    {
      var c :| c in cs && caller in c.participants && v == View(c, caller);
      var i :| 0 <= i < |cs| && cs[i] == c;
      assert c.participants[0] != c.participants[1];
    }
  }

  // ---------------------------------------------------------------------
  // getMessages

  /** Conversation `id`, if the caller takes part in it. */
  function FindConversationFor(cs: seq<Conversation>, id: Id, caller: Id): (r: Option<nat>)
    ensures r.Some? ==> r.value < |cs| && cs[r.value].id == id && caller in cs[r.value].participants
    ensures r.None? <==> forall i :: 0 <= i < |cs| ==> !(cs[i].id == id && caller in cs[i].participants)
  {
    Seqs.FindFirst(cs, (c: Conversation) => c.id == id && caller in c.participants)
  }

  function MessagesIn(ms: seq<Message>, conv: Id): (r: seq<Message>)
    ensures forall m :: m in r <==> m in ms && m.conversation == conv
  {
    Seqs.Filter(ms, (m: Message) => m.conversation == conv)
  }

  /** The messages of a conversation, oldest first. */
  function Thread(ms: seq<Message>, conv: Id): (r: seq<Message>)
    ensures forall i, j :: 0 <= i < j < |r| ==> r[i].createdAt <= r[j].createdAt
    ensures forall m :: m in r <==> m in ms && m.conversation == conv
    ensures multiset(r) == multiset(MessagesIn(ms, conv))
  {
    var mine := MessagesIn(ms, conv);
    Seqs.SortDescMembers(mine, MessageAge);
    var r := Seqs.SortDesc(mine, MessageAge);
    assert forall i, j :: 0 <= i < j < |r| ==> MessageAge(r[i]) >= MessageAge(r[j]);
    r
  }

  /** What the bulk update does to one message: a message of the conversation
      that someone else sent and that is unread becomes read. */
  function ReadBy(m: Message, conv: Id, caller: Id): Message
  {
    if m.conversation == conv && m.sender != caller && !m.read then m.(read := true) else m
  }

  /** The bulk update over the whole collection. */
  function MarkRead(ms: seq<Message>, conv: Id, caller: Id): (r: seq<Message>)
    ensures |r| == |ms|
    ensures forall i :: 0 <= i < |ms| ==>
      && r[i].id == ms[i].id && r[i].conversation == ms[i].conversation
      && r[i].sender == ms[i].sender && r[i].content == ms[i].content && r[i].createdAt == ms[i].createdAt
      && (ms[i].conversation == conv && ms[i].sender != caller ==> r[i].read)
      && (ms[i].conversation != conv || ms[i].sender == caller ==> r[i] == ms[i])
  {
    seq(|ms|, i requires 0 <= i < |ms| => ReadBy(ms[i], conv, caller))
  }

  /** Reading a thread twice marks nothing the first read did not. */
  lemma MarkReadIdempotent(ms: seq<Message>, conv: Id, caller: Id)
    ensures MarkRead(MarkRead(ms, conv, caller), conv, caller) == MarkRead(ms, conv, caller)
  {
  }

  /** Same identifiers and conversations, position by position. */
  ghost predicate SameKeys(ms: seq<Message>, ms': seq<Message>)
  {
    && |ms'| == |ms|
    && forall i :: 0 <= i < |ms| ==> ms'[i].id == ms[i].id && ms'[i].conversation == ms[i].conversation
  }

  lemma {:induction false} SameKeysKeepPointers(cs: seq<Conversation>, ms: seq<Message>, ms': seq<Message>, bound: nat)
    requires SameKeys(ms, ms') && PointersSound(cs, ms) && FreshIds(ms, MessageIdOf, bound)
    requires MessagesRefIssued(ms, bound)
    ensures PointersSound(cs, ms') && FreshIds(ms', MessageIdOf, bound) && MessagesRefIssued(ms', bound)
  {
    forall i | 0 <= i < |cs| ensures PointerSound(cs[i], ms') {
      match cs[i].lastMessage
      case None =>
      case Some(p) =>
        var k :| 0 <= k < |ms| && ms[k].id == p && ms[k].conversation == cs[i].id;
        assert ms'[k].id == p && ms'[k].conversation == cs[i].id;
    }
    assert forall i :: 0 <= i < |ms'| ==> MessageIdOf(ms'[i]) == MessageIdOf(ms[i]);
  }

  /** NotFound unless the caller takes part in the conversation. Otherwise the
      reply is its messages oldest first, as they were before the call, and
      the other party's messages in it become read. */
  method GetMessages(db: Db, caller: Id, conv: Id) returns (r: Outcome, thread: seq<Message>)
    requires db.Valid()
    modifies db`messages
    ensures db.Valid()
    ensures FindConversationFor(db.conversations, conv, caller).None? ==>
      r == NotFound && thread == [] && db.messages == old(db.messages)
    ensures FindConversationFor(db.conversations, conv, caller).Some? ==>
      && r == Ok
      && thread == Thread(old(db.messages), conv)
      && db.messages == MarkRead(old(db.messages), conv, caller)
  {
    if FindConversationFor(db.conversations, conv, caller).None? {
      return NotFound, [];
    }
    var ms := db.messages;
    thread := Thread(ms, conv);
    var out := MarkRead(ms, conv, caller);
    SameKeysKeepPointers(db.conversations, ms, out, db.nextId);
    db.messages := out;
    r := Ok;
  }

  // ---------------------------------------------------------------------
  // sendMessage

  /** The first conversation that has both `a` and `b` among its participants. */
  function FindConversationBetween(cs: seq<Conversation>, a: Id, b: Id): (r: Option<nat>)
    ensures r.Some? ==> r.value < |cs| && Between(cs[r.value], a, b)
    ensures r.None? <==> forall i :: 0 <= i < |cs| ==> !Between(cs[i], a, b)
  {
    Seqs.FindFirst(cs, (c: Conversation) => Between(c, a, b))
  }

  /** Pointing conversation k at a new message of its own keeps every pointer sound. */
  lemma {:induction false} PointAtNewMessage(cs: seq<Conversation>, ms: seq<Message>, k: nat, m: Message, now: Time, bound: nat)
    requires PointersSound(cs, ms) && FreshIds(cs, ConversationIdOf, bound)
    requires k < |cs| && m.conversation == cs[k].id
    ensures PointersSound(cs[k := cs[k].(lastMessage := Some(m.id), updatedAt := now)], ms + [m])
  {
    var cs' := cs[k := cs[k].(lastMessage := Some(m.id), updatedAt := now)];
    var ms' := ms + [m];
    forall i | 0 <= i < |cs'| ensures PointerSound(cs'[i], ms') {
      if i == k {
        assert ms'[|ms|] == m;
      } else {
        assert ConversationIdOf(cs[i]) != ConversationIdOf(cs[k]);
        match cs[i].lastMessage
        case None =>
        case Some(p) =>
          var t :| 0 <= t < |ms| && ms[t].id == p && ms[t].conversation == cs[i].id;
          assert ms'[t] == ms[t];
      }
    }
  }

  /** Two different users who both take part in a two-person conversation
      are its two participants: a conversation `d` between them is also
      between those two. */
  lemma PairDetermined(c: Conversation, d: Conversation, a: Id, b: Id)
    requires |c.participants| == 2 && a != b && Between(d, a, b)
    requires !Between(d, c.participants[0], c.participants[1])
    ensures !Between(c, a, b)
  {
  }

  /** A new conversation between two users who had none, holding one new
      message, keeps both the pair rule and every pointer sound. */
  lemma {:induction false} OpenConversation(cs: seq<Conversation>, ms: seq<Message>, c: Conversation, m: Message)
    requires ConversationsWellFormed(cs) && PointersSound(cs, ms)
    requires |c.participants| == 2 && c.participants[0] != c.participants[1]
    requires forall i :: 0 <= i < |cs| ==> !Between(cs[i], c.participants[0], c.participants[1])
    requires forall i :: 0 <= i < |cs| ==> cs[i].id != c.id
    requires forall i :: 0 <= i < |ms| ==> ms[i].conversation != c.id
    requires c.lastMessage == Some(m.id) && m.conversation == c.id
    ensures ConversationsWellFormed(cs + [c]) && PointersSound(cs + [c], ms + [m])
  {
    var cs', ms' := cs + [c], ms + [m];
    forall i, j, a, b | 0 <= i < j < |cs'| && a != b && Between(cs'[i], a, b) ensures !Between(cs'[j], a, b) {
      if j == |cs| {
        PairDetermined(c, cs[i], a, b);
      }
    }
    forall i | 0 <= i < |cs'| ensures PointerSound(cs'[i], ms') {
      if i == |cs| {
        assert ms'[|ms|] == m;
      } else {
        assert cs'[i] == cs[i];
        match cs[i].lastMessage
        case None =>
        case Some(p) =>
          var t :| 0 <= t < |ms| && ms[t].id == p && ms[t].conversation == cs[i].id;
          assert ms'[t] == ms[t];
      }
    }
  }

  /** BadRequest for oneself, NotFound for an unknown receiver; otherwise the
      message goes into the pair's conversation, created as [caller, receiver]
      when there is none, and becomes its last message. */
  method SendMessage(db: Db, caller: Id, receiver: Id, content: string, now: Time) returns (r: Outcome)
    requires db.Valid()
    modifies db`conversations, db`messages, db`nextId
    ensures db.Valid()
    ensures receiver == caller ==> r == BadRequest
    ensures receiver != caller && !UserExists(db.users, receiver) ==> r == NotFound
    ensures r == Ok <==> receiver != caller && UserExists(db.users, receiver)
    ensures r != Ok ==>
      db.conversations == old(db.conversations) && db.messages == old(db.messages) && db.nextId == old(db.nextId)
    ensures r == Ok ==>
      var k := FindConversationBetween(old(db.conversations), caller, receiver);
      && (k.Some? ==>
            var c := old(db.conversations)[k.value];
            && db.messages == old(db.messages) + [Message(old(db.nextId), c.id, caller, content, false, now)]
            && db.conversations == old(db.conversations)[k.value := c.(lastMessage := Some(old(db.nextId)), updatedAt := now)]
            && db.nextId == old(db.nextId) + 1)
      && (k.None? ==>
            var cid := old(db.nextId);
            && db.conversations == old(db.conversations) + [Conversation(cid, [caller, receiver], Some(cid + 1), now)]
            && db.messages == old(db.messages) + [Message(cid + 1, cid, caller, content, false, now)]
            && db.nextId == old(db.nextId) + 2)
  {
    if receiver == caller {
      return BadRequest;
    }
    if FindUser(db.users, receiver).None? {
      return NotFound;
    }
    var k := FindConversationBetween(db.conversations, caller, receiver);
    if k.Some? {
      PostInto(db, k.value, caller, content, now);
    } else {
      OpenAndPost(db, caller, receiver, content, now);
    }
    r := Ok;
  }

  /** The send into an existing conversation k. */
  /** A new message in conversation k, which becomes its last message, keeps
      every fact the store holds about conversations and messages. */
  lemma PostIntoKeepsFacts(cs: seq<Conversation>, ms: seq<Message>, k: nat, m: Message, now: Time, bound: nat)
    requires ConversationsWellFormed(cs) && PointersSound(cs, ms) && MessagesRefIssued(ms, bound)
    requires FreshIds(cs, ConversationIdOf, bound) && FreshIds(ms, MessageIdOf, bound)
    requires k < |cs| && m.conversation == cs[k].id && m.id == bound
    ensures var cs' := cs[k := cs[k].(lastMessage := Some(m.id), updatedAt := now)];
      && ConversationsWellFormed(cs') && PointersSound(cs', ms + [m])
      && FreshIds(cs', ConversationIdOf, bound + 1) && FreshIds(ms + [m], MessageIdOf, bound + 1)
      && MessagesRefIssued(ms + [m], bound + 1)
  {
    var c' := cs[k].(lastMessage := Some(m.id), updatedAt := now);
    PointAtNewMessage(cs, ms, k, m, now, bound);
    FreshIdsAppend(ms, MessageIdOf, bound, m);
    FreshIdsReplace(cs, ConversationIdOf, bound, k, c');
    FreshIdsGrow(cs[k := c'], ConversationIdOf, bound, bound + 1);
    assert forall i :: 0 <= i < |cs| ==> cs[k := c'][i].participants == cs[i].participants;
    assert cs[k].id < bound;
  }

  method PostInto(db: Db, k: nat, caller: Id, content: string, now: Time)
    requires db.Valid() && k < |db.conversations|
    modifies db`conversations, db`messages, db`nextId
    ensures db.Valid()
    ensures var c := old(db.conversations)[k];
      && db.messages == old(db.messages) + [Message(old(db.nextId), c.id, caller, content, false, now)]
      && db.conversations == old(db.conversations)[k := c.(lastMessage := Some(old(db.nextId)), updatedAt := now)]
      && db.nextId == old(db.nextId) + 1
  {
    var cs, ms := db.conversations, db.messages;
    var c := cs[k];
    var m := Message(db.nextId, c.id, caller, content, false, now);
    PostIntoKeepsFacts(cs, ms, k, m, now, db.nextId);
    var mid := db.NewId();
    db.conversations := cs[k := c.(lastMessage := Some(mid), updatedAt := now)];
    db.messages := ms + [m];
  }

  /** The first send between two users: a new conversation [caller, receiver]
      holding the new message. */
  method OpenAndPost(db: Db, caller: Id, receiver: Id, content: string, now: Time)
    requires db.Valid() && caller != receiver
    requires FindConversationBetween(db.conversations, caller, receiver).None?
    modifies db`conversations, db`messages, db`nextId
    ensures db.Valid()
    ensures var cid := old(db.nextId);
      && db.conversations == old(db.conversations) + [Conversation(cid, [caller, receiver], Some(cid + 1), now)]
      && db.messages == old(db.messages) + [Message(cid + 1, cid, caller, content, false, now)]
      && db.nextId == old(db.nextId) + 2
  {
    var cs, ms := db.conversations, db.messages;
    var cid := db.NewId();
    var mid := db.NewId();
    var c := Conversation(cid, [caller, receiver], Some(mid), now);
    var m := Message(mid, cid, caller, content, false, now);
    OpenKeepsValid(cs, ms, c, m, cid);
    db.conversations := cs + [c];
    db.messages := ms + [m];
  }

  /** The facts a valid store keeps about conversations and messages, for
      the new conversation with identifier `cid` and its first message `cid + 1`. */
  lemma {:induction false} OpenKeepsValid(cs: seq<Conversation>, ms: seq<Message>, c: Conversation, m: Message, cid: nat)
    requires FreshIds(cs, ConversationIdOf, cid) && FreshIds(ms, MessageIdOf, cid)
    requires ConversationsWellFormed(cs) && PointersSound(cs, ms) && MessagesRefIssued(ms, cid)
    requires |c.participants| == 2 && c.participants[0] != c.participants[1]
    requires FindConversationBetween(cs, c.participants[0], c.participants[1]).None?
    requires c.id == cid && c.lastMessage == Some(cid + 1) && m.id == cid + 1 && m.conversation == cid
    ensures FreshIds(cs + [c], ConversationIdOf, cid + 2) && FreshIds(ms + [m], MessageIdOf, cid + 2)
    ensures ConversationsWellFormed(cs + [c]) && PointersSound(cs + [c], ms + [m])
    ensures MessagesRefIssued(ms + [m], cid + 2)
  {
    OpenConversation(cs, ms, c, m);
    FreshIdsAppend(cs, ConversationIdOf, cid, c);
    FreshIdsGrow(cs + [c], ConversationIdOf, cid + 1, cid + 2);
    FreshIdsGrow(ms, MessageIdOf, cid, cid + 1);
    FreshIdsAppend(ms, MessageIdOf, cid + 1, m);
  }

  /** The pair rule of a valid store means repeated sends between two users
      keep using one conversation: after any send, the pair has exactly one. */
  lemma OneConversationPerPair(cs: seq<Conversation>, a: Id, b: Id, i: nat, j: nat)
    requires ConversationsWellFormed(cs) && a != b
    requires i < |cs| && j < |cs| && Between(cs[i], a, b) && Between(cs[j], a, b)
    ensures i == j
  {
  }

  // ---------------------------------------------------------------------
  // deleteMessage

  /** The position of a newest message of the conversation (the first such
      in storage order when several share the newest time). */
  function Newest(ms: seq<Message>, conv: Id): (k: Option<nat>)
    ensures k.None? <==> forall j :: 0 <= j < |ms| ==> ms[j].conversation != conv
    ensures k.Some? ==>
      && k.value < |ms| && ms[k.value].conversation == conv
      && forall j :: 0 <= j < |ms| && ms[j].conversation == conv ==> ms[j].createdAt <= ms[k.value].createdAt
  {
    if ms == [] then None
    else
      var rest := Newest(ms[1..], conv);
      if ms[0].conversation != conv then
        (if rest.None? then None else Some(rest.value + 1))
      else if rest.Some? && ms[rest.value + 1].createdAt > ms[0].createdAt then Some(rest.value + 1)
      else Some(0)
  }

  /** The identifier of the newest message of a conversation, if it has any. */
  function NewestId(ms: seq<Message>, conv: Id): (r: Option<Id>)
    ensures r.None? <==> forall j :: 0 <= j < |ms| ==> ms[j].conversation != conv
    ensures r.Some? ==> exists j :: 0 <= j < |ms| && ms[j].id == r.value && ms[j].conversation == conv
  {
    match Newest(ms, conv)
    case None => None
    case Some(k) => Some(ms[k].id)
  }

  /** The position of the conversation with identifier `id`, if any. */
  function FindConversation(cs: seq<Conversation>, id: Id): (r: Option<nat>)
    ensures r.Some? ==> r.value < |cs| && cs[r.value].id == id
    ensures r.None? <==> forall i :: 0 <= i < |cs| ==> cs[i].id != id
  {
    Seqs.FindFirst(cs, (c: Conversation) => c.id == id)
  }

  /** The position of the message with identifier `id`, if any. */
  function FindMessage(ms: seq<Message>, id: Id): (r: Option<nat>)
    ensures r.Some? ==> r.value < |ms| && ms[r.value].id == id
    ensures r.None? <==> forall i :: 0 <= i < |ms| ==> ms[i].id != id
  {
    Seqs.FindFirst(ms, (m: Message) => m.id == id)
  }

  /** The conversations after message `id` of conversation `conv` is gone
      from `ms`: if the pointer named it, it moves to the newest remaining
      message or is cleared; any other pointer stays. An unset pointer counts
      as naming another message. */
  function Repointed(cs: seq<Conversation>, ms: seq<Message>, conv: Id, id: Id): (r: seq<Conversation>)
    requires forall i, j :: 0 <= i < j < |cs| ==> cs[i].id != cs[j].id
    ensures |r| == |cs|
    ensures forall i :: 0 <= i < |cs| ==>
      && r[i].id == cs[i].id && r[i].participants == cs[i].participants && r[i].updatedAt == cs[i].updatedAt
      && (cs[i].id == conv && cs[i].lastMessage == Some(id) ==> r[i].lastMessage == NewestId(ms, conv))
      && (cs[i].id != conv || cs[i].lastMessage != Some(id) ==> r[i].lastMessage == cs[i].lastMessage)
  {
    match FindConversation(cs, conv)
    case None => cs
    case Some(j) =>
      if cs[j].lastMessage == Some(id) then cs[j := cs[j].(lastMessage := NewestId(ms, conv))]
      else cs
  }

  /** In a valid store a conversation that holds a message has its pointer
      set, so the handler never reads an unset pointer. */
  lemma PointerSetWhileMessagesRemain(cs: seq<Conversation>, ms: seq<Message>, i: nat, k: nat)
    requires PointersSound(cs, ms) && i < |cs| && k < |ms| && ms[k].conversation == cs[i].id
    ensures cs[i].lastMessage.Some?
  {
    assert PointerSound(cs[i], ms);
  }

  /** Removing message k and repointing its conversation keeps every pointer sound. */
  lemma {:induction false} RemoveMessageKeepsPointers(cs: seq<Conversation>, ms: seq<Message>, k: nat, bound: nat)
    requires PointersSound(cs, ms) && FreshIds(cs, ConversationIdOf, bound) && FreshIds(ms, MessageIdOf, bound)
    requires k < |ms|
    ensures var ms' := ms[..k] + ms[k + 1..];
      PointersSound(Repointed(cs, ms', ms[k].conversation, ms[k].id), ms')
  {
    var ms' := ms[..k] + ms[k + 1..];
    var conv, id := ms[k].conversation, ms[k].id;
    var cs' := Repointed(cs, ms', conv, id);
    forall t | 0 <= t < |ms'| ensures ms'[t] == ms[if t < k then t else t + 1] {
    }
    forall i | 0 <= i < |cs'| ensures PointerSound(cs'[i], ms') {
      RemoveMessageKeepsPointerAt(cs, ms, k, i);
    }
  }

  /** The same, for the conversation at position i. */
  lemma {:induction false} RemoveMessageKeepsPointerAt(cs: seq<Conversation>, ms: seq<Message>, k: nat, i: nat)
    requires PointersSound(cs, ms) && (forall a, b :: 0 <= a < b < |ms| ==> ms[a].id != ms[b].id)
    requires forall a, b :: 0 <= a < b < |cs| ==> cs[a].id != cs[b].id
    requires k < |ms| && i < |cs|
    ensures var ms' := ms[..k] + ms[k + 1..];
      PointerSound(Repointed(cs, ms', ms[k].conversation, ms[k].id)[i], ms')
  {
    var ms' := ms[..k] + ms[k + 1..];
    var conv, id := ms[k].conversation, ms[k].id;
    var cs' := Repointed(cs, ms', conv, id);
    if cs[i].id == conv && cs[i].lastMessage == Some(id) {
    } else {
      assert PointerSound(cs[i], ms);
      match cs[i].lastMessage
      case None =>
        forall t | 0 <= t < |ms'| ensures ms'[t].conversation != cs[i].id {
          assert ms'[t] == ms[if t < k then t else t + 1];
        }
      case Some(p) =>
        var t :| 0 <= t < |ms| && ms[t].id == p && ms[t].conversation == cs[i].id;
        assert t != k;
        var t' := if t < k then t else t - 1;
        assert ms'[t'] == ms[t];
    }
  }

  /** After a deletion no pointer names the deleted message. */
  lemma NoPointerToDeleted(cs: seq<Conversation>, ms: seq<Message>, id: Id)
    requires PointersSound(cs, ms) && forall t :: 0 <= t < |ms| ==> ms[t].id != id
    ensures forall i :: 0 <= i < |cs| ==> cs[i].lastMessage != Some(id)
  {
    forall i | 0 <= i < |cs| ensures cs[i].lastMessage != Some(id) {
      assert PointerSound(cs[i], ms);
    }
  }

  /** Everything a valid store says about conversations and messages still
      holds after message k is removed and its conversation repointed, and no
      pointer names the removed message. */
  lemma {:induction false} DeleteKeepsConversations(cs: seq<Conversation>, ms: seq<Message>, k: nat, conv: Id, id: Id, bound: nat)
    requires FreshIds(cs, ConversationIdOf, bound) && FreshIds(ms, MessageIdOf, bound)
    requires ConversationsWellFormed(cs) && PointersSound(cs, ms) && MessagesRefIssued(ms, bound)
    requires k < |ms| && ms[k].id == id && ms[k].conversation == conv
    ensures var ms' := ms[..k] + ms[k + 1..];
      var cs' := Repointed(cs, ms', conv, id);
      && FreshIds(cs', ConversationIdOf, bound) && FreshIds(ms', MessageIdOf, bound)
      && ConversationsWellFormed(cs') && PointersSound(cs', ms') && MessagesRefIssued(ms', bound)
      && forall i :: 0 <= i < |cs'| ==> cs'[i].lastMessage != Some(id)
  {
    var ms' := ms[..k] + ms[k + 1..];
    var cs' := Repointed(cs, ms', conv, id);
    RemoveMessageKeepsPointers(cs, ms, k, bound);
    RepointedKeepsShape(cs, ms', conv, id, bound);
    RemoveMessageFacts(ms, k, bound);
    NoPointerToDeleted(cs', ms', id);
  }

  /** Repointing changes no identifier and no participant list. */
  lemma RepointedKeepsShape(cs: seq<Conversation>, ms: seq<Message>, conv: Id, id: Id, bound: nat)
    requires FreshIds(cs, ConversationIdOf, bound) && ConversationsWellFormed(cs)
    ensures var cs' := Repointed(cs, ms, conv, id);
      FreshIds(cs', ConversationIdOf, bound) && ConversationsWellFormed(cs')
  {
    var cs' := Repointed(cs, ms, conv, id);
    forall i | 0 <= i < |cs'| ensures cs'[i].participants == cs[i].participants && ConversationIdOf(cs'[i]) == ConversationIdOf(cs[i]) {
    }
    forall i, j, a, b | 0 <= i < j < |cs'| && a != b && Between(cs'[i], a, b) ensures !Between(cs'[j], a, b) {
      assert Between(cs[i], a, b);
    }
  }

  /** The messages left after removing message k keep distinct identifiers,
      refer to issued conversations and no longer hold the removed identifier. */
  lemma {:induction false} RemoveMessageFacts(ms: seq<Message>, k: nat, bound: nat)
    requires FreshIds(ms, MessageIdOf, bound) && MessagesRefIssued(ms, bound) && k < |ms|
    ensures var ms' := ms[..k] + ms[k + 1..];
      && FreshIds(ms', MessageIdOf, bound) && MessagesRefIssued(ms', bound)
      && forall t :: 0 <= t < |ms'| ==> ms'[t].id != ms[k].id
  {
    var ms' := ms[..k] + ms[k + 1..];
    FreshIdsRemove(ms, MessageIdOf, bound, k);
    forall t | 0 <= t < |ms'| ensures ms'[t].id != ms[k].id && ms'[t].conversation < bound {
      var t' := if t < k then t else t + 1;
      assert ms'[t] == ms[t'];
      assert MessageIdOf(ms[t']) != MessageIdOf(ms[k]);
    }
  }

  /** NotFound for a missing message, Unauthorized for anyone but its sender;
      otherwise the message is removed and its conversation repointed. */
  method DeleteMessage(db: Db, caller: Id, id: Id) returns (r: Outcome)
    requires db.Valid()
    modifies db`messages, db`conversations
    ensures db.Valid()
    ensures var k := FindMessage(old(db.messages), id);
      && (k.None? ==> r == NotFound)
      && (k.Some? && old(db.messages)[k.value].sender != caller ==> r == Unauthorized)
      && (k.Some? && old(db.messages)[k.value].sender == caller ==>
            && r == Ok
            && db.messages == old(db.messages)[..k.value] + old(db.messages)[k.value + 1..]
            && db.conversations == Repointed(old(db.conversations), db.messages, old(db.messages)[k.value].conversation, id))
      && (r != Ok ==> db.messages == old(db.messages) && db.conversations == old(db.conversations))
    ensures r == Ok ==> forall i :: 0 <= i < |db.conversations| ==> db.conversations[i].lastMessage != Some(id)
  {
    var k := FindMessage(db.messages, id);
    if k.None? {
      return NotFound;
    }
    var m := db.messages[k.value];
    if m.sender != caller {
      return Unauthorized;
    }
    var cs, ms, i := db.conversations, db.messages, k.value;
    DeleteKeepsConversations(cs, ms, i, m.conversation, id, db.nextId);
    var ms' := ms[..i] + ms[i + 1..];
    db.conversations, db.messages := Repointed(cs, ms', m.conversation, id), ms';
    r := Ok;
  }
}
