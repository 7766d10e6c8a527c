/** The document store the controllers read and write, held in memory: one
    sequence per collection, in storage order, and a counter from which new
    documents take their identifiers. `Valid` is the set of facts every
    handler keeps. */
module Store {
  import opened Common
  import opened PostModel
  import opened JobModel
  import opened Records
  import Seqs

  // ---------------------------------------------------------------------
  // Identifiers: below the counter, and distinct within a collection.

  ghost predicate FreshIds<T>(s: seq<T>, id: T -> Id, bound: nat)
  {
    && (forall i :: 0 <= i < |s| ==> id(s[i]) < bound)
    && (forall i, j :: 0 <= i < j < |s| ==> id(s[i]) != id(s[j]))
  }

  lemma FreshIdsAppend<T>(s: seq<T>, id: T -> Id, bound: nat, x: T)
    requires FreshIds(s, id, bound) && id(x) == bound
    ensures FreshIds(s + [x], id, bound + 1)
  {
  }

  lemma FreshIdsGrow<T>(s: seq<T>, id: T -> Id, bound: nat, bound': nat)
    requires FreshIds(s, id, bound) && bound <= bound'
    ensures FreshIds(s, id, bound')
  {
  }

  lemma FreshIdsReplace<T>(s: seq<T>, id: T -> Id, bound: nat, k: nat, x: T)
    requires FreshIds(s, id, bound) && k < |s| && id(x) == id(s[k])
    ensures FreshIds(s[k := x], id, bound)
  {
  }

  lemma {:induction false} FreshIdsRemove<T>(s: seq<T>, id: T -> Id, bound: nat, k: nat)
    requires FreshIds(s, id, bound) && k < |s|
    ensures FreshIds(s[..k] + s[k + 1..], id, bound)
  {
    var r := s[..k] + s[k + 1..];
    forall i, j | 0 <= i < j < |r| ensures id(r[i]) != id(r[j]) {
      var i' := if i < k then i else i + 1;
      var j' := if j < k then j else j + 1;
      assert r[i] == s[i'] && r[j] == s[j'];
    }
  }

  /** With distinct identifiers, an identifier names at most one position. */
  lemma FreshIdsUnique<T>(s: seq<T>, id: T -> Id, bound: nat, i: nat, j: nat)
    requires FreshIds(s, id, bound) && i < |s| && j < |s| && id(s[i]) == id(s[j])
    ensures i == j
  {
  }

  // ---------------------------------------------------------------------
  // The facts about the data that the handlers keep.

  /** No user is connected to themself: both ways of creating a record refuse it. */
  ghost predicate NoSelfConnections(cs: seq<Connection>)
  {
    forall i :: 0 <= i < |cs| ==> cs[i].requester != cs[i].recipient
  }

  /** Both users are among the conversation's participants. */
  predicate Between(c: Conversation, a: Id, b: Id)
  {
    a in c.participants && b in c.participants
  }

  /** Every conversation is between two different users, and no two
      conversations are between the same two users. */
  ghost predicate ConversationsWellFormed(cs: seq<Conversation>)
  {
    && (forall i :: 0 <= i < |cs| ==>
          |cs[i].participants| == 2 && cs[i].participants[0] != cs[i].participants[1])
    && (forall i, j, a, b :: 0 <= i < j < |cs| && a != b && Between(cs[i], a, b) ==> !Between(cs[j], a, b))
  }

  /** A conversation's last-message pointer names a message of that
      conversation, and it is unset only when the conversation has none. */
  ghost predicate PointerSound(c: Conversation, ms: seq<Message>)
  {
    match c.lastMessage
    case None => forall k :: 0 <= k < |ms| ==> ms[k].conversation != c.id
    case Some(m) => exists k :: 0 <= k < |ms| && ms[k].id == m && ms[k].conversation == c.id
  }

  ghost predicate PointersSound(cs: seq<Conversation>, ms: seq<Message>)
  {
    forall i :: 0 <= i < |cs| ==> PointerSound(cs[i], ms)
  }

  /** `post.comments` agrees with the comment documents: every comment of a
      stored post is listed in it, and it lists only comments of that post. */
  ghost predicate CommentsInSync(ps: seq<Post>, cs: seq<Comment>)
  {
    && (forall j, k :: 0 <= j < |ps| && 0 <= k < |cs| && cs[k].post == ps[j].id ==> cs[k].id in ps[j].comments)
    && (forall j, c :: 0 <= j < |ps| && c in ps[j].comments ==> CommentOf(cs, c, ps[j].id))
  }

  ghost predicate CommentOf(cs: seq<Comment>, c: Id, post: Id)
  {
    exists k :: 0 <= k < |cs| && cs[k].id == c && cs[k].post == post
  }

  /** No user appears twice among a job's applicants. */
  ghost predicate ApplicantsUnique(xs: seq<Applicant>)
  {
    forall a, b :: 0 <= a < b < |xs| ==> xs[a].user != xs[b].user
  }

  ghost predicate AllApplicantsUnique(js: seq<Job>)
  {
    forall j :: 0 <= j < |js| ==> ApplicantsUnique(js[j].applicants)
  }

  /** Comments and messages only refer to documents that were created
      before them, so a newly created post or conversation starts with none. */
  ghost predicate CommentsRefIssued(cs: seq<Comment>, bound: nat)
  {
    forall k :: 0 <= k < |cs| ==> cs[k].post < bound
  }

  ghost predicate MessagesRefIssued(ms: seq<Message>, bound: nat)
  {
    forall k :: 0 <= k < |ms| ==> ms[k].conversation < bound
  }

  /** A user has at most one profile. */
  ghost predicate OneProfilePerUser(ps: seq<Profile>)
  {
    forall i, j :: 0 <= i < j < |ps| ==> ps[i].user != ps[j].user
  }

  class Db {
    var users: seq<User>
    var profiles: seq<Profile>
    var connections: seq<Connection>
    var posts: seq<Post>
    var comments: seq<Comment>
    var conversations: seq<Conversation>
    var messages: seq<Message>
    var jobs: seq<Job>
    /** The identifier the next created document receives. */
    var nextId: nat

    ghost predicate Valid()
      reads this
    {
      && FreshIds(users, UserIdOf, nextId)
      && FreshIds(profiles, ProfileIdOf, nextId)
      && FreshIds(connections, ConnectionIdOf, nextId)
      && FreshIds(posts, PostIdOf, nextId)
      && FreshIds(comments, CommentIdOf, nextId)
      && FreshIds(conversations, ConversationIdOf, nextId)
      && FreshIds(messages, MessageIdOf, nextId)
      && FreshIds(jobs, JobIdOf, nextId)
      && NoSelfConnections(connections)
      && ConversationsWellFormed(conversations)
      && PointersSound(conversations, messages)
      && CommentsInSync(posts, comments)
      && AllApplicantsUnique(jobs)
      && OneProfilePerUser(profiles)
      && CommentsRefIssued(comments, nextId)
      && MessagesRefIssued(messages, nextId)
    }

    /** A store holding only the given users, as after registration. */
    constructor (us: seq<User>, next: nat)
      requires FreshIds(us, UserIdOf, next)
      ensures Valid()
      ensures users == us && nextId == next
      ensures profiles == [] && connections == [] && posts == [] && comments == []
      ensures conversations == [] && messages == [] && jobs == []
    {
      users, nextId := us, next;
      profiles, connections, posts, comments := [], [], [], [];
      conversations, messages, jobs := [], [], [];
    }

    /** Takes a fresh identifier: every collection's identifiers stay below the counter. */
    method NewId() returns (id: Id)
      requires Valid()
      modifies this`nextId
      ensures id == old(nextId) && nextId == id + 1
      ensures Valid()
    {
      id := nextId;
      nextId := nextId + 1;
      FreshIdsGrow(users, UserIdOf, id, nextId);
      FreshIdsGrow(profiles, ProfileIdOf, id, nextId);
      FreshIdsGrow(connections, ConnectionIdOf, id, nextId);
      FreshIdsGrow(posts, PostIdOf, id, nextId);
      FreshIdsGrow(comments, CommentIdOf, id, nextId);
      FreshIdsGrow(conversations, ConversationIdOf, id, nextId);
      FreshIdsGrow(messages, MessageIdOf, id, nextId);
      FreshIdsGrow(jobs, JobIdOf, id, nextId);
    }
  }

  /** The position of the user with identifier `id`, if any. */
  function FindUser(us: seq<User>, id: Id): (r: Option<nat>)
    ensures r.Some? ==> r.value < |us| && us[r.value].id == id
    ensures r.None? <==> forall i :: 0 <= i < |us| ==> us[i].id != id
  {
    Seqs.FindFirst(us, (u: User) => u.id == id)
  }

  predicate UserExists(us: seq<User>, id: Id)
  {
    FindUser(us, id).Some?
  }

  /** The position of the post with identifier `id`, if any. */
  function FindPost(ps: seq<Post>, id: Id): (r: Option<nat>)
    ensures r.Some? ==> r.value < |ps| && ps[r.value].id == id
    ensures r.None? <==> forall i :: 0 <= i < |ps| ==> ps[i].id != id
  {
    Seqs.FindFirst(ps, (p: Post) => p.id == id)
  }
}
