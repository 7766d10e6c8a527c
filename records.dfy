/** The documents whose schemas are not part of this model (User, Profile,
    Connection, Comment, Conversation, Message), with the fields the
    controllers read and write. */
module Records {
  import opened Common

  datatype User = User(id: Id, firstName: string, lastName: string, email: string, headline: string)

  /** The fields a request body may change on a user. */
  datatype UserPatch = UserPatch(
    firstName: Option<string>, lastName: Option<string>, email: Option<string>, headline: Option<string>)

  /** A profile: its owner and its top-level fields, each an opaque value. */
  datatype Profile = Profile(id: Id, user: Id, fields: map<string, string>)

  datatype ConnectionStatus = Pending | Accepted | Rejected

  /** A directed connection record between two users. */
  datatype Connection = Connection(
    id: Id, requester: Id, recipient: Id, status: ConnectionStatus, createdAt: Time)

  datatype Comment = Comment(id: Id, post: Id, user: Id, text: string, createdAt: Time)

  datatype Conversation = Conversation(
    id: Id, participants: seq<Id>, lastMessage: Option<Id>, updatedAt: Time)

  datatype Message = Message(
    id: Id, conversation: Id, sender: Id, content: string, read: bool, createdAt: Time)

  function UserIdOf(u: User): Id { u.id }
  function ProfileIdOf(p: Profile): Id { p.id }
  function ConnectionIdOf(c: Connection): Id { c.id }
  function CommentIdOf(c: Comment): Id { c.id }
  function CommentCreatedAt(c: Comment): int { c.createdAt }
  function ConversationIdOf(c: Conversation): Id { c.id }
  function ConversationUpdatedAt(c: Conversation): int { c.updatedAt }
  function MessageIdOf(m: Message): Id { m.id }
  function MessageCreatedAt(m: Message): int { m.createdAt }
  /** The key that orders messages oldest first under a newest-first sort. */
  function MessageAge(m: Message): int { -m.createdAt }
}
