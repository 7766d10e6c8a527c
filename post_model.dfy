/** The Post document (models/Post.js): its fields, the privacy enumeration
    and the defaults the schema fills in on creation. */
module PostModel {
  import opened Common

  datatype Privacy = Public | Connections | Private

  /** The strings the schema's enum accepts for `privacy`. */
  function PrivacyName(p: Privacy): string
  {
    match p
    case Public => "public"
    case Connections => "connections"
    case Private => "private"
  }

  function ParsePrivacy(s: string): (r: Option<Privacy>)
    ensures r.Some? ==> PrivacyName(r.value) == s
    ensures r.None? ==> forall p: Privacy :: PrivacyName(p) != s
  {
    if s == "public" then Some(Public)
    else if s == "connections" then Some(Connections)
    else if s == "private" then Some(Private)
    else None
  }

  lemma PrivacyRoundTrip(p: Privacy)
    ensures ParsePrivacy(PrivacyName(p)) == Some(p)
  {
  }

  /** One entry of `likes`: only the liking user. */
  datatype Like = Like(user: Id)

  datatype Post = Post(
    id: Id,
    user: Id,
    text: string,
    media: seq<string>,
    likes: seq<Like>,
    comments: seq<Id>,
    sharedOriginal: Option<Id>,
    privacy: Privacy,
    createdAt: Time,
    updatedAt: Time)

  function PostIdOf(p: Post): Id { p.id }
  function PostCreatedAt(p: Post): int { p.createdAt }

  /** The fields a request body may supply when a post is created. */
  datatype PostBody = PostBody(
    text: Option<string>,
    media: seq<string>,
    sharedOriginal: Option<Id>,
    privacy: Option<string>)

  /** Creating a post from a body and an author: None when schema validation fails
      (text missing or empty, or a privacy outside the enum); otherwise the
      document with the schema's defaults. */
  function NewPost(id: Id, user: Id, body: PostBody, now: Time): (r: Option<Post>)
    ensures r.Some? <==>
      && body.text.Some? && body.text.value != ""
      && (body.privacy.None? || ParsePrivacy(body.privacy.value).Some?)
    ensures r.Some? ==>
      && r.value.id == id && r.value.user == user
      && r.value.text == body.text.value && r.value.media == body.media
      && r.value.sharedOriginal == body.sharedOriginal
      && r.value.likes == [] && r.value.comments == []
      && (body.privacy.None? ==> r.value.privacy == Public)
      && (body.privacy.Some? ==> PrivacyName(r.value.privacy) == body.privacy.value)
      && r.value.createdAt == now && r.value.updatedAt == now
  {
    if body.text.None? || body.text.value == "" then None
    else
      var privacy := if body.privacy.None? then Some(Public) else ParsePrivacy(body.privacy.value);
      if privacy.None? then None
      else Some(Post(id, user, body.text.value, body.media, [], [], body.sharedOriginal,
                     privacy.value, now, now))
  }
}
