/** Posts (controllers/postController.js): the feed and a user's own posts,
    paged newest first, and the handlers that create, edit, delete, like and
    unlike a post. */
module PostController {
  import opened Common
  import opened PostModel
  import opened Records
  import opened Store
  import Seqs
  import ConnectionController

  // ---------------------------------------------------------------------
  // getPosts

  /** The feed's filter: the author is the caller or one of the caller's
      connections, or the post is public. Privacy is only looked at for the
      third alternative. */
  predicate Visible(p: Post, connected: set<Id>, caller: Id)
  {
    p.user in connected || p.user == caller || p.privacy == Public
  }

  /** Every post the caller may see, newest first: each visible post occurs
      as often as it is stored, and no other post occurs. */
  function FeedOrder(ps: seq<Post>, cs: seq<Connection>, caller: Id): (r: seq<Post>)
    ensures Seqs.SortedDesc(r, PostCreatedAt)
    ensures forall p :: p in r <==> p in ps && Visible(p, ConnectionController.ConnectedIds(cs, caller), caller)
    ensures forall p :: multiset(r)[p] ==
                        if Visible(p, ConnectionController.ConnectedIds(cs, caller), caller) then multiset(ps)[p] else 0
    ensures |r| <= |ps|
  {
    var ids := ConnectionController.ConnectedIds(cs, caller);
    var v := Seqs.Filter(ps, (p: Post) => Visible(p, ids, caller));
    Seqs.SortDescMembers(v, PostCreatedAt);
    Seqs.SortDesc(v, PostCreatedAt)
  }

  /** One page of the feed: the visible posts, newest first, from position
      (page - 1) * limit on. The pagination descriptor is computed against the
      number of ALL stored posts, not the number the caller may see. */
  function GetPosts(ps: seq<Post>, cs: seq<Connection>, caller: Id, rawPage: Option<int>, rawLimit: Option<int>)
    : (r: Option<Page<Post>>)
    ensures var page, limit := OrDefault(rawPage, 1), OrDefault(rawLimit, 10);
      && (r.None? <==> (page - 1) * limit < 0)
      && (r.Some? ==>
            && r.value.items == Window(FeedOrder(ps, cs, caller), (page - 1) * limit, limit)
            && (forall p :: p in r.value.items ==> p in ps && Visible(p, ConnectionController.ConnectedIds(cs, caller), caller))
            && Seqs.SortedDesc(r.value.items, PostCreatedAt)
            && |r.value.items| <= Abs(limit)
            && r.value.pagination == Paginate(page, limit, |ps|))
  {
    var s := FeedOrder(ps, cs, caller);
    Seqs.PagedFrom(s, rawPage, rawLimit, |ps|, PostCreatedAt);
    Paged(s, rawPage, rawLimit, |ps|)
  }

  /** The feed shows a connection's posts whatever their privacy, private
      ones included. */
  lemma ConnectionsPrivatePostsShown(ps: seq<Post>, cs: seq<Connection>, caller: Id, c: Connection, p: Post)
    requires c in cs && c.status == Accepted && ConnectionController.Joins(c, caller, p.user)
    requires p in ps && p.privacy == Private
    ensures p in FeedOrder(ps, cs, caller)
  {
    assert ConnectionController.AcceptedWith(c, caller);
    if p.user != caller {
      assert ConnectionController.Other(c, caller) == p.user;
    }
  }

  /** Because the total counts every post, the feed can offer a next page
      while showing nothing: two private posts by a stranger, one per page. */
  lemma NextPageWithNothingVisible()
    ensures var p := Post(1, 7, "x", [], [], [], None, Private, 0, 0);
      var q := p.(id := 2);
      var r := GetPosts([p, q], [], 5, None, Some(1));
      && r.Some? && (forall x :: x !in r.value.items)
      && r.value.pagination.next == Some(PageRef(2, 1))
  {
    var p := Post(1, 7, "x", [], [], [], None, Private, 0, 0);
    var q := p.(id := 2);
    var ids := ConnectionController.ConnectedIds([], 5);
    assert 7 !in ids;
    assert !Visible(p, ids, 5) && !Visible(q, ids, 5);
    assert Paginate(1, 1, 2).next == Some(PageRef(2, 1));
  }

  // ---------------------------------------------------------------------
  // getUserPosts

  /** The posts written by `user`, in storage order. */
  function PostsBy(ps: seq<Post>, user: Id): (r: seq<Post>)
    ensures forall p :: p in r <==> p in ps && p.user == user
    ensures forall p :: multiset(r)[p] == if p.user == user then multiset(ps)[p] else 0
    ensures |r| <= |ps|
  {
    Seqs.Filter(ps, (p: Post) => p.user == user)
  }

  /** A user's posts, newest first and paged; NotFound for an unknown user.
      Here the total is the number of that user's posts. */
  function GetUserPosts(us: seq<User>, ps: seq<Post>, user: Id, rawPage: Option<int>, rawLimit: Option<int>)
    : (r: Response<Page<Post>>)
    ensures !UserExists(us, user) <==> r == Refused(NotFound)
    ensures var page, limit := OrDefault(rawPage, 1), OrDefault(rawLimit, 10);
      && (r == Refused(Failed) <==> UserExists(us, user) && (page - 1) * limit < 0)
      && (r.Success? ==>
            && r.data.items == Window(Seqs.SortDesc(PostsBy(ps, user), PostCreatedAt), (page - 1) * limit, limit)
            && (forall p :: p in r.data.items ==> p in ps && p.user == user)
            && Seqs.SortedDesc(r.data.items, PostCreatedAt)
            && |r.data.items| <= Abs(limit)
            && r.data.pagination == Paginate(page, limit, |PostsBy(ps, user)|))
  {
    if !UserExists(us, user) then Refused(NotFound)
    else
      var mine := PostsBy(ps, user);
      var s := Seqs.SortDesc(mine, PostCreatedAt);
      Seqs.SortDescMembers(mine, PostCreatedAt);
      Seqs.PagedFrom(s, rawPage, rawLimit, |mine|, PostCreatedAt);
      match Paged(s, rawPage, rawLimit, |mine|)
      case None => Refused(Failed)
      case Some(page) => Success(page)
  }

  // ---------------------------------------------------------------------
  // Keeping post.comments in step with the comments

  /** Replacing a post by one with the same identifier and comment list keeps
      the two sides in step. */
  lemma CommentsInSyncReplacePost(ps: seq<Post>, cs: seq<Comment>, k: nat, p: Post)
    requires CommentsInSync(ps, cs) && k < |ps| && p.id == ps[k].id && p.comments == ps[k].comments
    ensures CommentsInSync(ps[k := p], cs)
  {
    var ps' := ps[k := p];
    forall j, c | 0 <= j < |ps'| && c in ps'[j].comments ensures CommentOf(cs, c, ps'[j].id) {
      assert c in ps[j].comments;
    }
  }

  lemma {:induction false} CommentsInSyncRemovePost(ps: seq<Post>, cs: seq<Comment>, k: nat)
    requires CommentsInSync(ps, cs) && k < |ps|
    ensures CommentsInSync(ps[..k] + ps[k + 1..], cs)
  {
    var ps' := ps[..k] + ps[k + 1..];
    forall j | 0 <= j < |ps'| ensures ps'[j] == ps[if j < k then j else j + 1] {
    }
  }

  // ---------------------------------------------------------------------
  // createPost

  /** A valid body becomes a post owned by the caller; an invalid one is a
      validation error and nothing is stored. */
  method CreatePost(db: Db, caller: Id, body: PostBody, now: Time) returns (r: Outcome)
    requires db.Valid()
    modifies db`posts, db`nextId
    ensures db.Valid()
    ensures var p := NewPost(old(db.nextId), caller, body, now);
      && (p.None? ==> r == Failed && db.posts == old(db.posts) && db.nextId == old(db.nextId))
      && (p.Some? ==> r == Ok && db.posts == old(db.posts) + [p.value] && db.nextId == old(db.nextId) + 1)
  {
    var p := NewPost(db.nextId, caller, body, now);
    if p.None? {
      return Failed;
    }
    var id := db.NewId();
    FreshIdsAppend(db.posts, PostIdOf, id, p.value);
    db.posts := db.posts + [p.value];
    r := Ok;
  }

  // ---------------------------------------------------------------------
  // updatePost

  /** The fields an update may set on a post. */
  datatype PostPatch = PostPatch(text: Option<string>, media: Option<seq<string>>, privacy: Option<string>)

  /** The update as the validators see it: an empty text or a privacy outside
      the enumeration is refused; every other field is kept. */
  function ApplyPostPatch(p: Post, patch: PostPatch): (r: Option<Post>)
    ensures r.None? <==>
      (patch.text.Some? && patch.text.value == "") || (patch.privacy.Some? && ParsePrivacy(patch.privacy.value).None?)
    ensures r.Some? ==>
      && r.value.id == p.id && r.value.user == p.user
      && r.value.likes == p.likes && r.value.comments == p.comments
      && r.value.sharedOriginal == p.sharedOriginal
      && r.value.createdAt == p.createdAt && r.value.updatedAt == p.updatedAt
      && r.value.text == (if patch.text.Some? then patch.text.value else p.text)
      && r.value.media == (if patch.media.Some? then patch.media.value else p.media)
      && (patch.privacy.None? ==> r.value.privacy == p.privacy)
      && (patch.privacy.Some? ==> PrivacyName(r.value.privacy) == patch.privacy.value)
  {
    if patch.text.Some? && patch.text.value == "" then None
    else if patch.privacy.Some? && ParsePrivacy(patch.privacy.value).None? then None
    else
      Some(p.(text := if patch.text.Some? then patch.text.value else p.text,
              media := if patch.media.Some? then patch.media.value else p.media,
              privacy := if patch.privacy.Some? then ParsePrivacy(patch.privacy.value).value else p.privacy))
  }

  /** NotFound for a missing post, Unauthorized for anyone but its author;
      otherwise the patch is applied if it validates. */
  method UpdatePost(db: Db, caller: Id, id: Id, patch: PostPatch) returns (r: Outcome)
    requires db.Valid()
    modifies db`posts
    ensures db.Valid()
    ensures var k := FindPost(old(db.posts), id);
      && (k.None? ==> r == NotFound)
      && (k.Some? && old(db.posts)[k.value].user != caller ==> r == Unauthorized)
      && (k.Some? && old(db.posts)[k.value].user == caller ==>
            var p := ApplyPostPatch(old(db.posts)[k.value], patch);
            && (p.None? ==> r == Failed)
            && (p.Some? ==> r == Ok && db.posts == old(db.posts)[k.value := p.value]))
      && (r != Ok ==> db.posts == old(db.posts))
  {
    var k := FindPost(db.posts, id);
    if k.None? {
      return NotFound;
    }
    if db.posts[k.value].user != caller {
      return Unauthorized;
    }
    var p := ApplyPostPatch(db.posts[k.value], patch);
    if p.None? {
      return Failed;
    }
    FreshIdsReplace(db.posts, PostIdOf, db.nextId, k.value, p.value);
    CommentsInSyncReplacePost(db.posts, db.comments, k.value, p.value);
    db.posts := db.posts[k.value := p.value];
    r := Ok;
  }

  // ---------------------------------------------------------------------
  // deletePost

  /** NotFound for a missing post, Unauthorized for anyone but its author;
      otherwise the post alone is removed (its comments stay behind). */
  method DeletePost(db: Db, caller: Id, id: Id) returns (r: Outcome)
    requires db.Valid()
    modifies db`posts
    ensures db.Valid()
    ensures var k := FindPost(old(db.posts), id);
      && (k.None? ==> r == NotFound)
      && (k.Some? && old(db.posts)[k.value].user != caller ==> r == Unauthorized)
      && (k.Some? && old(db.posts)[k.value].user == caller ==>
            r == Ok && db.posts == old(db.posts)[..k.value] + old(db.posts)[k.value + 1..])
      && (r != Ok ==> db.posts == old(db.posts))
  {
    var k := FindPost(db.posts, id);
    if k.None? {
      return NotFound;
    }
    if db.posts[k.value].user != caller {
      return Unauthorized;
    }
    FreshIdsRemove(db.posts, PostIdOf, db.nextId, k.value);
    CommentsInSyncRemovePost(db.posts, db.comments, k.value);
    db.posts := db.posts[..k.value] + db.posts[k.value + 1..];
    r := Ok;
  }

  // ---------------------------------------------------------------------
  // likePost, unlikePost

  /** Some like in the list is by `user`. */
  predicate Liked(likes: seq<Like>, user: Id)
  {
    exists i :: 0 <= i < |likes| && likes[i].user == user
  }

  /** The likes that are not by `user`, in order. */
  function Unliked(likes: seq<Like>, user: Id): (r: seq<Like>)
    ensures !Liked(r, user)
    ensures forall l :: l in r <==> l in likes && l.user != user
    ensures |r| <= |likes|
  {
    var r := Seqs.Filter(likes, (l: Like) => l.user != user);
    assert forall i :: 0 <= i < |r| ==> r[i] in r;
    r
  }

  /** Unliking keeps or drops each like on its own and keeps the order of
      the rest: it distributes over concatenation. */
  lemma {:induction false} UnlikedKeepsOrder(a: seq<Like>, b: seq<Like>, user: Id)
    ensures Unliked(a + b, user) == Unliked(a, user) + Unliked(b, user)
    ensures forall l :: Unliked([l], user) == if l.user == user then [] else [l]
  {
    Seqs.FilterConcat(a, b, (l: Like) => l.user != user);
    forall l ensures Unliked([l], user) == if l.user == user then [] else [l] {
      assert [l][1..] == [];
    }
  }

  /** Unliking right after a like restores the list exactly: the like is the
      caller's only one, and filtering keeps the others in their order. */
  lemma {:induction false} UnlikeUndoesLike(likes: seq<Like>, user: Id)
    requires !Liked(likes, user)
    ensures Unliked([Like(user)] + likes, user) == likes
  {
    var p := (l: Like) => l.user != user;
    Seqs.FilterConcat([Like(user)], likes, p);
    assert Seqs.Filter([Like(user)], p) == [] by {
      assert [Like(user)] == [Like(user)] + [];
    }
    forall l | l in likes ensures p(l) {
      var i :| 0 <= i < |likes| && likes[i] == l;
    }
    Seqs.FilterKeepsAll(likes, p);
  }

  /** NotFound for a missing post, BadRequest if the caller already likes it;
      otherwise the caller's like goes in front of the others. */
  method LikePost(db: Db, caller: Id, id: Id) returns (r: Outcome)
    requires db.Valid()
    modifies db`posts
    ensures db.Valid()
    ensures var k := FindPost(old(db.posts), id);
      && (k.None? ==> r == NotFound)
      && (k.Some? && Liked(old(db.posts)[k.value].likes, caller) ==> r == BadRequest)
      && (k.Some? && !Liked(old(db.posts)[k.value].likes, caller) ==>
            r == Ok && db.posts == old(db.posts)[k.value := old(db.posts)[k.value].(likes := [Like(caller)] + old(db.posts)[k.value].likes)])
      && (r != Ok ==> db.posts == old(db.posts))
  {
    var k := FindPost(db.posts, id);
    if k.None? {
      return NotFound;
    }
    var p := db.posts[k.value];
    if Liked(p.likes, caller) {
      return BadRequest;
    }
    var p' := p.(likes := [Like(caller)] + p.likes);
    FreshIdsReplace(db.posts, PostIdOf, db.nextId, k.value, p');
    CommentsInSyncReplacePost(db.posts, db.comments, k.value, p');
    db.posts := db.posts[k.value := p'];
    r := Ok;
  }

  /** NotFound for a missing post, BadRequest if the caller does not like it;
      otherwise every like by the caller is dropped. */
  method UnlikePost(db: Db, caller: Id, id: Id) returns (r: Outcome)
    requires db.Valid()
    modifies db`posts
    ensures db.Valid()
    ensures var k := FindPost(old(db.posts), id);
      && (k.None? ==> r == NotFound)
      && (k.Some? && !Liked(old(db.posts)[k.value].likes, caller) ==> r == BadRequest)
      && (k.Some? && Liked(old(db.posts)[k.value].likes, caller) ==>
            r == Ok && db.posts == old(db.posts)[k.value := old(db.posts)[k.value].(likes := Unliked(old(db.posts)[k.value].likes, caller))])
      && (r != Ok ==> db.posts == old(db.posts))
  {
    var k := FindPost(db.posts, id);
    if k.None? {
      return NotFound;
    }
    var p := db.posts[k.value];
    if !Liked(p.likes, caller) {
      return BadRequest;
    }
    var p' := p.(likes := Unliked(p.likes, caller));
    FreshIdsReplace(db.posts, PostIdOf, db.nextId, k.value, p');
    CommentsInSyncReplacePost(db.posts, db.comments, k.value, p');
    db.posts := db.posts[k.value := p'];
    r := Ok;
  }
}
