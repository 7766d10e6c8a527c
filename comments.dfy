/** Comments (controllers/commentController.js): a post's comments newest
    first, and the handlers that add, edit and delete a comment while keeping
    the post's list of comment identifiers in step. */
module CommentController {
  import opened Common
  import opened PostModel
  import opened Records
  import opened Store
  import Seqs

  /** The comments whose `post` is `post`, in storage order. */
  function CommentsOn(cs: seq<Comment>, post: Id): (r: seq<Comment>)
    ensures forall c :: c in r <==> c in cs && c.post == post
    ensures forall c :: multiset(r)[c] == if c.post == post then multiset(cs)[c] else 0
  {
    Seqs.Filter(cs, (c: Comment) => c.post == post)
  }

  /** NotFound for a missing post; otherwise exactly the comments on it,
      newest first. */
  function GetComments(ps: seq<Post>, cs: seq<Comment>, post: Id): (r: Response<seq<Comment>>)
    ensures FindPost(ps, post).None? <==> r == Refused(NotFound)
    ensures r.Success? ==>
      && Seqs.SortedDesc(r.data, CommentCreatedAt)
      && (forall c :: c in r.data <==> c in cs && c.post == post)
      && multiset(r.data) == multiset(CommentsOn(cs, post))
  {
    if FindPost(ps, post).None? then Refused(NotFound)
    else
      var mine := CommentsOn(cs, post);
      Seqs.SortDescMembers(mine, CommentCreatedAt);
      Success(Seqs.SortDesc(mine, CommentCreatedAt))
  }

  /** The position of the comment with identifier `id`, if any. */
  function FindComment(cs: seq<Comment>, id: Id): (r: Option<nat>)
    ensures r.Some? ==> r.value < |cs| && cs[r.value].id == id
    ensures r.None? <==> forall i :: 0 <= i < |cs| ==> cs[i].id != id
  {
    Seqs.FindFirst(cs, (c: Comment) => c.id == id)
  }

  // ---------------------------------------------------------------------
  // addComment

  /** A new comment on post k, listed at the end of its list, keeps the two
      sides in step. */
  lemma {:induction false} CommentsInSyncAdd(ps: seq<Post>, cs: seq<Comment>, k: nat, c: Comment, bound: nat)
    requires CommentsInSync(ps, cs) && FreshIds(ps, PostIdOf, bound) && k < |ps| && c.post == ps[k].id
    ensures CommentsInSync(ps[k := ps[k].(comments := ps[k].comments + [c.id])], cs + [c])
  {
    var ps' := ps[k := ps[k].(comments := ps[k].comments + [c.id])];
    var cs' := cs + [c];
    forall j, i | 0 <= j < |ps'| && 0 <= i < |cs'| && cs'[i].post == ps'[j].id
      ensures cs'[i].id in ps'[j].comments
    {
      if i == |cs| {
        assert PostIdOf(ps[j]) == PostIdOf(ps[k]);
      } else {
        assert cs[i].id in ps[j].comments;
      }
    }
    forall j, x | 0 <= j < |ps'| && x in ps'[j].comments ensures CommentOf(cs', x, ps'[j].id) {
      if j == k && x == c.id {
        assert cs'[|cs|] == c;
      } else {
        assert x in ps[j].comments;
        var i :| 0 <= i < |cs| && cs[i].id == x && cs[i].post == ps[j].id;
        assert cs'[i] == cs[i];
      }
    }
  }

  /** Every fact the store keeps about posts and comments holds after the
      comment `c`, carrying the next fresh identifier, is added on post k. */
  lemma AddKeepsPostFacts(ps: seq<Post>, cs: seq<Comment>, k: nat, c: Comment, bound: nat)
    requires CommentsInSync(ps, cs) && FreshIds(ps, PostIdOf, bound) && FreshIds(cs, CommentIdOf, bound)
    requires CommentsRefIssued(cs, bound) && k < |ps| && c.post == ps[k].id && c.id == bound
    ensures var ps' := ps[k := ps[k].(comments := ps[k].comments + [c.id])];
      && CommentsInSync(ps', cs + [c]) && FreshIds(ps', PostIdOf, bound + 1)
      && FreshIds(cs + [c], CommentIdOf, bound + 1) && CommentsRefIssued(cs + [c], bound + 1)
  {
    var ps' := ps[k := ps[k].(comments := ps[k].comments + [c.id])];
    CommentsInSyncAdd(ps, cs, k, c, bound);
    FreshIdsAppend(cs, CommentIdOf, bound, c);
    FreshIdsReplace(ps, PostIdOf, bound, k, ps'[k]);
    FreshIdsGrow(ps', PostIdOf, bound, bound + 1);
    assert c.post < bound;
  }

  /** NotFound for a missing post; otherwise a comment by the caller on that
      post is created and its identifier appended to the post's list. */
  method AddComment(db: Db, caller: Id, post: Id, text: string, now: Time) returns (r: Outcome)
    requires db.Valid()
    modifies db`comments, db`posts, db`nextId
    ensures db.Valid()
    ensures var k := FindPost(old(db.posts), post);
      && (k.None? ==> r == NotFound && db.comments == old(db.comments) && db.posts == old(db.posts)
                        && db.nextId == old(db.nextId))
      && (k.Some? ==>
            var c := Comment(old(db.nextId), post, caller, text, now);
            && r == Ok
            && db.comments == old(db.comments) + [c]
            && db.posts == old(db.posts)[k.value := old(db.posts)[k.value].(comments := old(db.posts)[k.value].comments + [c.id])])
  {
    var k := FindPost(db.posts, post);
    if k.None? {
      return NotFound;
    }
    var ps, cs := db.posts, db.comments;
    var c := Comment(db.nextId, post, caller, text, now);
    AddKeepsPostFacts(ps, cs, k.value, c, db.nextId);
    var id := db.NewId();
    db.comments := cs + [c];
    db.posts := ps[k.value := ps[k.value].(comments := ps[k.value].comments + [id])];
    r := Ok;
  }

  // ---------------------------------------------------------------------
  // updateComment

  /** NotFound for a missing comment, Unauthorized for anyone but its author;
      otherwise only its text changes. */
  method UpdateComment(db: Db, caller: Id, id: Id, text: string) returns (r: Outcome)
    requires db.Valid()
    modifies db`comments
    ensures db.Valid()
    ensures var k := FindComment(old(db.comments), id);
      && (k.None? ==> r == NotFound)
      && (k.Some? && old(db.comments)[k.value].user != caller ==> r == Unauthorized)
      && (k.Some? && old(db.comments)[k.value].user == caller ==>
            r == Ok && db.comments == old(db.comments)[k.value := old(db.comments)[k.value].(text := text)])
      && (r != Ok ==> db.comments == old(db.comments))
  {
    var k := FindComment(db.comments, id);
    if k.None? {
      return NotFound;
    }
    var c := db.comments[k.value];
    if c.user != caller {
      return Unauthorized;
    }
    var cs := db.comments;
    FreshIdsReplace(cs, CommentIdOf, db.nextId, k.value, c.(text := text));
    db.comments := cs[k.value := c.(text := text)];
    forall j, x | 0 <= j < |db.posts| && x in db.posts[j].comments ensures CommentOf(db.comments, x, db.posts[j].id) {
      var i :| 0 <= i < |cs| && cs[i].id == x && cs[i].post == db.posts[j].id;
      assert db.comments[i].id == x && db.comments[i].post == db.posts[j].id;
    }
    r := Ok;
  }

  // ---------------------------------------------------------------------
  // deleteComment

  /** The parent's list without every occurrence of `id`, others kept in order. */
  function WithoutComment(ids: seq<Id>, id: Id): (r: seq<Id>)
    ensures forall x :: x in r <==> x in ids && x != id
    ensures id !in r
  {
    Seqs.Filter(ids, (x: Id) => x != id)
  }

  /** Removing an identifier keeps or drops each entry on its own and keeps
      the order of the rest: it distributes over concatenation. */
  lemma {:induction false} WithoutCommentKeepsOrder(a: seq<Id>, b: seq<Id>, id: Id)
    ensures WithoutComment(a + b, id) == WithoutComment(a, id) + WithoutComment(b, id)
    ensures forall x :: WithoutComment([x], id) == if x == id then [] else [x]
  {
    Seqs.FilterConcat(a, b, (x: Id) => x != id);
    forall x ensures WithoutComment([x], id) == if x == id then [] else [x] {
      assert [x][1..] == [];
    }
  }

  /** Removing comment k, and its identifier from every post's list, keeps the
      two sides in step. */
  lemma {:induction false} CommentsInSyncDelete(ps: seq<Post>, ps': seq<Post>, cs: seq<Comment>, k: nat, bound: nat)
    requires CommentsInSync(ps, cs) && FreshIds(cs, CommentIdOf, bound) && k < |cs|
    requires |ps'| == |ps|
    requires forall j :: 0 <= j < |ps| ==> ps'[j].id == ps[j].id && cs[k].id !in ps'[j].comments
    requires forall j, x :: 0 <= j < |ps| && x in ps'[j].comments ==> x in ps[j].comments
    requires forall j, x :: 0 <= j < |ps| && x in ps[j].comments && x != cs[k].id ==> x in ps'[j].comments
    ensures CommentsInSync(ps', cs[..k] + cs[k + 1..])
  {
    var cs' := cs[..k] + cs[k + 1..];
    forall j, i | 0 <= j < |ps'| && 0 <= i < |cs'| && cs'[i].post == ps'[j].id
      ensures cs'[i].id in ps'[j].comments
    {
      RemainingCommentListed(ps, ps', cs, k, bound, j, i);
    }
    forall j, x | 0 <= j < |ps'| && x in ps'[j].comments ensures CommentOf(cs', x, ps'[j].id) {
      ListedCommentRemains(ps, ps', cs, k, j, x);
    }
  }

  /** A comment left after removing comment k is still listed by its post. */
  lemma RemainingCommentListed(ps: seq<Post>, ps': seq<Post>, cs: seq<Comment>, k: nat, bound: nat, j: nat, i: nat)
    requires CommentsInSync(ps, cs) && FreshIds(cs, CommentIdOf, bound) && k < |cs|
    requires |ps'| == |ps| && j < |ps| && ps'[j].id == ps[j].id
    requires forall x :: x in ps[j].comments && x != cs[k].id ==> x in ps'[j].comments
    requires i < |cs| - 1 && (cs[..k] + cs[k + 1..])[i].post == ps'[j].id
    ensures (cs[..k] + cs[k + 1..])[i].id in ps'[j].comments
  {
    var i' := if i < k then i else i + 1;
    assert (cs[..k] + cs[k + 1..])[i] == cs[i'];
    assert cs[i'].id in ps[j].comments;
    assert CommentIdOf(cs[i']) != CommentIdOf(cs[k]);
  }

  /** An identifier still listed after the removal names a remaining comment
      of that post. */
  lemma ListedCommentRemains(ps: seq<Post>, ps': seq<Post>, cs: seq<Comment>, k: nat, j: nat, x: Id)
    requires CommentsInSync(ps, cs) && k < |cs|
    requires |ps'| == |ps| && j < |ps| && ps'[j].id == ps[j].id && cs[k].id !in ps'[j].comments
    requires forall y :: y in ps'[j].comments ==> y in ps[j].comments
    requires x in ps'[j].comments
    ensures CommentOf(cs[..k] + cs[k + 1..], x, ps'[j].id)
  {
    assert x in ps[j].comments;
    var i :| 0 <= i < |cs| && cs[i].id == x && cs[i].post == ps[j].id;
    assert i != k;
    var i' := if i < k then i else i - 1;
    assert (cs[..k] + cs[k + 1..])[i'] == cs[i];
  }

  /** The posts after `id` leaves the list of its parent `post`, when that
      post exists; every other post is kept. */
  function Detached(ps: seq<Post>, post: Id, id: Id): (r: seq<Post>)
    ensures FindPost(ps, post).None? ==> r == ps
    ensures FindPost(ps, post).Some? ==>
      var j := FindPost(ps, post).value;
      r == ps[j := ps[j].(comments := WithoutComment(ps[j].comments, id))]
  {
    match FindPost(ps, post)
    case None => ps
    case Some(j) => ps[j := ps[j].(comments := WithoutComment(ps[j].comments, id))]
  }

  /** Deleting comment k the way the handler does keeps the two sides in
      step: only its parent can list it, and that list loses it. */
  lemma {:induction false} DeleteKeepsSync(ps: seq<Post>, cs: seq<Comment>, k: nat, bound: nat)
    requires CommentsInSync(ps, cs) && FreshIds(ps, PostIdOf, bound) && FreshIds(cs, CommentIdOf, bound)
    requires k < |cs|
    ensures CommentsInSync(Detached(ps, cs[k].post, cs[k].id), cs[..k] + cs[k + 1..])
  {
    var id := cs[k].id;
    var ps' := Detached(ps, cs[k].post, id);
    forall i | 0 <= i < |ps| ensures id !in ps'[i].comments {
    }
    CommentsInSyncDelete(ps, ps', cs, k, bound);
  }

  /** Every fact the store keeps about posts and comments survives the
      deletion of comment k. */
  lemma DeleteKeepsPostFacts(ps: seq<Post>, cs: seq<Comment>, k: nat, bound: nat)
    requires CommentsInSync(ps, cs) && FreshIds(ps, PostIdOf, bound) && FreshIds(cs, CommentIdOf, bound)
    requires CommentsRefIssued(cs, bound) && k < |cs|
    ensures var ps', cs' := Detached(ps, cs[k].post, cs[k].id), cs[..k] + cs[k + 1..];
      && CommentsInSync(ps', cs') && FreshIds(ps', PostIdOf, bound) && FreshIds(cs', CommentIdOf, bound)
      && CommentsRefIssued(cs', bound)
  {
    DeleteKeepsSync(ps, cs, k, bound);
    DetachedKeepsIds(ps, cs[k].post, cs[k].id, bound);
    RemoveCommentKeepsIds(cs, k, bound);
  }

  /** Detaching a comment changes no post identifier. */
  lemma DetachedKeepsIds(ps: seq<Post>, post: Id, id: Id, bound: nat)
    requires FreshIds(ps, PostIdOf, bound)
    ensures FreshIds(Detached(ps, post, id), PostIdOf, bound)
  {
    var j := FindPost(ps, post);
    if j.Some? {
      FreshIdsReplace(ps, PostIdOf, bound, j.value, Detached(ps, post, id)[j.value]);
    }
  }

  /** The comments left after removing comment k keep distinct identifiers
      and refer to issued posts. */
  lemma RemoveCommentKeepsIds(cs: seq<Comment>, k: nat, bound: nat)
    requires FreshIds(cs, CommentIdOf, bound) && CommentsRefIssued(cs, bound) && k < |cs|
    ensures FreshIds(cs[..k] + cs[k + 1..], CommentIdOf, bound) && CommentsRefIssued(cs[..k] + cs[k + 1..], bound)
  {
    FreshIdsRemove(cs, CommentIdOf, bound, k);
    var cs' := cs[..k] + cs[k + 1..];
    forall i | 0 <= i < |cs'| ensures cs'[i].post < bound {
      assert cs'[i] == cs[if i < k then i else i + 1];
    }
  }

  /** NotFound for a missing comment, Unauthorized for anyone but its author;
      otherwise its identifier leaves the parent post's list (when that post
      still exists) and the comment is removed. */
  method DeleteComment(db: Db, caller: Id, id: Id) returns (r: Outcome)
    requires db.Valid()
    modifies db`comments, db`posts
    ensures db.Valid()
    ensures var k := FindComment(old(db.comments), id);
      && (k.None? ==> r == NotFound)
      && (k.Some? && old(db.comments)[k.value].user != caller ==> r == Unauthorized)
      && (k.Some? && old(db.comments)[k.value].user == caller ==>
            && r == Ok
            && db.comments == old(db.comments)[..k.value] + old(db.comments)[k.value + 1..]
            && db.posts == Detached(old(db.posts), old(db.comments)[k.value].post, id))
      && (r != Ok ==> db.comments == old(db.comments) && db.posts == old(db.posts))
  {
    var k := FindComment(db.comments, id);
    if k.None? {
      return NotFound;
    }
    var c := db.comments[k.value];
    if c.user != caller {
      return Unauthorized;
    }
    var ps, cs := db.posts, db.comments;
    DeleteKeepsPostFacts(ps, cs, k.value, db.nextId);
    db.posts := Detached(ps, c.post, id);
    db.comments := cs[..k.value] + cs[k.value + 1..];
    r := Ok;
  }
}
