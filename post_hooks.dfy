/** The `pre('deleteOne', { document: true })` hook on posts. It is meant to
    delete, before the post itself goes, the likes on the post, the likes on
    the post's comments, and the post's comments. Two things keep it from
    ever doing so: the file that declares it never imports the Like and
    Comment models it calls, and the only delete path (`findByIdAndDelete`
    in deletePost) is a query, which document hooks do not see. Both the
    hook as written and the cascade it was meant to perform are modelled. */
module PostHooks {
  import opened Outcomes
  import opened Tables
  import opened PostModel
  import opened CommentModel
  import opened LikeModel
  import opened Store

  /** `Comment.find({ postId }).select('_id')`: the ids of the post's comments. */
  function CommentIdsOf(comments: seq<Comment>, postId: Id): (ids: set<Id>)
    ensures forall id :: id in ids <==> exists c :: c in comments && c.postId == postId && c.id == id
  {
    set c | c in comments && c.postId == postId :: c.id
  }

  /** The `$or` filter of the hook's `Like.deleteMany`. */
  predicate Cascaded(l: Like, postId: Id, commentIds: set<Id>) {
    OnPost(l, postId) || (l.commentId.Some? && l.commentId.value in commentIds)
  }

  /** The comments left by `Comment.deleteMany({ postId })`. */
  function RemainingComments(comments: seq<Comment>, postId: Id): (r: seq<Comment>)
    ensures forall c :: c in r <==> c in comments && c.postId != postId
  {
    Filter(comments, (c: Comment) => !OfPost(c, postId))
  }

  /** The likes left by the hook's `Like.deleteMany`, whose comment ids are
      those of `comments`, the table before any comment is deleted. */
  function RemainingLikes(comments: seq<Comment>, likes: seq<Like>, postId: Id): (r: seq<Like>)
    ensures forall l :: l in r <==>
              && l in likes && !OnPost(l, postId)
              && !(exists c :: c in comments && c.postId == postId && l.commentId == Some(c.id))
  {
    var ids := CommentIdsOf(comments, postId);
    Filter(likes, (l: Like) => !Cascaded(l, postId, ids))
  }

  /** The cascade the hook was written to perform: resolve the ids of the
      post's comments, delete the likes on the post or on those comments,
      then delete the post's comments. */
  method CascadeHook(db: Db, postId: Id)
    requires db.Valid()
    modifies db
    ensures db.Valid()
    ensures db.posts == old(db.posts) && db.users == old(db.users)
    ensures db.likes == RemainingLikes(old(db.comments), old(db.likes), postId)
    ensures db.comments == RemainingComments(old(db.comments), postId)
  {
    var ids := CommentIdsOf(db.comments, postId);
    db.KeepLikes((l: Like) => !Cascaded(l, postId, ids));
    db.KeepComments((c: Comment) => !OfPost(c, postId));
  }

  /** The names bound at the top level of the module that declares the hook:
      its one import and its own declarations. */
  const DeclaringScope: set<string> := {"mongoose", "Schema", "postSchema", "Post"}

  /** The hook run in a module binding the names in `scope`. Its first
      statement evaluates `Like.deleteMany`, then, for the argument,
      `Comment.find`; an unbound name throws a ReferenceError before any
      delete is issued, and the hook passes it to `next`, failing the delete
      that fired it. With both names bound it is the cascade. */
  method RunHook(db: Db, postId: Id, scope: set<string>) returns (r: Outcome<()>)
    requires db.Valid()
    modifies db
    ensures db.Valid()
    ensures db.posts == old(db.posts) && db.users == old(db.users)
    ensures r.Ok? || r.ServerError?
    ensures r.Ok? <==> "Like" in scope && "Comment" in scope
    ensures r.ServerError? ==> db.comments == old(db.comments) && db.likes == old(db.likes)
    ensures r.Ok? ==>
              && db.likes == RemainingLikes(old(db.comments), old(db.likes), postId)
              && db.comments == RemainingComments(old(db.comments), postId)
  {
    if "Like" !in scope || "Comment" !in scope {
      return ServerError;
    }
    CascadeHook(db, postId);
    r := Ok(());
  }

  /** The hook as the module declares it: neither model is bound there, so
      it fails and deletes nothing. */
  method CascadeHookAsWritten(db: Db, postId: Id) returns (r: Outcome<()>)
    requires db.Valid()
    modifies db
    ensures db.Valid()
    ensures r.ServerError?
    ensures db.posts == old(db.posts) && db.comments == old(db.comments)
    ensures db.likes == old(db.likes) && db.users == old(db.users)
  {
    r := RunHook(db, postId, DeclaringScope);
  }

  /** Some post has this id. */
  predicate HasPost(posts: seq<Post>, id: Id) {
    exists i :: 0 <= i < |posts| && posts[i].id == id
  }

  /** Some comment has this id. */
  predicate HasComment(comments: seq<Comment>, id: Id) {
    exists i :: 0 <= i < |comments| && comments[i].id == id
  }

  /** Every comment names an existing post and every like an existing target. */
  predicate References(posts: seq<Post>, comments: seq<Comment>, likes: seq<Like>) {
    && (forall c :: c in comments ==> HasPost(posts, c.postId))
    && (forall l :: l in likes && l.postId.Some? ==> HasPost(posts, l.postId.value))
    && (forall l :: l in likes && l.commentId.Some? ==> HasComment(comments, l.commentId.value))
  }

  /** A post other than the removed one is still there. */
  lemma StillHasPost(posts: seq<Post>, i: nat, id: Id)
    requires i < |posts| && HasPost(posts, id) && id != posts[i].id
    ensures HasPost(RemoveAt(posts, i), id)
  {
    var m :| 0 <= m < |posts| && posts[m].id == id;
    var r := RemoveAt(posts, i);
    if m < i {
      assert r[m] == posts[m];
    } else {
      assert r[m - 1] == posts[m];
    }
  }

  /** Removing a post after the cascade leaves no dangling reference. */
  lemma CascadeKeepsReferences(posts: seq<Post>, comments: seq<Comment>, likes: seq<Like>, i: nat)
    requires i < |posts| && References(posts, comments, likes)
    ensures var postId := posts[i].id;
            References(RemoveAt(posts, i), RemainingComments(comments, postId),
                       RemainingLikes(comments, likes, postId))
  {
    var postId := posts[i].id;
    var rest := RemoveAt(posts, i);
    var cs := RemainingComments(comments, postId);
    var ls := RemainingLikes(comments, likes, postId);
    forall c | c in cs
      ensures HasPost(rest, c.postId)
    {
      StillHasPost(posts, i, c.postId);
    }
    forall l | l in ls && l.postId.Some?
      ensures HasPost(rest, l.postId.value)
    {
      StillHasPost(posts, i, l.postId.value);
    }
    forall l | l in ls && l.commentId.Some?
      ensures HasComment(cs, l.commentId.value)
    {
      var m :| 0 <= m < |comments| && comments[m].id == l.commentId.value;
      var c := comments[m];
      assert c in comments;
      assert c.postId != postId;
      assert c in cs;
      var n :| 0 <= n < |cs| && cs[n] == c;
    }
  }

  /** A plain row delete of a post that has a comment leaves that comment
      naming a post that no longer exists. */
  lemma DeletePostLeavesOrphans(posts: seq<Post>, comments: seq<Comment>, likes: seq<Like>, i: nat, c: Comment)
    requires i < |posts| && PostModel.UniqueIds(posts)
    requires c in comments && c.postId == posts[i].id
    ensures !References(RemoveAt(posts, i), comments, likes)
  {
    var rest := RemoveAt(posts, i);
    forall k | 0 <= k < |rest|
      ensures rest[k].id != c.postId
    {
      var k' := if k < i then k else k + 1;
      assert rest[k] == posts[k'] && k' != i;
    }
  }

  /** A post delete that runs the intended cascade first: 404 for an
      unknown id, otherwise the cascade and then the row delete. */
  method DeletePostWithCascade(db: Db, postId: Id) returns (r: Outcome<Post>)
    requires db.Valid()
    modifies db
    ensures db.Valid()
    ensures db.users == old(db.users)
    ensures r.Ok? || r.NotFound?
    ensures r.NotFound? <==> PostModel.IndexOfId(old(db.posts), postId).None?
    ensures r.NotFound? ==>
              db.posts == old(db.posts) && db.comments == old(db.comments) && db.likes == old(db.likes)
    ensures r.Ok? ==>
              var i := PostModel.IndexOfId(old(db.posts), postId).value;
              && r.value == old(db.posts)[i]
              && db.posts == RemoveAt(old(db.posts), i)
              && db.comments == RemainingComments(old(db.comments), postId)
              && db.likes == RemainingLikes(old(db.comments), old(db.likes), postId)
    ensures References(old(db.posts), old(db.comments), old(db.likes)) ==>
              References(db.posts, db.comments, db.likes)
  {
    var found := PostModel.IndexOfId(db.posts, postId);
    if found.None? {
      return NotFound;
    }
    var i := found.value;
    r := Ok(db.posts[i]);
    ghost var intact := References(db.posts, db.comments, db.likes);
    if intact {
      CascadeKeepsReferences(db.posts, db.comments, db.likes, i);
    }
    CascadeHook(db, postId);
    db.RemovePost(i);
  }
}
