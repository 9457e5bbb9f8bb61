/** The like controllers. For each (user, post) and each (user, comment)
    pair the Like collection holds at most one row, so each pair is a
    two-state machine: `like` moves it from unliked to liked (404 when the
    target is missing, 400 when already liked) and `unlike` moves it back
    (404 when it is not liked). */
module LikeControllers {
  import opened Outcomes
  import opened Tables
  import opened LikeModel
  import PostModel
  import CommentModel
  import opened Store

  /** The pair (user, post) is in the liked state. */
  predicate PostLiked(likes: seq<Like>, userId: Id, postId: Id) {
    PostLikeIndex(likes, userId, postId).Some?
  }

  /** The pair (user, comment) is in the liked state. */
  predicate CommentLiked(likes: seq<Like>, userId: Id, commentId: Id) {
    CommentLikeIndex(likes, userId, commentId).Some?
  }

  /** likePost: `Post.findById`, then `Like.findOne({ postId, userId })`,
      then `Like.create({ postId, userId })`. */
  method LikePost(db: Db, userId: Id, postId: Id) returns (r: Outcome<Like>)
    requires db.Valid()
    modifies db
    ensures db.Valid()
    ensures db.posts == old(db.posts) && db.comments == old(db.comments) && db.users == old(db.users)
    ensures r.Ok? || r.NotFound? || r.BadRequest?
    ensures r.NotFound? <==> PostModel.IndexOfId(old(db.posts), postId).None?
    ensures r.BadRequest? <==>
              PostModel.IndexOfId(old(db.posts), postId).Some? && PostLiked(old(db.likes), userId, postId)
    ensures !r.Ok? ==> db.likes == old(db.likes)
    ensures r.Ok? ==>
              && db.likes == old(db.likes) + [r.value]
              && r.value.userId == userId && r.value.postId == Some(postId) && r.value.commentId.None?
              && (forall i :: 0 <= i < |old(db.likes)| ==> old(db.likes)[i].id != r.value.id)
              && PostLiked(db.likes, userId, postId)
  {
    if PostModel.IndexOfId(db.posts, postId).None? {
      return NotFound;
    }
    if PostLikeIndex(db.likes, userId, postId).Some? {
      return BadRequest;
    }
    ghost var before := db.likes;
    var stored := db.InsertLike(Like(0, userId, Some(postId), None));
    LikeThenUnlikePost(before, stored);
    ghost var ids := Ids(before, LikeId);
    assert forall i :: 0 <= i < |before| ==> before[i].id == ids[i] < stored.id;
    r := Ok(stored);
  }

  /** likeComment: `Comment.findById`, then `Like.findOne({ commentId, userId })`,
      then `Like.create({ commentId, userId })`. */
  method LikeComment(db: Db, userId: Id, commentId: Id) returns (r: Outcome<Like>)
    requires db.Valid()
    modifies db
    ensures db.Valid()
    ensures db.posts == old(db.posts) && db.comments == old(db.comments) && db.users == old(db.users)
    ensures r.Ok? || r.NotFound? || r.BadRequest?
    ensures r.NotFound? <==> CommentModel.IndexOfId(old(db.comments), commentId).None?
    ensures r.BadRequest? <==>
              CommentModel.IndexOfId(old(db.comments), commentId).Some? && CommentLiked(old(db.likes), userId, commentId)
    ensures !r.Ok? ==> db.likes == old(db.likes)
    ensures r.Ok? ==>
              && db.likes == old(db.likes) + [r.value]
              && r.value.userId == userId && r.value.commentId == Some(commentId) && r.value.postId.None?
              && (forall i :: 0 <= i < |old(db.likes)| ==> old(db.likes)[i].id != r.value.id)
              && CommentLiked(db.likes, userId, commentId)
  {
    if CommentModel.IndexOfId(db.comments, commentId).None? {
      return NotFound;
    }
    if CommentLikeIndex(db.likes, userId, commentId).Some? {
      return BadRequest;
    }
    ghost var before := db.likes;
    var stored := db.InsertLike(Like(0, userId, None, Some(commentId)));
    LikeThenUnlikeComment(before, stored);
    ghost var ids := Ids(before, LikeId);
    assert forall i :: 0 <= i < |before| ==> before[i].id == ids[i] < stored.id;
    r := Ok(stored);
  }

  /** unlikePost: `Like.findOneAndDelete({ postId, userId })`. */
  method UnlikePost(db: Db, userId: Id, postId: Id) returns (r: Outcome<Like>)
    requires db.Valid()
    modifies db
    ensures db.Valid()
    ensures db.posts == old(db.posts) && db.comments == old(db.comments) && db.users == old(db.users)
    ensures r.Ok? || r.NotFound?
    ensures r.NotFound? <==> !PostLiked(old(db.likes), userId, postId)
    ensures r.NotFound? ==> db.likes == old(db.likes)
    ensures r.Ok? ==>
              var i := PostLikeIndex(old(db.likes), userId, postId).value;
              && r.value == old(db.likes)[i]
              && db.likes == RemoveAt(old(db.likes), i)
              && !PostLiked(db.likes, userId, postId)
  {
    var found := PostLikeIndex(db.likes, userId, postId);
    if found.None? {
      return NotFound;
    }
    var i := found.value;
    r := Ok(db.likes[i]);
    UnlikePostLeavesNone(db.likes, userId, postId);
    db.RemoveLike(i);
  }

  /** unlikeComment: `Like.findOneAndDelete({ commentId, userId })`. */
  method UnlikeComment(db: Db, userId: Id, commentId: Id) returns (r: Outcome<Like>)
    requires db.Valid()
    modifies db
    ensures db.Valid()
    ensures db.posts == old(db.posts) && db.comments == old(db.comments) && db.users == old(db.users)
    ensures r.Ok? || r.NotFound?
    ensures r.NotFound? <==> !CommentLiked(old(db.likes), userId, commentId)
    ensures r.NotFound? ==> db.likes == old(db.likes)
    ensures r.Ok? ==>
              var i := CommentLikeIndex(old(db.likes), userId, commentId).value;
              && r.value == old(db.likes)[i]
              && db.likes == RemoveAt(old(db.likes), i)
              && !CommentLiked(db.likes, userId, commentId)
  {
    var found := CommentLikeIndex(db.likes, userId, commentId);
    if found.None? {
      return NotFound;
    }
    var i := found.value;
    r := Ok(db.likes[i]);
    UnlikeCommentLeavesNone(db.likes, userId, commentId);
    db.RemoveLike(i);
  }

  /** A like followed by an unlike of the same pair, when the like
      succeeds, leaves the Like collection exactly as it was. */
  method LikeThenUnlikePostRestores(db: Db, userId: Id, postId: Id) returns (liked: Outcome<Like>, unliked: Outcome<Like>)
    requires db.Valid()
    modifies db
    ensures db.Valid()
    ensures liked.Ok? ==> unliked.Ok? && unliked.value == liked.value && db.likes == old(db.likes)
    ensures !liked.Ok? ==> unliked.Ok? == PostLiked(old(db.likes), userId, postId)
  {
    ghost var before := db.likes;
    liked := LikePost(db, userId, postId);
    if liked.Ok? {
      LikeThenUnlikePost(before, liked.value);
    }
    unliked := UnlikePost(db, userId, postId);
  }
}
