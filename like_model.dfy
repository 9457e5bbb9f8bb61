/** The Like schema: a required user and two optional targets, a post or a
    comment. The schema itself has no unique index and no rule that exactly
    one target is set; both rest on the like controllers, and are stated here
    as `ControllerInvariant`. The derived fields `likesCount` and `isLiked` of
    the read paths are defined here too. */
module LikeModel {
  import opened Outcomes
  import opened Tables

  datatype Like = Like(
    id: Id,
    userId: Id,               // required
    postId: Option<Id>,       // optional
    commentId: Option<Id>)    // optional

  predicate OnPost(l: Like, postId: Id) {
    l.postId == Some(postId)
  }

  predicate OnComment(l: Like, commentId: Id) {
    l.commentId == Some(commentId)
  }

  predicate ExactlyOneTarget(l: Like) {
    l.postId.Some? != l.commentId.Some?
  }

  /** At most one Like per (userId, postId). */
  predicate OnePerUserAndPost(likes: seq<Like>) {
    forall i, j :: 0 <= i < j < |likes| && likes[i].userId == likes[j].userId && likes[i].postId.Some? ==>
      likes[i].postId != likes[j].postId
  }

  /** At most one Like per (userId, commentId). */
  predicate OnePerUserAndComment(likes: seq<Like>) {
    forall i, j :: 0 <= i < j < |likes| && likes[i].userId == likes[j].userId && likes[i].commentId.Some? ==>
      likes[i].commentId != likes[j].commentId
  }

  predicate UniqueIds(likes: seq<Like>) {
    forall i, j :: 0 <= i < j < |likes| ==> likes[i].id != likes[j].id
  }

  /** What the like controllers keep, although the schema does not demand it. */
  predicate ControllerInvariant(likes: seq<Like>) {
    && (forall i :: 0 <= i < |likes| ==> ExactlyOneTarget(likes[i]))
    && OnePerUserAndPost(likes) && OnePerUserAndComment(likes) && UniqueIds(likes)
  }

  /** `findOne({ postId, userId })` / `findOneAndDelete({ postId, userId })`. */
  function PostLikeIndex(likes: seq<Like>, userId: Id, postId: Id): Option<nat> {
    FirstIndex(likes, (l: Like) => l.userId == userId && OnPost(l, postId))
  }

  /** `findOne({ commentId, userId })` / `findOneAndDelete({ commentId, userId })`. */
  function CommentLikeIndex(likes: seq<Like>, userId: Id, commentId: Id): Option<nat> {
    FirstIndex(likes, (l: Like) => l.userId == userId && OnComment(l, commentId))
  }

  /** `$lookup` of the likes whose postId is this post. */
  function LikesOnPost(likes: seq<Like>, postId: Id): (r: seq<Like>)
    ensures forall l :: l in r <==> l in likes && OnPost(l, postId)
  {
    Filter(likes, (l: Like) => OnPost(l, postId))
  }

  /** `$lookup` of the likes whose commentId is this comment. */
  function LikesOnComment(likes: seq<Like>, commentId: Id): (r: seq<Like>)
    ensures forall l :: l in r <==> l in likes && OnComment(l, commentId)
  {
    Filter(likes, (l: Like) => OnComment(l, commentId))
  }

  /** The two fields a read adds: `$size` of the looked-up likes and whether
      the viewer's id is `$in` their userIds. */
  datatype Engagement = Engagement(likesCount: nat, isLiked: bool)

  function Engage(targetLikes: seq<Like>, viewer: Id): Engagement {
    Engagement(|targetLikes|, exists l :: l in targetLikes && l.userId == viewer)
  }

  function PostEngagement(likes: seq<Like>, postId: Id, viewer: Id): (e: Engagement)
    ensures e.likesCount == |LikesOnPost(likes, postId)| <= |likes|
    ensures e.isLiked <==> exists i :: 0 <= i < |likes| && likes[i].userId == viewer && OnPost(likes[i], postId)
    ensures e.isLiked <==> PostLikeIndex(likes, viewer, postId).Some?
  {
    Engage(LikesOnPost(likes, postId), viewer)
  }

  function CommentEngagement(likes: seq<Like>, commentId: Id, viewer: Id): (e: Engagement)
    ensures e.likesCount == |LikesOnComment(likes, commentId)| <= |likes|
    ensures e.isLiked <==> exists i :: 0 <= i < |likes| && likes[i].userId == viewer && OnComment(likes[i], commentId)
    ensures e.isLiked <==> CommentLikeIndex(likes, viewer, commentId).Some?
  {
    Engage(LikesOnComment(likes, commentId), viewer)
  }

  /** Liking a post not yet liked keeps the invariant. */
  lemma AddPostLikeKeepsInvariant(likes: seq<Like>, l: Like)
    requires ControllerInvariant(likes)
    requires l.postId.Some? && l.commentId.None?
    requires PostLikeIndex(likes, l.userId, l.postId.value).None?
    requires forall i :: 0 <= i < |likes| ==> likes[i].id != l.id
    ensures ControllerInvariant(likes + [l])
  {
    var r := likes + [l];
    forall i, j | 0 <= i < j < |r| && r[i].userId == r[j].userId && r[i].postId.Some?
      ensures r[i].postId != r[j].postId
    {
      if j == |likes| {
        assert !(r[i].userId == l.userId && OnPost(r[i], l.postId.value));
      }
    }
  }

  /** Liking a comment not yet liked keeps the invariant. */
  lemma AddCommentLikeKeepsInvariant(likes: seq<Like>, l: Like)
    requires ControllerInvariant(likes)
    requires l.commentId.Some? && l.postId.None?
    requires CommentLikeIndex(likes, l.userId, l.commentId.value).None?
    requires forall i :: 0 <= i < |likes| ==> likes[i].id != l.id
    ensures ControllerInvariant(likes + [l])
  {
    var r := likes + [l];
    forall i, j | 0 <= i < j < |r| && r[i].userId == r[j].userId && r[i].commentId.Some?
      ensures r[i].commentId != r[j].commentId
    {
      if j == |likes| {
        assert !(r[i].userId == l.userId && OnComment(r[i], l.commentId.value));
      }
    }
  }

  /** Removing a like keeps the invariant. */
  lemma RemoveKeepsInvariant(likes: seq<Like>, i: nat)
    requires ControllerInvariant(likes) && i < |likes|
    ensures ControllerInvariant(RemoveAt(likes, i))
  {
    var r := RemoveAt(likes, i);
    forall a, b | 0 <= a < b < |r|
      ensures r[a].id != r[b].id
      ensures r[a].userId == r[b].userId && r[a].postId.Some? ==> r[a].postId != r[b].postId
      ensures r[a].userId == r[b].userId && r[a].commentId.Some? ==> r[a].commentId != r[b].commentId
    {
      var a' := if a < i then a else a + 1;
      var b' := if b < i then b else b + 1;
      assert r[a] == likes[a'] && r[b] == likes[b'] && a' < b';
    }
  }

  /** The three uniqueness rules, as one relation between an earlier and a later like. */
  predicate Distinct(a: Like, b: Like) {
    && a.id != b.id
    && (a.userId == b.userId && a.postId.Some? ==> a.postId != b.postId)
    && (a.userId == b.userId && a.commentId.Some? ==> a.commentId != b.commentId)
  }

  /** Deleting every like that matches keeps the invariant. */
  lemma FilterKeepsInvariant(likes: seq<Like>, keep: Like -> bool)
    requires ControllerInvariant(likes)
    ensures ControllerInvariant(Filter(likes, keep))
  {
    assert Pairwise(likes, Distinct);
    FilterPairwise(likes, keep, Distinct);
    var r := Filter(likes, keep);
    assert Pairwise(r, Distinct);
    forall k | 0 <= k < |r|
      ensures ExactlyOneTarget(r[k])
    {
      assert r[k] in likes;
    }
  }

  /** Under the invariant, unliking leaves the pair unliked: the like removed
      was the only one for that user and post. */
  lemma UnlikePostLeavesNone(likes: seq<Like>, userId: Id, postId: Id)
    requires ControllerInvariant(likes)
    requires PostLikeIndex(likes, userId, postId).Some?
    ensures PostLikeIndex(RemoveAt(likes, PostLikeIndex(likes, userId, postId).value), userId, postId).None?
  {
    var i := PostLikeIndex(likes, userId, postId).value;
    var r := RemoveAt(likes, i);
    forall k | 0 <= k < |r|
      ensures !(r[k].userId == userId && OnPost(r[k], postId))
    {
      var k' := if k < i then k else k + 1;
      assert r[k] == likes[k'];
      assert likes[i].userId == userId && likes[i].postId == Some(postId);
    }
  }

  /** Under the invariant, unliking a comment leaves the pair unliked. */
  lemma UnlikeCommentLeavesNone(likes: seq<Like>, userId: Id, commentId: Id)
    requires ControllerInvariant(likes)
    requires CommentLikeIndex(likes, userId, commentId).Some?
    ensures CommentLikeIndex(RemoveAt(likes, CommentLikeIndex(likes, userId, commentId).value), userId, commentId).None?
  {
    var i := CommentLikeIndex(likes, userId, commentId).value;
    var r := RemoveAt(likes, i);
    forall k | 0 <= k < |r|
      ensures !(r[k].userId == userId && OnComment(r[k], commentId))
    {
      var k' := if k < i then k else k + 1;
      assert r[k] == likes[k'];
      assert likes[i].userId == userId && likes[i].commentId == Some(commentId);
    }
  }

  /** Liking then unliking a post gives back exactly the table before: the
      like that unlike finds is the one just added, at the end. */
  lemma LikeThenUnlikePost(likes: seq<Like>, l: Like)
    requires l.postId.Some?
    requires PostLikeIndex(likes, l.userId, l.postId.value).None?
    ensures PostLikeIndex(likes + [l], l.userId, l.postId.value) == Some(|likes|)
    ensures RemoveAt(likes + [l], |likes|) == likes
  {
    var r := likes + [l];
    assert forall k :: 0 <= k < |likes| ==> r[k] == likes[k];
    var found := PostLikeIndex(r, l.userId, l.postId.value);
    assert found.Some? by {
      assert r[|likes|] == l;
    }
  }

  /** Liking then unliking a comment gives back exactly the table before. */
  lemma LikeThenUnlikeComment(likes: seq<Like>, l: Like)
    requires l.commentId.Some?
    requires CommentLikeIndex(likes, l.userId, l.commentId.value).None?
    ensures CommentLikeIndex(likes + [l], l.userId, l.commentId.value) == Some(|likes|)
    ensures RemoveAt(likes + [l], |likes|) == likes
  {
    var r := likes + [l];
    assert forall k :: 0 <= k < |likes| ==> r[k] == likes[k];
    var found := CommentLikeIndex(r, l.userId, l.commentId.value);
    assert found.Some? by {
      assert r[|likes|] == l;
    }
  }

  /** The (userId, postId, commentId) triples the likes record. */
  function Pairs(likes: seq<Like>): set<(Id, Option<Id>, Option<Id>)> {
    set i | 0 <= i < |likes| :: (likes[i].userId, likes[i].postId, likes[i].commentId)
  }

  /** Unliking then liking a post again restores the set of pairs; only the
      id of the like and its place in the table change. */
  lemma UnlikeThenLikePost(likes: seq<Like>, userId: Id, postId: Id, newId: Id)
    requires ControllerInvariant(likes)
    requires PostLikeIndex(likes, userId, postId).Some?
    ensures Pairs(RemoveAt(likes, PostLikeIndex(likes, userId, postId).value)
                  + [Like(newId, userId, Some(postId), None)]) == Pairs(likes)
  {
    var i := PostLikeIndex(likes, userId, postId).value;
    var r := RemoveAt(likes, i) + [Like(newId, userId, Some(postId), None)];
    assert ExactlyOneTarget(likes[i]);
    forall t | t in Pairs(likes)
      ensures t in Pairs(r)
    {
      var k :| 0 <= k < |likes| && t == (likes[k].userId, likes[k].postId, likes[k].commentId);
      if k < i {
        assert r[k] == likes[k];
      } else if k > i {
        assert r[k - 1] == likes[k];
      } else {
        assert r[|r| - 1] == Like(newId, userId, Some(postId), None);
      }
    }
    forall t | t in Pairs(r)
      ensures t in Pairs(likes)
    {
      var k :| 0 <= k < |r| && t == (r[k].userId, r[k].postId, r[k].commentId);
      if k < i {
        assert r[k] == likes[k];
      } else if k < |r| - 1 {
        assert r[k] == likes[k + 1];
      } else {
        assert t == (likes[i].userId, likes[i].postId, likes[i].commentId);
      }
    }
  }
}
