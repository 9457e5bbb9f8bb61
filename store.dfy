/** The in-memory store the controllers work on: the Post, Comment, Like and
    User collections, and the generator of fresh ids. */
module Store {
  import opened Outcomes
  import opened Tables
  import PostModel
  import CommentModel
  import LikeModel
  import Users

  /** Every id in `ids` is below `next`. */
  ghost predicate Below(ids: seq<Id>, next: Id) {
    forall i :: 0 <= i < |ids| ==> ids[i] < next
  }

  /** The ids of a table's rows, in order. */
  function Ids<T>(rows: seq<T>, id: T -> Id): (ids: seq<Id>)
    ensures |ids| == |rows| && forall i :: 0 <= i < |rows| ==> ids[i] == id(rows[i])
  {
    seq(|rows|, i requires 0 <= i < |rows| => id(rows[i]))
  }

  function PostId(p: PostModel.Post): Id { p.id }
  function CommentId(c: CommentModel.Comment): Id { c.id }
  function LikeId(l: LikeModel.Like): Id { l.id }

  /** The schema's indexes and setters, the invariant the like controllers
      keep, and every id below the next one to be handed out. */
  ghost predicate Consistent(posts: seq<PostModel.Post>, comments: seq<CommentModel.Comment>,
                             likes: seq<LikeModel.Like>, nextId: Id) {
    && PostModel.TableInvariant(posts)
    && CommentModel.TableInvariant(comments)
    && LikeModel.ControllerInvariant(likes)
    && Below(Ids(posts, PostId), nextId)
    && Below(Ids(comments, CommentId), nextId)
    && Below(Ids(likes, LikeId), nextId)
  }

  /** Appending an id one below the new bound keeps every id below it. */
  lemma BelowAppend(ids: seq<Id>, next: Id)
    requires Below(ids, next)
    ensures Below(ids + [next], next + 1)
  {
  }

  /** Removing an id keeps every id below the bound. */
  lemma BelowRemove(ids: seq<Id>, i: nat, next: Id)
    requires Below(ids, next) && i < |ids|
    ensures Below(RemoveAt(ids, i), next)
  {
    var r := RemoveAt(ids, i);
    forall k | 0 <= k < |r|
      ensures r[k] < next
    {
      assert r[k] == ids[if k < i then k else k + 1];
    }
  }

  class Db {
    var posts: seq<PostModel.Post>
    var comments: seq<CommentModel.Comment>
    var likes: seq<LikeModel.Like>
    var users: seq<Users.User>
    var nextId: Id

    ghost predicate Valid()
      reads this
    {
      && Consistent(posts, comments, likes, nextId)
      && Users.UniqueIds(users)
    }

    constructor (users: seq<Users.User>)
      requires Users.UniqueIds(users)
      ensures Valid()
      ensures posts == [] && comments == [] && likes == [] && this.users == users
    {
      posts, comments, likes := [], [], [];
      this.users := users;
      nextId := 0;
    }

    /** `Post.create`: the post gets a fresh ObjectId and is stored. */
    method InsertPost(p: PostModel.Post) returns (stored: PostModel.Post)
      requires Valid() && PostModel.StoredForm(p)
      requires !PostModel.TitleTaken(posts, p.title, None) && !PostModel.SlugTaken(posts, p.slug, None)
      modifies this
      ensures Valid()
      ensures stored == p.(id := old(nextId))
      ensures forall i :: 0 <= i < |old(posts)| ==> old(posts)[i].id != stored.id
      ensures posts == old(posts) + [stored]
      ensures comments == old(comments) && likes == old(likes) && users == old(users)
    {
      stored := p.(id := nextId);
      assert forall i :: 0 <= i < |posts| ==> posts[i].id != stored.id by {
        assert Below(Ids(posts, PostId), nextId);
      }
      PostModel.AppendKeepsInvariant(posts, stored);
      BelowAppend(Ids(posts, PostId), nextId);
      assert Ids(posts + [stored], PostId) == Ids(posts, PostId) + [nextId];
      posts, nextId := posts + [stored], nextId + 1;
    }

    /** `findByIdAndUpdate` on a post: the row at `i` becomes `p`, which keeps
        the id and whose title and slug no other post holds. */
    method ReplacePost(i: nat, p: PostModel.Post)
      requires Valid() && i < |posts| && PostModel.StoredForm(p) && p.id == posts[i].id
      requires !PostModel.TitleTaken(posts, p.title, Some(p.id)) && !PostModel.SlugTaken(posts, p.slug, Some(p.id))
      modifies this`posts
      ensures Valid() && posts == old(posts)[i := p]
      ensures comments == old(comments) && likes == old(likes) && users == old(users)
    {
      PostModel.ReplaceKeepsInvariant(posts, i, p);
      assert Ids(posts[i := p], PostId) == Ids(posts, PostId);
      posts := posts[i := p];
    }

    /** A delete by id on the Post collection: the row at `i` goes. */
    method RemovePost(i: nat)
      requires Valid() && i < |posts|
      modifies this`posts
      ensures Valid() && posts == RemoveAt(old(posts), i)
      ensures comments == old(comments) && likes == old(likes) && users == old(users)
    {
      PostModel.RemoveKeepsInvariant(posts, i);
      BelowRemove(Ids(posts, PostId), i, nextId);
      assert Ids(RemoveAt(posts, i), PostId) == RemoveAt(Ids(posts, PostId), i);
      posts := RemoveAt(posts, i);
    }

    /** `Comment.deleteMany`: only the comments `keep` accepts stay. */
    method KeepComments(keep: CommentModel.Comment -> bool)
      requires Valid()
      modifies this`comments
      ensures Valid() && comments == Filter(old(comments), keep)
      ensures posts == old(posts) && likes == old(likes) && users == old(users)
    {
      var r := Filter(comments, keep);
      CommentModel.FilterKeepsInvariant(comments, keep);
      forall k | 0 <= k < |r|
        ensures r[k].id < nextId
      {
        assert r[k] in comments;
        var m :| 0 <= m < |comments| && comments[m] == r[k];
        assert Ids(comments, CommentId)[m] == r[k].id;
      }
      comments := r;
    }

    /** `Comment.create`: the comment gets a fresh ObjectId and is stored. */
    method InsertComment(c: CommentModel.Comment) returns (stored: CommentModel.Comment)
      requires Valid() && CommentModel.StoredForm(c)
      modifies this
      ensures Valid()
      ensures stored == c.(id := old(nextId))
      ensures forall i :: 0 <= i < |old(comments)| ==> old(comments)[i].id != stored.id
      ensures comments == old(comments) + [stored]
      ensures posts == old(posts) && likes == old(likes) && users == old(users)
    {
      stored := c.(id := nextId);
      assert forall i :: 0 <= i < |comments| ==> comments[i].id != stored.id by {
        assert Below(Ids(comments, CommentId), nextId);
      }
      BelowAppend(Ids(comments, CommentId), nextId);
      assert Ids(comments + [stored], CommentId) == Ids(comments, CommentId) + [nextId];
      comments, nextId := comments + [stored], nextId + 1;
    }

    /** `findOneAndUpdate` on a comment: the row at `i` becomes `c`, which keeps the id. */
    method ReplaceComment(i: nat, c: CommentModel.Comment)
      requires Valid() && i < |comments| && CommentModel.StoredForm(c) && c.id == comments[i].id
      modifies this`comments
      ensures Valid() && comments == old(comments)[i := c]
      ensures posts == old(posts) && likes == old(likes) && users == old(users)
    {
      assert Ids(comments[i := c], CommentId) == Ids(comments, CommentId);
      comments := comments[i := c];
    }

    /** A delete by id on the Comment collection: the row at `i` goes. */
    method RemoveComment(i: nat)
      requires Valid() && i < |comments|
      modifies this`comments
      ensures Valid() && comments == RemoveAt(old(comments), i)
      ensures posts == old(posts) && likes == old(likes) && users == old(users)
    {
      CommentModel.RemoveKeepsInvariant(comments, i);
      BelowRemove(Ids(comments, CommentId), i, nextId);
      assert Ids(RemoveAt(comments, i), CommentId) == RemoveAt(Ids(comments, CommentId), i);
      comments := RemoveAt(comments, i);
    }

    /** `Like.create` for a user and a post or a comment the user has not liked yet. */
    method InsertLike(l: LikeModel.Like) returns (stored: LikeModel.Like)
      requires Valid()
      requires || (l.postId.Some? && l.commentId.None? && LikeModel.PostLikeIndex(likes, l.userId, l.postId.value).None?)
               || (l.commentId.Some? && l.postId.None? && LikeModel.CommentLikeIndex(likes, l.userId, l.commentId.value).None?)
      modifies this
      ensures Valid()
      ensures stored == l.(id := old(nextId))
      ensures likes == old(likes) + [stored]
      ensures posts == old(posts) && comments == old(comments) && users == old(users)
    {
      stored := l.(id := nextId);
      assert forall i :: 0 <= i < |likes| ==> likes[i].id != stored.id by {
        assert Below(Ids(likes, LikeId), nextId);
      }
      if l.postId.Some? {
        assert LikeModel.PostLikeIndex(likes, stored.userId, stored.postId.value).None?;
        LikeModel.AddPostLikeKeepsInvariant(likes, stored);
      } else {
        assert LikeModel.CommentLikeIndex(likes, stored.userId, stored.commentId.value).None?;
        LikeModel.AddCommentLikeKeepsInvariant(likes, stored);
      }
      BelowAppend(Ids(likes, LikeId), nextId);
      assert Ids(likes + [stored], LikeId) == Ids(likes, LikeId) + [nextId];
      likes, nextId := likes + [stored], nextId + 1;
    }

    /** `Like.deleteMany`: only the likes `keep` accepts stay. */
    method KeepLikes(keep: LikeModel.Like -> bool)
      requires Valid()
      modifies this`likes
      ensures Valid() && likes == Filter(old(likes), keep)
      ensures posts == old(posts) && comments == old(comments) && users == old(users)
    {
      var r := Filter(likes, keep);
      LikeModel.FilterKeepsInvariant(likes, keep);
      forall k | 0 <= k < |r|
        ensures r[k].id < nextId
      {
        assert r[k] in likes;
        var m :| 0 <= m < |likes| && likes[m] == r[k];
        assert Ids(likes, LikeId)[m] == r[k].id;
      }
      likes := r;
    }

    /** `findOneAndDelete` on a like: the row at `i` goes. */
    method RemoveLike(i: nat)
      requires Valid() && i < |likes|
      modifies this`likes
      ensures Valid() && likes == RemoveAt(old(likes), i)
      ensures posts == old(posts) && comments == old(comments) && users == old(users)
    {
      LikeModel.RemoveKeepsInvariant(likes, i);
      BelowRemove(Ids(likes, LikeId), i, nextId);
      assert Ids(RemoveAt(likes, i), LikeId) == RemoveAt(Ids(likes, LikeId), i);
      likes := RemoveAt(likes, i);
    }
  }
}
