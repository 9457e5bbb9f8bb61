/** The comment controllers: the admin listing of every comment, the paged
    listing under one post with its like fields, and creation, update and the
    two deletions. Ownership failures answer 404 like a missing comment. */
module CommentControllers {
  import opened Outcomes
  import opened Tables
  import opened Text
  import opened Listing
  import opened CommentModel
  import opened LikeModel
  import opened Users
  import PostModel
  import opened Store

  // ------------------------------------------------------------- allComments

  /** A row of allComments: the comment's own fields, the username of its
      author and the title of its post. */
  datatype AdminComment = AdminComment(id: Id, content: string, createdAt: int, updatedAt: int,
                                       postId: Id, username: string, postTitle: string)

  /** One comment through the user and post lookups, both `$unwind`s and the
      `$project`; None when its author or its post is gone. */
  function AdminRow(users: seq<User>, posts: seq<PostModel.Post>, c: Comment): (r: Option<AdminComment>)
    ensures r.Some? <==> FindUser(users, c.userId).Some? && PostModel.FindPost(posts, c.postId).Some?
    ensures r.Some? ==>
              && r.value.id == c.id && r.value.content == c.content && r.value.postId == c.postId
              && r.value.createdAt == c.createdAt && r.value.updatedAt == c.updatedAt
              && r.value.username == FindUser(users, c.userId).value.username
              && r.value.postTitle == PostModel.FindPost(posts, c.postId).value.title
  {
    match FindUser(users, c.userId)
    case None => None
    case Some(u) =>
      match PostModel.FindPost(posts, c.postId)
      case None => None
      case Some(p) => Some(AdminComment(c.id, c.content, c.createdAt, c.updatedAt, c.postId, u.username, p.title))
  }

  /** `$sort: { updatedAt: -1 }` on the projected rows. */
  function AdminKey(a: AdminComment): Rank {
    Rank(a.updatedAt, 0)
  }

  /** allComments: every comment whose author and post both exist, most
      recently updated first. */
  function AllComments(comments: seq<Comment>, users: seq<User>, posts: seq<PostModel.Post>)
    : (r: seq<AdminComment>)
    ensures SortedDesc(r, AdminKey)
    ensures forall a :: a in r ==> exists c :: c in comments && AdminRow(users, posts, c) == Some(a)
    ensures forall c :: c in comments && AdminRow(users, posts, c).Some? ==> AdminRow(users, posts, c).value in r
    ensures |r| <= |comments|
    ensures |r| == |comments| <==> forall c :: c in comments ==> AdminRow(users, posts, c).Some?
    ensures |r| == |Filter(comments, Joinable(users, posts))|
  {
    var sorted := SortDesc(comments, RecentlyUpdatedFirst);
    var join := (c: Comment) => AdminRow(users, posts, c);
    SameMembers(sorted, comments);
    UnwindSorted(sorted, join, RecentlyUpdatedFirst, AdminKey);
    FilterSameTest(sorted, Matched(join), Joinable(users, posts));
    FilterPermutation(sorted, comments, Joinable(users, posts));
    Unwind(sorted, join)
  }

  /** Whether a comment's author and post both still exist. */
  function Joinable(users: seq<User>, posts: seq<PostModel.Post>): (Comment -> bool) {
    (c: Comment) => AdminRow(users, posts, c).Some?
  }

  /** A permutation has the same members. */
  lemma SameMembers<T>(s: seq<T>, t: seq<T>)
    requires multiset(s) == multiset(t)
    ensures forall c :: c in s <==> c in t
  {
    forall c
      ensures c in s <==> c in t
    {
      assert c in s <==> c in multiset(s);
      assert c in t <==> c in multiset(t);
    }
  }

  // ------------------------------------------------------ getCommentsForPost

  /** The author as the listing projects it. */
  datatype Author = Author(id: Id, username: string, avatar: string)

  /** A comment as the per-post listing shows it. */
  datatype CommentView = CommentView(id: Id, content: string, createdAt: int, updatedAt: int,
                                     likesCount: nat, isLiked: bool, user: Author)

  /** One comment through the user lookup and `$unwind`, the likes lookup,
      `$addFields` and `$project`; None when its author is gone. */
  function ViewRow(users: seq<User>, likes: seq<Like>, viewer: Id, c: Comment): (r: Option<CommentView>)
    ensures r.Some? <==> FindUser(users, c.userId).Some?
    ensures r.Some? ==>
              && r.value.id == c.id && r.value.content == c.content
              && r.value.createdAt == c.createdAt && r.value.updatedAt == c.updatedAt
              && r.value.likesCount == |LikesOnComment(likes, c.id)|
              && (r.value.isLiked <==>
                    exists i :: 0 <= i < |likes| && likes[i].userId == viewer && OnComment(likes[i], c.id))
              && r.value.user.id == c.userId
              && r.value.user.username == FindUser(users, c.userId).value.username
              && r.value.user.avatar == FindUser(users, c.userId).value.avatar
  {
    match FindUser(users, c.userId)
    case None => None
    case Some(u) =>
      var e := CommentEngagement(likes, c.id, viewer);
      Some(CommentView(c.id, c.content, c.createdAt, c.updatedAt, e.likesCount, e.isLiked,
                       Author(u.id, u.username, u.avatar)))
  }

  /** `$sort: { createdAt: -1 }` on the projected rows. */
  function ViewNewestFirst(v: CommentView): Rank {
    Rank(v.createdAt, 0)
  }

  /** `v` is how the listing of post `postId` shows one of its comments. */
  predicate Shows(comments: seq<Comment>, users: seq<User>, likes: seq<Like>, postId: Id, viewer: Id, v: CommentView) {
    exists c :: c in comments && c.postId == postId && ViewRow(users, likes, viewer, c) == Some(v)
  }

  /** The stages before `$skip`: the post's comments whose author exists,
      with their like fields, newest first. */
  function PostCommentViews(comments: seq<Comment>, users: seq<User>, likes: seq<Like>, postId: Id, viewer: Id)
    : (r: seq<CommentView>)
    ensures SortedDesc(r, ViewNewestFirst)
    ensures forall v :: v in r <==> Shows(comments, users, likes, postId, viewer, v)
    ensures |r| <= |CommentsOfPost(comments, postId)|
    ensures |r| == |CommentsOfPost(comments, postId)| <==>
              forall c :: c in comments && c.postId == postId ==> FindUser(users, c.userId).Some?
    ensures |r| == |Filter(CommentsOfPost(comments, postId), Authored(users))|
  {
    var joined := Unwind(CommentsOfPost(comments, postId), ViewJoin(users, likes, viewer));
    JoinedViews(comments, users, likes, postId, viewer);
    var r := SortDesc(joined, ViewNewestFirst);
    SameMembers(r, joined);
    r
  }

  /** The per-comment lookups of the listing as one join. */
  function ViewJoin(users: seq<User>, likes: seq<Like>, viewer: Id): (Comment -> Option<CommentView>) {
    (c: Comment) => ViewRow(users, likes, viewer, c)
  }

  /** What the joins leave before the `$sort`: the rows the listing shows, one
      per comment of the post whose author exists. */
  lemma JoinedViews(comments: seq<Comment>, users: seq<User>, likes: seq<Like>, postId: Id, viewer: Id)
    ensures var ofPost := CommentsOfPost(comments, postId);
            var joined := Unwind(ofPost, ViewJoin(users, likes, viewer));
            && (forall v :: v in joined <==> Shows(comments, users, likes, postId, viewer, v))
            && |joined| == |Filter(ofPost, Authored(users))| <= |ofPost|
            && (|joined| == |ofPost| <==>
                  forall c :: c in comments && c.postId == postId ==> FindUser(users, c.userId).Some?)
  {
    var ofPost := CommentsOfPost(comments, postId);
    FilterSameTest(ofPost, Matched(ViewJoin(users, likes, viewer)), Authored(users));
  }

  /** Whether a comment's author still exists. */
  function Authored(users: seq<User>): (Comment -> bool) {
    (c: Comment) => FindUser(users, c.userId).Some?
  }

  /** The response of getCommentsForPost. */
  datatype CommentPage = CommentPage(comments: seq<CommentView>, currentPage: int, totalPages: nat, totalComments: nat)

  /** The `$skip`/`$limit` stages and the response fields over the listed
      comments and the counted total. */
  function CommentPageFrom(listed: seq<CommentView>, total: nat, pageQ: Option<int>, limitQ: Option<int>)
    : (r: Outcome<CommentPage>)
    ensures r.Ok? || r.ServerError?
    ensures r.Ok? <==> OrDefault(pageQ, 1) >= 1 && OrDefault(limitQ, 2) >= 1
    ensures r.Ok? ==>
              var page, limit := OrDefault(pageQ, 1), OrDefault(limitQ, 2);
              && IsPage(r.value.comments, listed, (page - 1) * limit, limit)
              && r.value.currentPage == page
              && r.value.totalComments == total
              && r.value.totalPages == CeilDiv(total, limit)
  {
    var page, limit := OrDefault(pageQ, 1), OrDefault(limitQ, 2);
    match PageWindow(page, limit)
    case None => ServerError
    case Some(w) => Ok(CommentPage(Page(listed, w.skip, w.limit), page, CeilDiv(total, limit), total))
  }

  /** The listed comment at index `k` is on page `k / limit + 1`. */
  lemma CommentPageOf(listed: seq<CommentView>, total: nat, k: nat, limit: int)
    requires k < |listed| && limit >= 1
    ensures k / limit + 1 >= 1
    ensures var r := CommentPageFrom(listed, total, Some(k / limit + 1), Some(limit));
            r.Ok? && listed[k] in r.value.comments
  {
    var page := k / limit + 1;
    assert OrDefault(Some(page), 1) == page && OrDefault(Some(limit), 2) == limit;
    var r := CommentPageFrom(listed, total, Some(page), Some(limit));
    assert r.Ok? && IsPage(r.value.comments, listed, (page - 1) * limit, limit);
    PageCovers(r.value.comments, listed, k, page, limit);
  }

  /** getCommentsForPost: one page of the post's listed comments. The total
      is `countDocuments` on the post, so it also counts the comments the
      user join dropped. */
  function GetCommentsForPost(comments: seq<Comment>, users: seq<User>, likes: seq<Like>, postId: Id, viewer: Id,
                              pageQ: Option<int>, limitQ: Option<int>)
    : (r: Outcome<CommentPage>)
    ensures r.Ok? || r.ServerError?
    ensures r.Ok? <==> OrDefault(pageQ, 1) >= 1 && OrDefault(limitQ, 2) >= 1
    ensures r.Ok? ==>
              var page, limit := OrDefault(pageQ, 1), OrDefault(limitQ, 2);
              && IsPage(r.value.comments, PostCommentViews(comments, users, likes, postId, viewer), (page - 1) * limit, limit)
              && (forall v :: v in r.value.comments ==> Shows(comments, users, likes, postId, viewer, v))
              && SortedDesc(r.value.comments, ViewNewestFirst)
              && |r.value.comments| <= limit
              && r.value.currentPage == page
              && r.value.totalComments == |CommentsOfPost(comments, postId)|
              && r.value.totalPages == CeilDiv(r.value.totalComments, limit)
  {
    var listed := PostCommentViews(comments, users, likes, postId, viewer);
    var r := CommentPageFrom(listed, |CommentsOfPost(comments, postId)|, pageQ, limitQ);
    if r.Ok? then
      var page, limit := OrDefault(pageQ, 1), OrDefault(limitQ, 2);
      PageSorted(r.value.comments, listed, (page - 1) * limit, limit, ViewNewestFirst);
      PageWithin(r.value.comments, listed, (page - 1) * limit, limit);
      r
    else r
  }

  /** `v` is on page `page` of `limit` comments. */
  predicate OnCommentPage(comments: seq<Comment>, users: seq<User>, likes: seq<Like>, postId: Id, viewer: Id,
                          v: CommentView, page: int, limit: int) {
    var r := GetCommentsForPost(comments, users, likes, postId, viewer, Some(page), Some(limit));
    r.Ok? && v in r.value.comments
  }

  /** Paging through a post's comments reaches every comment of the post
      whose author exists. */
  lemma CommentsReachEveryListed(comments: seq<Comment>, users: seq<User>, likes: seq<Like>, postId: Id,
                                 viewer: Id, c: Comment, limit: int)
    requires c in comments && c.postId == postId && FindUser(users, c.userId).Some? && limit >= 1
    ensures exists page :: page >= 1 &&
              OnCommentPage(comments, users, likes, postId, viewer, ViewRow(users, likes, viewer, c).value, page, limit)
  {
    var listed := PostCommentViews(comments, users, likes, postId, viewer);
    var total := |CommentsOfPost(comments, postId)|;
    var v := ViewRow(users, likes, viewer, c).value;
    assert v in listed;
    var k :| 0 <= k < |listed| && listed[k] == v;
    CommentPageOf(listed, total, k, limit);
    assert OnCommentPage(comments, users, likes, postId, viewer, v, k / limit + 1, limit);
  }

  /** A post whose only comment has lost its author: the first page is empty,
      yet the response counts one comment on one page. */
  lemma OrphanCountedNotListed(c: Comment, likes: seq<Like>, viewer: Id)
    ensures var r := GetCommentsForPost([c], [], likes, c.postId, viewer, None, None);
            r == Ok(CommentPage([], 1, 1, 1))
  {
    var listed := PostCommentViews([c], [], likes, c.postId, viewer);
    assert c in CommentsOfPost([c], c.postId);
    assert |CommentsOfPost([c], c.postId)| == 1;
  }

  // ----------------------------------------------------------- createComment

  /** createComment: `Comment.create` with the requester as author. The
      post is not looked up, so a comment may name a post that does not
      exist. A missing post id or content, or content that trims to nothing,
      fails the `required` validators. */
  method CreateComment(db: Db, userId: Id, postId: Option<Id>, content: Option<string>, now: int)
    returns (r: Outcome<Comment>)
    requires db.Valid()
    modifies db
    ensures db.Valid()
    ensures db.posts == old(db.posts) && db.likes == old(db.likes) && db.users == old(db.users)
    ensures r.Ok? || r.ServerError?
    ensures r.Ok? <==> postId.Some? && content.Some? && Trim(content.value) != []
    ensures r.ServerError? ==> db.comments == old(db.comments)
    ensures r.Ok? ==>
              && db.comments == old(db.comments) + [r.value]
              && (forall i :: 0 <= i < |old(db.comments)| ==> old(db.comments)[i].id != r.value.id)
              && r.value.userId == userId && r.value.postId == postId.value
              && r.value.content == Trim(content.value)
              && r.value.createdAt == now && r.value.updatedAt == now
  {
    if postId.None? || content.None? || Trim(content.value) == [] {
      return ServerError;
    }
    var stored := db.InsertComment(Comment(0, userId, postId.value, Trim(content.value), now, now));
    r := Ok(stored);
  }

  // ----------------------------------------------------------- updateComment

  /** The filter `{ _id: commentId, userId }`: the comment only if the
      requester wrote it. */
  function OwnedIndex(comments: seq<Comment>, commentId: Id, userId: Id): Option<nat> {
    FirstIndex(comments, (c: Comment) => c.id == commentId && c.userId == userId)
  }

  /** The requester wrote a comment with this id. */
  predicate Owns(comments: seq<Comment>, commentId: Id, userId: Id) {
    exists i :: 0 <= i < |comments| && comments[i].id == commentId && comments[i].userId == userId
  }

  /** The filter finds a comment exactly when the requester owns one with that id. */
  lemma OwnedIndexFinds(comments: seq<Comment>, commentId: Id, userId: Id)
    ensures OwnedIndex(comments, commentId, userId).Some? <==> Owns(comments, commentId, userId)
    ensures OwnedIndex(comments, commentId, userId).Some? ==>
              var i := OwnedIndex(comments, commentId, userId).value;
              i < |comments| && comments[i].id == commentId && comments[i].userId == userId
  {
    var found := OwnedIndex(comments, commentId, userId);
    if found.None? {
      forall i | 0 <= i < |comments|
        ensures !(comments[i].id == commentId && comments[i].userId == userId)
      {
      }
    }
  }

  /** updateComment: the content (through the trim setter; no validators run
      on an update) and the update time of the requester's own comment. */
  method UpdateComment(db: Db, userId: Id, commentId: Id, content: string, now: int)
    returns (r: Outcome<Comment>)
    requires db.Valid()
    modifies db
    ensures db.Valid()
    ensures db.posts == old(db.posts) && db.likes == old(db.likes) && db.users == old(db.users)
    ensures r.Ok? || r.NotFound?
    ensures r.NotFound? <==> !Owns(old(db.comments), commentId, userId)
    ensures r.NotFound? ==> db.comments == old(db.comments)
    ensures r.Ok? ==>
              var i := OwnedIndex(old(db.comments), commentId, userId).value;
              && r.value.id == commentId && r.value.userId == userId
              && r.value == old(db.comments)[i].(content := Trim(content), updatedAt := now)
              && db.comments == old(db.comments)[i := r.value]
  {
    OwnedIndexFinds(db.comments, commentId, userId);
    var found := OwnedIndex(db.comments, commentId, userId);
    if found.None? {
      return NotFound;
    }
    var i := found.value;
    var updated := db.comments[i].(content := Trim(content), updatedAt := now);
    db.ReplaceComment(i, updated);
    r := Ok(updated);
  }

  // ----------------------------------------------------------- deleteComment

  /** deleteComment: removes the requester's own comment. Likes on it stay. */
  method DeleteComment(db: Db, userId: Id, commentId: Id) returns (r: Outcome<Comment>)
    requires db.Valid()
    modifies db
    ensures db.Valid()
    ensures db.posts == old(db.posts) && db.likes == old(db.likes) && db.users == old(db.users)
    ensures r.Ok? || r.NotFound?
    ensures r.NotFound? <==> !Owns(old(db.comments), commentId, userId)
    ensures r.NotFound? ==> db.comments == old(db.comments)
    ensures r.Ok? ==>
              var i := OwnedIndex(old(db.comments), commentId, userId).value;
              && r.value == old(db.comments)[i] && r.value.userId == userId
              && db.comments == RemoveAt(old(db.comments), i)
              && (forall k :: 0 <= k < |db.comments| ==> db.comments[k].id != commentId)
  {
    OwnedIndexFinds(db.comments, commentId, userId);
    var found := OwnedIndex(db.comments, commentId, userId);
    if found.None? {
      return NotFound;
    }
    var i := found.value;
    r := Ok(db.comments[i]);
    RemovedIdGone(db.comments, i);
    db.RemoveComment(i);
  }

  /** deleteCommentAdmin: removes the comment whoever wrote it. Likes on it stay. */
  method DeleteCommentAdmin(db: Db, commentId: Id) returns (r: Outcome<Comment>)
    requires db.Valid()
    modifies db
    ensures db.Valid()
    ensures db.posts == old(db.posts) && db.likes == old(db.likes) && db.users == old(db.users)
    ensures r.Ok? || r.NotFound?
    ensures r.NotFound? <==> IndexOfId(old(db.comments), commentId).None?
    ensures r.NotFound? ==> db.comments == old(db.comments)
    ensures r.Ok? ==>
              var i := IndexOfId(old(db.comments), commentId).value;
              && r.value == old(db.comments)[i]
              && db.comments == RemoveAt(old(db.comments), i)
              && (forall k :: 0 <= k < |db.comments| ==> db.comments[k].id != commentId)
  {
    var found := IndexOfId(db.comments, commentId);
    if found.None? {
      return NotFound;
    }
    var i := found.value;
    r := Ok(db.comments[i]);
    RemovedIdGone(db.comments, i);
    db.RemoveComment(i);
  }

  /** With unique ids, removing a comment leaves no comment with its id. */
  lemma RemovedIdGone(comments: seq<Comment>, i: nat)
    requires CommentModel.UniqueIds(comments) && i < |comments|
    ensures forall k :: 0 <= k < |RemoveAt(comments, i)| ==> RemoveAt(comments, i)[k].id != comments[i].id
  {
    var r := RemoveAt(comments, i);
    forall k | 0 <= k < |r|
      ensures r[k].id != comments[i].id
    {
      var k' := if k < i then k else k + 1;
      assert r[k] == comments[k'] && k' != i;
    }
  }
}
