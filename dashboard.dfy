/** The admin dashboard: the size of each collection and the five most
    recent users, comments and posts. It only reads. */
module Dashboard {
  import opened Tables
  import opened Listing
  import opened Outcomes
  import opened Users
  import opened CommentModel
  import PostModel
  import CommentControllers

  /** The documents `[{ $count: "total" }]` yields: none for an empty
      collection, otherwise one holding the size. */
  function CountStage(size: nat): (docs: seq<nat>)
    ensures |docs| <= 1 && (docs == [] <==> size == 0)
  {
    if size == 0 then [] else [size]
  }

  /** `count[0]?.total || 0`. */
  function FirstOrZero(docs: seq<nat>): nat {
    if docs == [] then 0 else docs[0]
  }

  /** The count the dashboard reports is the size of the collection; an
      empty collection reports 0 rather than a missing field. */
  function Count(size: nat): (n: nat)
    ensures n == size
  {
    FirstOrZero(CountStage(size))
  }

  /** `{ $limit: 5 }`. */
  const RecentLimit: nat := 5

  /** A user as the dashboard projects it: `_id`, username and email. */
  datatype RecentUser = RecentUser(id: Id, username: string, email: string)

  /** A post as the dashboard projects it. The projection also names an
      `author` field that the Post schema does not have, so only `_id` and
      the title come out. */
  datatype RecentPost = RecentPost(id: Id, title: string)

  /** `$sort: { createdAt: -1 }` on posts; unlike the post listing there is
      no `_id` tie-break. */
  function PostNewestFirst(p: PostModel.Post): Rank {
    Rank(p.createdAt, 0)
  }

  /** recentUsers: the five newest users, projected. */
  function RecentUsers(users: seq<User>): (r: seq<RecentUser>)
    ensures |r| == Min(RecentLimit, |users|)
    ensures var top := Top(users, Users.NewestFirst, RecentLimit);
            forall i :: 0 <= i < |r| ==>
              top[i] in users && r[i] == RecentUser(top[i].id, top[i].username, top[i].email)
  {
    var top := Top(users, Users.NewestFirst, RecentLimit);
    seq(|top|, i requires 0 <= i < |top| => RecentUser(top[i].id, top[i].username, top[i].email))
  }

  /** recentPosts: the five newest posts, projected. */
  function RecentPosts(posts: seq<PostModel.Post>): (r: seq<RecentPost>)
    ensures |r| == Min(RecentLimit, |posts|)
    ensures var top := Top(posts, PostNewestFirst, RecentLimit);
            forall i :: 0 <= i < |r| ==> top[i] in posts && r[i] == RecentPost(top[i].id, top[i].title)
  {
    var top := Top(posts, PostNewestFirst, RecentLimit);
    seq(|top|, i requires 0 <= i < |top| => RecentPost(top[i].id, top[i].title))
  }

  /** `$sort: { createdAt: -1 }` as the projected rows carry it. */
  function RowNewestFirst(a: CommentControllers.AdminComment): Rank {
    Rank(a.createdAt, 0)
  }

  /** recentComments: the five newest comments are taken first and only
      then joined, so a comment whose author or post is gone takes one of
      the five places and drops out, leaving fewer than five rows even when
      older comments could have filled them. */
  function RecentComments(comments: seq<Comment>, users: seq<User>, posts: seq<PostModel.Post>)
    : (r: seq<CommentControllers.AdminComment>)
    ensures var top := Top(comments, CommentModel.NewestFirst, RecentLimit);
            && |r| <= |top| <= RecentLimit
            && (|r| == |top| <==> forall c :: c in top ==> CommentControllers.AdminRow(users, posts, c).Some?)
            && (forall a :: a in r ==> exists c :: c in top && CommentControllers.AdminRow(users, posts, c) == Some(a))
            && (forall c :: c in top && CommentControllers.AdminRow(users, posts, c).Some? ==>
                  CommentControllers.AdminRow(users, posts, c).value in r)
            && |r| == |Filter(top, CommentControllers.Joinable(users, posts))|
    ensures SortedDesc(r, RowNewestFirst)
  {
    var top := Top(comments, CommentModel.NewestFirst, RecentLimit);
    var join := (c: Comment) => CommentControllers.AdminRow(users, posts, c);
    UnwindSorted(top, join, CommentModel.NewestFirst, RowNewestFirst);
    FilterSameTest(top, Matched(join), CommentControllers.Joinable(users, posts));
    Unwind(top, join)
  }

  /** A user who signed up strictly after everyone else heads recentUsers. */
  lemma NewestUserListedFirst(users: seq<User>, u: User)
    requires u in users
    requires forall v :: v in users && v != u ==> v.createdAt < u.createdAt
    ensures RecentUsers(users) != []
    ensures RecentUsers(users)[0] == RecentUser(u.id, u.username, u.email)
  {
    TopFirst(users, Users.NewestFirst, RecentLimit, u);
  }

  /** A comment written strictly after every other one heads
      recentComments, provided its author and post both exist. */
  lemma NewestCommentListedFirst(comments: seq<Comment>, users: seq<User>, posts: seq<PostModel.Post>, c: Comment)
    requires c in comments
    requires forall d :: d in comments && d != c ==> d.createdAt < c.createdAt
    requires CommentControllers.AdminRow(users, posts, c).Some?
    ensures RecentComments(comments, users, posts) != []
    ensures RecentComments(comments, users, posts)[0] == CommentControllers.AdminRow(users, posts, c).value
  {
    TopFirst(comments, CommentModel.NewestFirst, RecentLimit, c);
  }

  /** The dashboard's response body. */
  datatype DashboardData = DashboardData(
    userCount: nat, commentCount: nat, postCount: nat,
    recentUsers: seq<RecentUser>,
    recentComments: seq<CommentControllers.AdminComment>,
    recentPosts: seq<RecentPost>)

  /** fetchDashboardData. */
  function FetchDashboardData(users: seq<User>, comments: seq<Comment>, posts: seq<PostModel.Post>)
    : (d: DashboardData)
    ensures d.userCount == |users| && d.commentCount == |comments| && d.postCount == |posts|
    ensures |d.recentUsers| <= RecentLimit && |d.recentComments| <= RecentLimit && |d.recentPosts| <= RecentLimit
    ensures d.recentUsers == RecentUsers(users)
    ensures d.recentComments == RecentComments(comments, users, posts)
    ensures d.recentPosts == RecentPosts(posts)
  {
    DashboardData(Count(|users|), Count(|comments|), Count(|posts|),
                  RecentUsers(users), RecentComments(comments, users, posts), RecentPosts(posts))
  }
}
