# BlogSpace data layer, modelled in Dafny

This project models the server-side data layer of the BlogSpace blog. It covers four collections, Post, Comment, Like and User, and the controllers that read and write them:

- **Posts:** the listing, the single read with its like fields, creation and update with the slug-uniqueness loop, the image replacement, deletion and search.
- **Comments:** the admin listing, the paged per-post listing with like fields, creation, the owner-only update and delete, and the admin delete.
- **Likes:** the like/unlike state machine per (user, post) and per (user, comment) pair.
- **Cascade hook:** the `pre('deleteOne')` hook on posts, meant to delete a post's comments and likes.
- **Dashboard:** the collection counts and the five most recent users, comments and posts.

Modules:

- **Schemas:** `PostModel`, `CommentModel`, `LikeModel` and `Users` hold the records, the effect of the schemas' `trim` setters and `required` validators, and the uniqueness rules.
- **Store:** the class `Store.Db` holds the collections as `seq` fields, in insertion order, plus a fresh-id counter. Every write keeps `Db.Valid()`, which means:
  - unique ids in every collection, users included, and unique titles and slugs;
  - trimmed stored fields;
  - at most one like per (user, target), and exactly one target per like.
- **Write handlers:** methods on a `Db` (`modifies db`). Each states the whole new state of the collections and the answer it gives.
- **Read handlers** (aggregation pipelines): functions over the collections. They are specified by what they keep, their order, their paging and their counts.
- **Shared helpers:**
  - `Tables`: first match, remove, filter, and `$lookup` + `$unwind` as `Unwind`.
  - `Listing`: descending sort, `$skip`/`$limit`, `Math.ceil`, and `parseInt(q) || default`.
  - `Text`: JavaScript `trim`, `split`, lower-casing and decimal digits.
- **Answers:** `Outcomes.Outcome` is `Ok | NotFound | BadRequest | ServerError`. An `ApiError(404)` is `NotFound` and an `ApiError(400)` or a 400 reply is `BadRequest`. Everything that ends in a 500 is `ServerError`: an `ApiError(500)`, a thrown `TypeError`, a validation error, and a duplicate-key error.

Parameters and modelling choices:

- **Parameters instead of I/O:**
  - `slugify` is a function parameter.
  - The clock read by the slug loop is `clock: nat -> nat`, with one reading per retry.
  - Record timestamps come from a `now` parameter.
  - `parseInt` of a query parameter is an `Option<int>`, where `None` stands for missing or NaN.
  - An image upload's result is an `Option<string>` URL.
  - The image deletion a handler requests is returned as a `BlobCall` value.
- **Paging:** a page below 1, or a limit below 1 after defaulting, is a `ServerError`, because the store rejects a negative `$skip` and a non-positive `$limit`.

In these places the model follows the code as written:

- `createComment` does not check that the post exists.
- The slug suffixes pile up (`base-t1-1-t2-2…`) instead of being appended to the base.
- `updatePostData` regenerates the slug whenever a title is supplied, even an unchanged one.
- `deletePost` deletes the post row alone, with no cascade (see Findings).

## Model

| member | source | states |
|---|---|---|
| Text.Trim | server/src/models/post.models.js:8 | the `trim` setter leaves a string with no leading or trailing white space, no longer than the input |
| Text.TrimOfTrimmed | server/src/models/post.models.js:8 | trimming a stored (already trimmed) value changes nothing |
| Text.TrimAppend | server/src/controllers/post.controllers.js:140 | trimming a candidate with a suffix that ends in a digit keeps the whole suffix, so trimmed slug candidates grow |
| Text.Split | server/src/controllers/post.controllers.js:116 | `split(",")` gives at least one piece, none containing the separator, and joining them back gives the input |
| Text.SplitJoin | server/src/controllers/post.controllers.js:116 | splitting the join of separator-free pieces gives the pieces back |
| Text.Lower | server/src/controllers/post.controllers.js:317 | the `$options: "i"` case folding maps A–Z to a–z and leaves every other character alone |
| Text.Decimal | server/src/controllers/post.controllers.js:140 | the decimal text of a number in a slug suffix is non-empty, all digits, and has no leading zero |
| Text.DecimalRoundTrip | server/src/controllers/post.controllers.js:140 | reading the decimal text of a number back gives the number |
| Tables.FirstIndex | server/src/controllers/like.controllers.js:21 | `findOne` finds the first matching row, and finds none exactly when no row matches |
| Tables.RemoveAt | server/src/controllers/like.controllers.js:69-72 | `findOneAndDelete` removes exactly the one row and keeps the others in order |
| Tables.Filter | server/src/models/post.models.js:51 | `deleteMany` keeps exactly the rows its filter does not match |
| Tables.FilterCount | server/src/controllers/post.controllers.js:337 | filtering keeps every accepted row as often as it occurred and no other |
| Tables.FilterPermutation | server/src/controllers/post.controllers.js:337 | the count of matching posts does not depend on the order the pipeline sorted them into |
| Tables.FilterPairwise | server/src/models/post.models.js:43-51 | a uniqueness rule between rows survives any `deleteMany` |
| Tables.Unwind | server/src/controllers/comment.controllers.js:71-81 | `$lookup` + `$unwind` keep exactly the rows whose join finds a match: one output row per matching input row, every match's joined value present and nothing else; no rows are lost exactly when every row finds one |
| Listing.SortDesc | server/src/controllers/post.controllers.js:20-27 | `$sort` descending gives a sorted permutation of its input |
| Listing.FilterSorted | server/src/controllers/post.controllers.js:313-334 | a `$match` after a `$sort` keeps the order |
| Listing.UnwindSorted | server/src/controllers/comment.controllers.js:8-35 | joins after a `$sort` keep the order when the projected key is the row's key |
| Listing.Page | server/src/controllers/post.controllers.js:30-31 | `$skip` then `$limit` give the window of the listing at that offset, empty past the end |
| Listing.PageUnique | server/src/controllers/post.controllers.js:30-31 | a window of a listing has one possible content |
| Listing.PageCovers | server/src/controllers/post.controllers.js:16 | with skip `(page - 1) * limit`, the item at index k is on page `k / limit + 1` |
| Listing.PageWithin | server/src/controllers/post.controllers.js:30-31 | a page holds only items of the listing |
| Listing.PageSorted | server/src/controllers/post.controllers.js:30-31 | a page of a sorted listing is sorted |
| Listing.Top | server/src/controllers/dashboard.controllers.js:16-18 | `$sort` + `$limit: n` give min(n, size) rows, sorted, drawn from the input as a multiset (no row taken more often than it occurs), and no row left out ranks above one taken |
| Listing.TopFirst | server/src/controllers/dashboard.controllers.js:16-18 | a row that strictly outranks all others comes first |
| Listing.CeilDiv | server/src/controllers/post.controllers.js:43 | `Math.ceil(n / d)` is the least page count that holds n items, and 0 only for 0 items |
| Listing.OrDefault | server/src/controllers/post.controllers.js:14-15 | `parseInt(q) \|\| d` keeps a non-zero number and gives d for a missing, NaN or zero value |
| Listing.PageWindow | server/src/controllers/post.controllers.js:16 | skip and limit are accepted exactly when page and limit are at least 1, with skip `(page - 1) * limit` |
| PostModel.FindPost | server/src/controllers/comment.controllers.js:22-28 | the post lookup finds the post with that id, or reports that no post has it |
| PostModel.AppendKeepsInvariant | server/src/models/post.models.js:3-17 | a trimmed post with a fresh id, title and slug keeps unique ids, titles, slugs and stored form |
| PostModel.ReplaceKeepsInvariant | server/src/models/post.models.js:3-17 | an update that keeps the id and takes a title and slug no other post holds keeps the invariant |
| PostModel.RemoveKeepsInvariant | server/src/models/post.models.js:3-17 | deleting a post keeps the invariant |
| CommentModel.CommentsOfPost | server/src/controllers/comment.controllers.js:66-70 | `$match: { postId }` keeps exactly the comments of that post |
| CommentModel.RemoveKeepsInvariant | server/src/models/comment.models.js:3-24 | deleting a comment keeps unique ids and trimmed content |
| CommentModel.FilterKeepsInvariant | server/src/models/comment.models.js:3-24 | any `deleteMany` on comments keeps the invariant |
| LikeModel.LikesOnPost | server/src/controllers/post.controllers.js:63-70 | the likes lookup of a post is exactly the likes whose postId is the post |
| LikeModel.LikesOnComment | server/src/controllers/comment.controllers.js:83-89 | the likes lookup of a comment is exactly the likes whose commentId is the comment |
| LikeModel.PostEngagement | server/src/controllers/post.controllers.js:72-82 | likesCount counts the post's likes; isLiked holds iff the viewer owns one, which is iff the like lookup finds one |
| LikeModel.CommentEngagement | server/src/controllers/comment.controllers.js:90-97 | likesCount counts the comment's likes; isLiked holds iff the viewer owns one |
| LikeModel.AddPostLikeKeepsInvariant | server/src/controllers/like.controllers.js:21-29 | adding a post like for a pair not yet liked keeps one like per pair, one target each, unique ids |
| LikeModel.AddCommentLikeKeepsInvariant | server/src/controllers/like.controllers.js:48-56 | adding a comment like for a pair not yet liked keeps the invariant |
| LikeModel.RemoveKeepsInvariant | server/src/controllers/like.controllers.js:69-72 | removing a like keeps the invariant |
| LikeModel.FilterKeepsInvariant | server/src/models/post.models.js:43-48 | any `deleteMany` on likes keeps the invariant |
| LikeModel.UnlikePostLeavesNone | server/src/controllers/like.controllers.js:69-72 | under the invariant, after removing the pair's like the post is no longer liked by that user |
| LikeModel.UnlikeCommentLeavesNone | server/src/controllers/like.controllers.js:91 | under the invariant, after removing the pair's like the comment is no longer liked by that user |
| LikeModel.LikeThenUnlikePost | server/src/controllers/like.controllers.js:29 | the like that unlike finds after a like is the one just added, and removing it gives back the table |
| LikeModel.LikeThenUnlikeComment | server/src/controllers/like.controllers.js:56 | the same for comments |
| LikeModel.UnlikeThenLikePost | server/src/controllers/like.controllers.js:69-72 | unliking then liking a post again restores the set of (user, post, comment) triples |
| Users.FindUser | server/src/controllers/comment.controllers.js:71-81 | the user lookup finds the user with that id, or reports that none has it |
| Users.FindUserUnique | server/src/controllers/comment.controllers.js:71-81 | with unique `_id`s the user lookup finds the one user holding the id |
| Store.Db.InsertPost | server/src/controllers/post.controllers.js:151-158 | `Post.create` appends the post with a fresh id, keeps the invariant and touches no other collection |
| Store.Db.ReplacePost | server/src/controllers/post.controllers.js:210-212 | `findByIdAndUpdate` replaces exactly the one row |
| Store.Db.RemovePost | server/src/controllers/post.controllers.js:273 | `findByIdAndDelete` removes exactly the one row |
| Store.Db.KeepComments | server/src/models/post.models.js:51 | `Comment.deleteMany` leaves exactly the unmatched comments |
| Store.Db.InsertComment | server/src/controllers/comment.controllers.js:154-158 | `Comment.create` appends the comment with a fresh id |
| Store.Db.ReplaceComment | server/src/controllers/comment.controllers.js:182-186 | `findOneAndUpdate` replaces exactly the one row |
| Store.Db.RemoveComment | server/src/controllers/comment.controllers.js:206-209 | `findOneAndDelete` removes exactly the one row |
| Store.Db.InsertLike | server/src/controllers/like.controllers.js:29 | `Like.create` for an unliked pair appends the like with a fresh id |
| Store.Db.KeepLikes | server/src/models/post.models.js:43-48 | `Like.deleteMany` leaves exactly the unmatched likes |
| Store.Db.RemoveLike | server/src/controllers/like.controllers.js:69-72 | `findOneAndDelete` on a like removes exactly the one row |
| PostControllers.SortPosts | server/src/controllers/post.controllers.js:20-27 | the listing order is a permutation of the posts, by createdAt then `_id`, descending |
| PostControllers.AllPosts | server/src/controllers/post.controllers.js:12-49 | every post in listing order, or with `pagination=true` the page at `(page-1)*limit` with currentPage and `ceil(total/limit)` pages; totalPosts always counts every post; defaults 1 and 9 |
| PostControllers.AllPostsPageOf | server/src/controllers/post.controllers.js:29-32 | the post at index k of the listing is on page `k / limit + 1` |
| PostControllers.AllPostsReachesEveryPost | server/src/controllers/post.controllers.js:29-34 | paging through the listing reaches every post |
| PostControllers.GetPost | server/src/controllers/post.controllers.js:51-110 | 404 iff no post has the slug; otherwise that post, with likesCount = its likes and isLiked iff the viewer owns one of them |
| PostControllers.GetPostFindsTheSlugsPost | server/src/controllers/post.controllers.js:55-61 | with unique slugs the read returns the one post holding the slug |
| PostControllers.RetrySuffix | server/src/controllers/post.controllers.js:140 | a retry suffix starts with `-` and ends in a digit |
| PostControllers.CandidateGrows | server/src/controllers/post.controllers.js:139-143 | each trimmed candidate is strictly longer than the one before |
| PostControllers.CollisionStep | server/src/controllers/post.controllers.js:139-143 | one more collision: all candidates so far are taken, and the next is longer but the taken one is no longer than the longest slug |
| PostControllers.AllocateSlug | server/src/controllers/post.controllers.js:136-143 | the loop ends with the first candidate no other post holds, every earlier candidate having been taken |
| PostControllers.AllocatedUnique | server/src/controllers/post.controllers.js:136-143 | the slug loop can end on one slug only |
| PostControllers.CreatePost | server/src/controllers/post.controllers.js:112-172 | the checks in source order (tags, image, upload, title, duplicate title → 400); past them, a post is created exactly when content is present and the trimmed title, the allocated slug and the trimmed content are non-empty; on success exactly one post appended, with trimmed fields, split tags and the allocated slug; nothing changes otherwise |
| PostControllers.CreateResponse | server/src/controllers/post.controllers.js:113-158 | the answer once the slug is known: same check order; past it, Ok exactly when the `required` validators pass (content present, trimmed title, slug and trimmed content non-empty); a created post is trimmed and takes a free title |
| PostControllers.Updated | server/src/controllers/post.controllers.js:180-208 | only truthy title/content/timeToRead and present tags change; the slug changes only with a title; id, image and createdAt stay |
| PostControllers.UpdatePostData | server/src/controllers/post.controllers.js:174-222 | 404 iff the id is unknown; 500 iff the new title is another post's; otherwise exactly that row becomes the updated post with an allocated slug |
| PostControllers.PublicId | server/src/controllers/post.controllers.js:256-258 | the public id is the text after the last `/`, up to its first `.`, and contains neither |
| PostControllers.JoinEndsWithLast | server/src/controllers/post.controllers.js:257 | the last piece of a split is the tail of the string after its last separator |
| PostControllers.ImageRef | server/src/controllers/post.controllers.js:256-258 | an empty URL gives null, any other its public id |
| PostControllers.UpdatePostImage | server/src/controllers/post.controllers.js:224-267 | 400 iff no file; 500 for a failed upload or an unknown post; otherwise the row's image and update time change, the old image's public id is released, and the answer is the old row with the new image |
| PostControllers.DeletePost | server/src/controllers/post.controllers.js:269-295 | 404 iff the id is unknown; otherwise exactly the post row goes, comments and likes stay, and its image is released only for a non-empty public id |
| PostControllers.MatchingPage | server/src/controllers/post.controllers.js:303-350 | the search pipeline for any match: the page of accepted posts in listing order, the count of all accepted posts, and `ceil(count/limit)` pages; defaults 1 and 10 |
| PostControllers.MatchingPageOf | server/src/controllers/post.controllers.js:340-341 | the accepted post at index k is on page `k / limit + 1` |
| PostControllers.MatchingPageReaches | server/src/controllers/post.controllers.js:340-343 | paging reaches every accepted post |
| PostControllers.AcceptedIsListed | server/src/controllers/post.controllers.js:313-334 | every accepted post is among the sorted, matched posts |
| PostControllers.SearchFilter | server/src/controllers/post.controllers.js:312-334 | the match accepts a post iff the text test (only for a query that trims to non-empty; title, any tag or slug) and both optional date bounds hold |
| PostControllers.SearchPost | server/src/controllers/post.controllers.js:297-355 | the window at `(page - 1) * limit` of the accepted posts, newest first; currentPage is the page, totalPosts counts all accepted posts and totalPages is its ceiling over limit |
| PostControllers.SearchReachesEveryMatch | server/src/controllers/post.controllers.js:297-355 | every post the query accepts is on some page of the results |
| CommentControllers.AdminRow | server/src/controllers/comment.controllers.js:14-46 | a comment yields a row iff both its author and its post exist, carrying the username and the post title |
| CommentControllers.AllComments | server/src/controllers/comment.controllers.js:7-54 | rows sorted by updatedAt, each from a comment, every comment with both joins present listed, exactly one row per such comment, none lost iff every comment has both |
| CommentControllers.ViewRow | server/src/controllers/comment.controllers.js:71-112 | a comment shows iff its author exists, with likesCount = its likes, isLiked iff the viewer owns one, and the author's name and avatar |
| CommentControllers.PostCommentViews | server/src/controllers/comment.controllers.js:65-117 | exactly the post's comments whose author exists, one row each, newest first; none lost iff every author exists |
| CommentControllers.CommentPageFrom | server/src/controllers/comment.controllers.js:118-143 | the page of the listing at `(page-1)*limit`, currentPage, the counted total and `ceil(total/limit)` pages; default limit 2 |
| CommentControllers.CommentPageOf | server/src/controllers/comment.controllers.js:118-123 | the listed comment at index k is on page `k / limit + 1` |
| CommentControllers.GetCommentsForPost | server/src/controllers/comment.controllers.js:56-147 | one page of the post's listed comments, sorted, at most limit; totalComments counts every comment of the post, even those whose author is gone |
| CommentControllers.CommentsReachEveryListed | server/src/controllers/comment.controllers.js:113-123 | every comment of the post whose author exists is on some page |
| CommentControllers.OrphanCountedNotListed | server/src/controllers/comment.controllers.js:79-131 | a post whose one comment lost its author answers an empty page that reports one comment on one page |
| CommentControllers.CreateComment | server/src/controllers/comment.controllers.js:149-174 | succeeds iff postId and content are given and the content trims to non-empty; then exactly one comment with the requester as author is appended, whether or not the post exists |
| CommentControllers.OwnedIndexFinds | server/src/controllers/comment.controllers.js:182-186 | the filter `{ _id, userId }` finds a row iff the requester owns a comment with that id |
| CommentControllers.UpdateComment | server/src/controllers/comment.controllers.js:176-199 | 404 with nothing changed iff the requester owns no such comment; otherwise only that comment's content and update time change |
| CommentControllers.DeleteComment | server/src/controllers/comment.controllers.js:201-222 | 404 iff not the requester's comment; otherwise exactly that comment goes and the likes stay |
| CommentControllers.DeleteCommentAdmin | server/src/controllers/comment.controllers.js:224-239 | 404 iff no comment has the id; otherwise it goes whoever wrote it, and likes stay |
| CommentControllers.RemovedIdGone | server/src/controllers/comment.controllers.js:206-209 | with unique ids, no comment with the deleted id remains |
| LikeControllers.LikePost | server/src/controllers/like.controllers.js:10-34 | 404 iff the post is missing, 400 iff it is already liked by the user, otherwise exactly one like `{postId, userId}` with a fresh id is appended; nothing else changes |
| LikeControllers.LikeComment | server/src/controllers/like.controllers.js:37-61 | the same for a comment: 404 for a missing comment, 400 when already liked |
| LikeControllers.UnlikePost | server/src/controllers/like.controllers.js:64-83 | 404 with no change iff the pair is not liked; otherwise its like goes and the pair is unliked |
| LikeControllers.UnlikeComment | server/src/controllers/like.controllers.js:86-104 | the same for a comment |
| LikeControllers.LikeThenUnlikePostRestores | server/src/controllers/like.controllers.js:10-83 | a successful like followed by an unlike returns that like and leaves the Like collection as it was |
| PostHooks.CommentIdsOf | server/src/models/post.models.js:46 | the ids of exactly the post's comments |
| PostHooks.RemainingComments | server/src/models/post.models.js:51 | the comments left are exactly those of other posts |
| PostHooks.RemainingLikes | server/src/models/post.models.js:43-48 | the likes left are exactly those on neither the post nor one of its comments, judged by the comments before any is deleted |
| PostHooks.RunHook | server/src/models/post.models.js:40-57 | the hook in a module binding a given set of names: it succeeds iff `Like` and `Comment` are both bound, and then performs the cascade; otherwise it fails and deletes nothing |
| PostHooks.CascadeHookAsWritten | server/src/models/post.models.js:1-57 | in its declaring module, which imports only mongoose, the hook fails and deletes nothing |
| PostHooks.CascadeHook | server/src/models/post.models.js:40-57 | the intended cascade: likes on the post and its comments, then its comments, go; posts and other rows stay |
| PostHooks.CascadeKeepsReferences | server/src/models/post.models.js:39-57 | removing a post after the cascade leaves every comment and like pointing at an existing row |
| PostHooks.DeletePostLeavesOrphans | server/src/controllers/post.controllers.js:273 | a plain row delete of a post with a comment leaves a dangling reference |
| PostHooks.DeletePostWithCascade | server/src/models/post.models.js:63-72 | a post delete that runs the cascade first: 404 iff unknown, and reference integrity is preserved |
| Dashboard.CountStage | server/src/controllers/dashboard.controllers.js:10-12 | `$count` yields no document for an empty collection and one otherwise |
| Dashboard.Count | server/src/controllers/dashboard.controllers.js:75-77 | each count equals the collection size, 0 for an empty one |
| Dashboard.RecentUsers | server/src/controllers/dashboard.controllers.js:16-20 | min(5, size) users, the five newest, projected to id, username and email |
| Dashboard.RecentPosts | server/src/controllers/dashboard.controllers.js:64-68 | min(5, size) posts, the five newest, projected to id and title |
| Dashboard.RecentComments | server/src/controllers/dashboard.controllers.js:22-62 | at most the five newest comments, joined afterwards: sorted, each from one of the five, every one of the five that joins listed, one row each, so fewer than min(5, number of comments) iff one of them lost its author or post |
| Dashboard.NewestUserListedFirst | server/src/controllers/dashboard.controllers.js:16-20 | the strictly newest user heads recentUsers |
| Dashboard.NewestCommentListedFirst | server/src/controllers/dashboard.controllers.js:22-50 | the strictly newest comment heads recentComments when its author and post exist |
| Dashboard.FetchDashboardData | server/src/controllers/dashboard.controllers.js:8-85 | the three counts equal the collection sizes and the three lists hold at most five entries each |

## Left out

- **Excluded as I/O or outside the data layer:**
  - Image upload and deletion against the external image store. Uploads are an input URL, and the deletion requested is returned as `PostControllers.BlobCall`. A failing deletion is not modelled.
  - The `slugify` library. It is a function parameter, so slug normalisation itself is not modelled.
  - `Date.now()` and `new Date(str)`. These are integer parameters, so date parsing and invalid dates are not modelled.
  - Concurrency. The model is sequential, so the window between the duplicate check and the insert in the like, slug and title checks is not covered.
  - Express routing, authentication, admin checks and the `ApiResponse`/`ApiError` wrapping. Only the outcome kind is kept.
- **Simplified behaviour:**
  - MongoDB regular expressions in search are read as a literal substring test with ASCII case folding. Metacharacters and Unicode case folding are not modelled.
  - Identifier casting is not modelled. An id that is not a valid ObjectId throws a CastError in the source. `new ObjectId(undefined)` for an anonymous viewer creates a fresh id, which the model's `viewer: Id` covers only as an id nobody holds.
  - Ties in a `$sort` keep table order here. MongoDB does not promise an order for ties, so any tie order the store picks is not modelled.
  - Timestamps of likes and users are not modelled. No operation here reads them apart from the users' creation time.
  - Request fields are typed: `timeToRead` is a number and `title`, `content` and `tags` are strings. A non-string body value is not modelled.
- **Weaker contracts and scope limits:**
  - `CommentControllers.UpdateComment` takes `content` as present. A request without `content` is not modelled: its update sets nothing but the time.
  - `PostControllers.CreatePost` does not model the re-read by `findById` after the insert, which cannot fail in a sequential store.
  - `Dashboard.RecentPosts` returns only the id and title. The projection also names `author`, but the Post schema has no such field.
  - `Listing.PageWindow` takes page and limit as unbounded integers. In the source they are JavaScript numbers, and the store takes `$skip` and `$limit` as 64-bit integers, so a huge `(page - 1) * limit` fails with a 500 (and past 2^53 loses precision) where the model answers Ok with an empty page.
  - `PostControllers.AllPosts` inherits that: an overflowing page window is answered Ok with an empty page, not a 500.
  - `PostControllers.MatchingPage` inherits that too: it is the search listing's paging.
  - `PostControllers.SearchPost` inherits that through `MatchingPage`.
  - `CommentControllers.GetCommentsForPost` inherits that: an overflowing page window is answered Ok with an empty page, not a 500.
  - The document `deleteOne` that would fire the hook is not otherwise part of the model, because no handler calls it. `PostHooks.RunHook` and `PostHooks.CascadeHookAsWritten` stand for that call.

## Findings

| source | as written | input that shows it | evidently intended | confidence | as-written member | corrected member |
|---|---|---|---|---|---|---|
| server/src/models/post.models.js:43 | the hook calls `Like.deleteMany` and `Comment.find`, but the file imports only mongoose (line 1), so the first statement throws a ReferenceError and nothing is deleted | any document-level `deleteOne` on a post | import the Like and Comment models so the likes of the post and of its comments, then its comments, are deleted | not executed | PostHooks.CascadeHookAsWritten | PostHooks.CascadeHook |
| server/src/controllers/post.controllers.js:273 | `deletePost` uses `findByIdAndDelete`, which document `deleteOne` hooks do not see, so comments and likes of the post stay behind, pointing at a missing post | a post with one comment, deleted through deletePost | run the cascade before the row delete, keeping every comment and like pointing at an existing row | not executed | PostHooks.DeletePostLeavesOrphans | PostHooks.DeletePostWithCascade |
