/** The post controllers: the listing, the single read with its like fields,
    creation and update with the slug-uniqueness loop, the image replacement,
    deletion (a single-row delete), and search. The image store is external:
    the model records which public id a handler asks it to delete. */
module PostControllers {
  import opened Outcomes
  import opened Tables
  import opened Text
  import opened Listing
  import opened PostModel
  import opened LikeModel
  import opened Store

  // ---------------------------------------------------------------- allPosts

  /** The listing order: createdAt descending, then _id descending. */
  function SortPosts(posts: seq<Post>): (r: seq<Post>)
    ensures SortedDesc(r, PostRank) && multiset(r) == multiset(posts) && |r| == |posts|
  {
    SortDesc(posts, PostRank)
  }

  /** The response of allPosts; currentPage and totalPages only when paginated. */
  datatype PostList = PostList(posts: seq<Post>, totalPosts: nat, currentPage: Option<int>, totalPages: Option<nat>)

  predicate Paginated(pagination: Option<string>) {
    pagination == Some("true")
  }

  function AllPosts(posts: seq<Post>, pagination: Option<string>, pageQ: Option<int>, limitQ: Option<int>)
    : (r: Outcome<PostList>)
    ensures r.Ok? || r.ServerError?
    ensures r.Ok? <==> !Paginated(pagination) || (OrDefault(pageQ, 1) >= 1 && OrDefault(limitQ, 9) >= 1)
    ensures r.Ok? ==> r.value.totalPosts == |posts| && SortedDesc(r.value.posts, PostRank)
    ensures r.Ok? && !Paginated(pagination) ==>
              multiset(r.value.posts) == multiset(posts) && r.value.currentPage.None? && r.value.totalPages.None?
    ensures r.Ok? && Paginated(pagination) ==>
              var page, limit := OrDefault(pageQ, 1), OrDefault(limitQ, 9);
              && IsPage(r.value.posts, SortPosts(posts), (page - 1) * limit, limit)
              && r.value.currentPage == Some(page)
              && r.value.totalPages == Some(CeilDiv(|posts|, limit))
  {
    var sorted := SortPosts(posts);
    if !Paginated(pagination) then
      Ok(PostList(sorted, |posts|, None, None))
    else
      var page, limit := OrDefault(pageQ, 1), OrDefault(limitQ, 9);
      match PageWindow(page, limit)
      case None => ServerError
      case Some(w) =>
        var items := Page(sorted, w.skip, w.limit);
        PageSorted(items, sorted, w.skip, w.limit, PostRank);
        Ok(PostList(items, |posts|, Some(page), Some(CeilDiv(|posts|, limit))))
  }

  /** The post at index `k` of the listing order is on page `k / limit + 1`. */
  lemma AllPostsPageOf(posts: seq<Post>, k: nat, limit: int)
    requires k < |posts| && limit >= 1
    ensures var r := AllPosts(posts, Some("true"), Some(k / limit + 1), Some(limit));
            r.Ok? && SortPosts(posts)[k] in r.value.posts
  {
    var sorted := SortPosts(posts);
    var page := k / limit + 1;
    assert OrDefault(Some(page), 1) == page && OrDefault(Some(limit), 9) == limit;
    var r := AllPosts(posts, Some("true"), Some(page), Some(limit));
    assert r.Ok? && IsPage(r.value.posts, sorted, (page - 1) * limit, limit);
    PageCovers(r.value.posts, sorted, k, page, limit);
  }

  /** Paging through the listing reaches every post. */
  lemma AllPostsReachesEveryPost(posts: seq<Post>, p: Post, limit: int)
    requires p in posts && limit >= 1
    ensures exists page :: page >= 1 &&
              var r := AllPosts(posts, Some("true"), Some(page), Some(limit));
              r.Ok? && p in r.value.posts
  {
    var sorted := SortPosts(posts);
    assert p in multiset(sorted);
    var k :| 0 <= k < |sorted| && sorted[k] == p;
    AllPostsPageOf(posts, k, limit);
  }

  // ----------------------------------------------------------------- getPost

  /** A post with the two fields the read derives from the Like collection. */
  datatype PostView = PostView(post: Post, likesCount: nat, isLiked: bool)

  function GetPost(posts: seq<Post>, likes: seq<Like>, slug: string, viewer: Id): (r: Outcome<PostView>)
    ensures r.Ok? || r.NotFound?
    ensures r.NotFound? <==> forall i :: 0 <= i < |posts| ==> posts[i].slug != slug
    ensures r.Ok? ==> r.value.post in posts && r.value.post.slug == slug
    ensures r.Ok? ==> r.value.likesCount == |LikesOnPost(likes, r.value.post.id)|
    ensures r.Ok? ==> (r.value.isLiked <==>
              exists i :: 0 <= i < |likes| && likes[i].userId == viewer && OnPost(likes[i], r.value.post.id))
  {
    match FirstIndex(posts, (p: Post) => p.slug == slug)
    case None => NotFound
    case Some(i) =>
      var e := PostEngagement(likes, posts[i].id, viewer);
      Ok(PostView(posts[i], e.likesCount, e.isLiked))
  }

  /** With unique slugs the read finds the one post that has the slug. */
  lemma GetPostFindsTheSlugsPost(posts: seq<Post>, likes: seq<Like>, k: nat, viewer: Id)
    requires TableInvariant(posts) && k < |posts|
    ensures GetPost(posts, likes, posts[k].slug, viewer).Ok?
    ensures GetPost(posts, likes, posts[k].slug, viewer).value.post == posts[k]
  {
    var r := GetPost(posts, likes, posts[k].slug, viewer);
    var i :| 0 <= i < |posts| && posts[i] == r.value.post;
    assert posts[i].slug == posts[k].slug;
  }

  // --------------------------------------------------------------- slug loop

  /** What one retry appends: `-${Date.now()}-${counter}`. */
  function RetrySuffix(now: nat, counter: nat): (s: string)
    ensures |s| >= 4 && s[0] == '-' && IsDigit(s[|s| - 1])
  {
    "-" + Decimal(now) + "-" + Decimal(counter)
  }

  /** The candidate after `k` collisions. Each retry appends to the previous
      candidate, so suffixes pile up: `base-t1-1-t2-2-...`. `clock(j)` is the
      time read at retry `j + 1`. */
  function Candidate(base: string, clock: nat -> nat, k: nat): string {
    if k == 0 then base else Candidate(base, clock, k - 1) + RetrySuffix(clock(k - 1), k)
  }

  /** After trimming (the slug's setter, also applied to the query), every
      candidate is strictly longer than the one before. */
  lemma CandidateGrows(base: string, clock: nat -> nat, k: nat)
    ensures |Trim(Candidate(base, clock, k + 1))| > |Trim(Candidate(base, clock, k))|
  {
    var c := Candidate(base, clock, k);
    var s := RetrySuffix(clock(k), k + 1);
    TrimAppend(c, s);
  }

  function MaxSlugLength(posts: seq<Post>): (m: nat)
    ensures forall i :: 0 <= i < |posts| ==> |posts[i].slug| <= m
  {
    if posts == [] then 0
    else
      var rest := MaxSlugLength(posts[1..]);
      assert forall i :: 1 <= i < |posts| ==> posts[i] == posts[1..][i - 1];
      if |posts[0].slug| > rest then |posts[0].slug| else rest
  }

  /** `slug` is what the loop settles on for `base`: the first candidate whose
      trimmed form no post other than `exclude` holds. */
  ghost predicate AllocatedFrom(posts: seq<Post>, base: string, exclude: Option<Id>, clock: nat -> nat, slug: string) {
    exists k: nat ::
      && slug == TrimmedCandidate(base, clock, k)
      && !SlugTaken(posts, slug, exclude)
      && forall j :: 0 <= j < k ==> SlugTaken(posts, TrimmedCandidate(base, clock, j), exclude)
  }

  /** The slug loop can settle on one slug only. */
  lemma AllocatedUnique(posts: seq<Post>, base: string, exclude: Option<Id>, clock: nat -> nat, s: string, t: string)
    requires AllocatedFrom(posts, base, exclude, clock, s)
    requires AllocatedFrom(posts, base, exclude, clock, t)
    ensures s == t
  {
    var k: nat :| && s == TrimmedCandidate(base, clock, k)
                  && !SlugTaken(posts, s, exclude)
                  && forall j :: 0 <= j < k ==> SlugTaken(posts, TrimmedCandidate(base, clock, j), exclude);
    var m: nat :| && t == TrimmedCandidate(base, clock, m)
                  && !SlugTaken(posts, t, exclude)
                  && forall j :: 0 <= j < m ==> SlugTaken(posts, TrimmedCandidate(base, clock, j), exclude);
    assert !(k < m) && !(m < k);
  }

  /** The trimmed candidate after `k` collisions. */
  function TrimmedCandidate(base: string, clock: nat -> nat, k: nat): string {
    Trim(Candidate(base, clock, k))
  }

  /** One more collision: the candidates tried so far are all taken, and the
      distance to the longest slug shrinks. */
  lemma CollisionStep(posts: seq<Post>, base: string, exclude: Option<Id>, clock: nat -> nat, k: nat)
    requires forall j :: 0 <= j < k ==> SlugTaken(posts, TrimmedCandidate(base, clock, j), exclude)
    requires SlugTaken(posts, TrimmedCandidate(base, clock, k), exclude)
    ensures forall j :: 0 <= j < k + 1 ==> SlugTaken(posts, TrimmedCandidate(base, clock, j), exclude)
    ensures |TrimmedCandidate(base, clock, k)| < |TrimmedCandidate(base, clock, k + 1)|
    ensures |TrimmedCandidate(base, clock, k)| <= MaxSlugLength(posts)
  {
    CandidateGrows(base, clock, k);
  }

  /** The `while (slugExists)` loop of createPost (no exclusion) and of
      updatePostData (excluding the post being updated). It ends because
      each candidate is longer than the last and no post's slug is longer
      than the longest one. */
  method AllocateSlug(posts: seq<Post>, base: string, exclude: Option<Id>, clock: nat -> nat)
    returns (slug: string, retries: nat)
    ensures slug == TrimmedCandidate(base, clock, retries)
    ensures !SlugTaken(posts, slug, exclude)
    ensures forall j :: 0 <= j < retries ==> SlugTaken(posts, TrimmedCandidate(base, clock, j), exclude)
    ensures AllocatedFrom(posts, base, exclude, clock, slug)
  {
    var counter: nat := 0;
    var bound := MaxSlugLength(posts);
    var taken := SlugTaken(posts, TrimmedCandidate(base, clock, counter), exclude);
    while taken
      invariant taken == SlugTaken(posts, TrimmedCandidate(base, clock, counter), exclude)
      invariant forall j :: 0 <= j < counter ==> SlugTaken(posts, TrimmedCandidate(base, clock, j), exclude)
      decreases bound + 1 - |TrimmedCandidate(base, clock, counter)|
    {
      CollisionStep(posts, base, exclude, clock, counter);
      counter := counter + 1;
      taken := SlugTaken(posts, TrimmedCandidate(base, clock, counter), exclude);
    }
    slug, retries := TrimmedCandidate(base, clock, counter), counter;
  }

  // -------------------------------------------------------------- createPost

  /** A request field that JavaScript treats as true: present and not empty. */
  predicate Truthy(s: Option<string>) {
    s.Some? && s.value != []
  }

  method CreatePost(
    db: Db, title: Option<string>, timeToRead: Option<int>, content: Option<string>, tags: Option<string>,
    imagePath: Option<string>, uploadedUrl: Option<string>,
    slugify: string -> string, clock: nat -> nat, now: int)
    returns (r: Outcome<Post>)
    requires db.Valid()
    modifies db
    ensures db.Valid()
    ensures db.comments == old(db.comments) && db.likes == old(db.likes) && db.users == old(db.users)
    ensures r.Ok? || r.BadRequest? || r.ServerError?
    ensures !r.Ok? ==> db.posts == old(db.posts)
    // the checks, in the order the handler makes them
    ensures tags.None? ==> r.ServerError?
    ensures tags.Some? && !Truthy(imagePath) ==> r.BadRequest?
    ensures tags.Some? && Truthy(imagePath) && !Truthy(uploadedUrl) ==> r.ServerError?
    ensures tags.Some? && Truthy(imagePath) && Truthy(uploadedUrl) && title.None? ==> r.ServerError?
    ensures tags.Some? && Truthy(imagePath) && Truthy(uploadedUrl) && title.Some? ==>
              (r.BadRequest? <==> TitleTaken(old(db.posts), Trim(title.value), None))
    ensures tags.Some? && Truthy(imagePath) && Truthy(uploadedUrl) && title.Some? &&
            !TitleTaken(old(db.posts), Trim(title.value), None) ==>
              forall s :: AllocatedFrom(old(db.posts), slugify(title.value), None, clock, s) ==>
                (r.Ok? <==> content.Some? && Trim(title.value) != [] && s != [] && Trim(content.value) != [])
    ensures r.Ok? ==>
              && tags.Some? && Truthy(imagePath) && Truthy(uploadedUrl) && title.Some? && content.Some?
              && db.posts == old(db.posts) + [r.value]
              && (forall i :: 0 <= i < |old(db.posts)| ==> old(db.posts)[i].id != r.value.id)
              && r.value.title == Trim(title.value) && r.value.title != []
              && AllocatedFrom(old(db.posts), slugify(title.value), None, clock, r.value.slug)
              && r.value.featuredImage == uploadedUrl.value
              && r.value.tags == Split(tags.value, ',')
              && r.value.content == Trim(content.value) && r.value.content != []
              && r.value.timeToRead == timeToRead
              && r.value.createdAt == now && r.value.updatedAt == now
  {
    var slug: string := [];
    if tags.Some? && Truthy(imagePath) && Truthy(uploadedUrl) && title.Some? {
      var retries;
      slug, retries := AllocateSlug(db.posts, slugify(title.value), None, clock);
      forall s | AllocatedFrom(db.posts, slugify(title.value), None, clock, s) ensures s == slug {
        AllocatedUnique(db.posts, slugify(title.value), None, clock, s, slug);
      }
    }
    r := CreateResponse(db.posts, title, timeToRead, content, tags, imagePath, uploadedUrl, slug, now);
    if r.Ok? {
      var stored := db.InsertPost(r.value);
      r := Ok(stored);
    }
  }

  /** The answer of createPost once its slug loop has settled on `slug`: the
      checks in the order the handler makes them, then the document to insert
      (its id is given by the store). */
  function CreateResponse(posts: seq<Post>, title: Option<string>, timeToRead: Option<int>,
                          content: Option<string>, tags: Option<string>, imagePath: Option<string>,
                          uploadedUrl: Option<string>, slug: string, now: int): (r: Outcome<Post>)
    requires Trimmed(slug)
    ensures r.Ok? || r.BadRequest? || r.ServerError?
    ensures tags.None? ==> r.ServerError?
    ensures tags.Some? && !Truthy(imagePath) ==> r.BadRequest?
    ensures tags.Some? && Truthy(imagePath) && !Truthy(uploadedUrl) ==> r.ServerError?
    ensures tags.Some? && Truthy(imagePath) && Truthy(uploadedUrl) && title.None? ==> r.ServerError?
    ensures tags.Some? && Truthy(imagePath) && Truthy(uploadedUrl) && title.Some? ==>
              (r.BadRequest? <==> TitleTaken(posts, Trim(title.value), None))
    // past those checks, the required validators decide
    ensures tags.Some? && Truthy(imagePath) && Truthy(uploadedUrl) && title.Some? &&
            !TitleTaken(posts, Trim(title.value), None) ==>
              (r.Ok? <==> content.Some? && Trim(title.value) != [] && slug != [] && Trim(content.value) != [])
    ensures r.Ok? ==>
              && tags.Some? && Truthy(imagePath) && Truthy(uploadedUrl) && title.Some? && content.Some?
              && StoredForm(r.value) && PassesValidation(r.value)
              && !TitleTaken(posts, r.value.title, None)
              && r.value.title == Trim(title.value) && r.value.slug == slug
              && r.value.featuredImage == uploadedUrl.value
              && r.value.tags == Split(tags.value, ',')
              && r.value.content == Trim(content.value)
              && r.value.timeToRead == timeToRead
              && r.value.createdAt == now && r.value.updatedAt == now
  {
    if tags.None? then ServerError             // req.body.tags.split on undefined throws
    else if !Truthy(imagePath) then BadRequest
    else if !Truthy(uploadedUrl) then ServerError
    else if title.None? then ServerError       // slugify throws on a missing title
    else if TitleTaken(posts, Trim(title.value), None) then BadRequest
    else if content.None? then ServerError     // required validator
    else
      var post := Post(0, Trim(title.value), slug, uploadedUrl.value, Split(tags.value, ','),
                       timeToRead, Trim(content.value), now, now);
      if PassesValidation(post) then Ok(post) else ServerError   // required validator on ""
  }

  // ---------------------------------------------------------- updatePostData

  /** A number field that JavaScript treats as true: present and not zero. */
  predicate TruthyNumber(n: Option<int>) {
    n.Some? && n.value != 0
  }

  /** The post after `findByIdAndUpdate` with the fields of the request that
      are truthy; title, slug and content pass through the trim setter. */
  function Updated(p: Post, title: Option<string>, slug: string, timeToRead: Option<int>,
                   content: Option<string>, tags: Option<string>, now: int): (q: Post)
    ensures q.id == p.id && q.featuredImage == p.featuredImage && q.createdAt == p.createdAt && q.updatedAt == now
    ensures q.title == (if Truthy(title) then Trim(title.value) else p.title)
    ensures q.slug == (if Truthy(title) then slug else p.slug)
    ensures q.content == (if Truthy(content) then Trim(content.value) else p.content)
    ensures q.tags == (if tags.Some? then Split(tags.value, ',') else p.tags)
    ensures q.timeToRead == (if TruthyNumber(timeToRead) then timeToRead else p.timeToRead)
    ensures StoredForm(p) && Trimmed(slug) ==> StoredForm(q)
  {
    p.(title := if Truthy(title) then Trim(title.value) else p.title,
       slug := if Truthy(title) then slug else p.slug,
       content := if Truthy(content) then Trim(content.value) else p.content,
       tags := if tags.Some? then Split(tags.value, ',') else p.tags,
       timeToRead := if TruthyNumber(timeToRead) then timeToRead else p.timeToRead,
       updatedAt := now)
  }

  /** A replacement that keeps its row's title, or takes one no other post
      holds, clashes with no other post; likewise for the slug. */
  lemma UpdatedStaysUnique(posts: seq<Post>, i: nat, q: Post)
    requires TableInvariant(posts) && i < |posts| && q.id == posts[i].id
    requires q.title == posts[i].title || !TitleTaken(posts, q.title, Some(q.id))
    requires q.slug == posts[i].slug || !SlugTaken(posts, q.slug, Some(q.id))
    ensures !TitleTaken(posts, q.title, Some(q.id)) && !SlugTaken(posts, q.slug, Some(q.id))
  {
  }

  method UpdatePostData(
    db: Db, postId: Id, title: Option<string>, timeToRead: Option<int>, content: Option<string>,
    tags: Option<string>, slugify: string -> string, clock: nat -> nat, now: int)
    returns (r: Outcome<Post>)
    requires db.Valid()
    modifies db
    ensures db.Valid()
    ensures db.comments == old(db.comments) && db.likes == old(db.likes) && db.users == old(db.users)
    ensures r.Ok? || r.NotFound? || r.ServerError?
    ensures !r.Ok? ==> db.posts == old(db.posts)
    ensures r.NotFound? <==> IndexOfId(old(db.posts), postId).None?
    ensures r.ServerError? <==>
              IndexOfId(old(db.posts), postId).Some? && Truthy(title) && TitleTaken(old(db.posts), Trim(title.value), Some(postId))
    ensures r.Ok? ==>
              var i := IndexOfId(old(db.posts), postId).value;
              var p := old(db.posts)[i];
              && db.posts == old(db.posts)[i := r.value]
              && r.value == Updated(p, title, r.value.slug, timeToRead, content, tags, now)
              && (Truthy(title) ==> AllocatedFrom(old(db.posts), slugify(title.value), Some(postId), clock, r.value.slug))
  {
    var newSlug: string := [];
    if Truthy(title) {
      var retries;
      newSlug, retries := AllocateSlug(db.posts, slugify(title.value), Some(postId), clock);
    }
    var found := IndexOfId(db.posts, postId);
    if found.None? {
      return NotFound;
    }
    var i := found.value;
    if Truthy(title) && TitleTaken(db.posts, Trim(title.value), Some(postId)) {
      return ServerError;            // E11000 on the unique title index
    }
    var post := Updated(db.posts[i], title, newSlug, timeToRead, content, tags, now);
    assert StoredForm(db.posts[i]);
    UpdatedStaysUnique(db.posts, i, post);
    db.ReplacePost(i, post);
    r := Ok(post);
  }

  // ------------------------------------------------------ image public id

  /** `url.split("/").slice(-1)[0].split(".")[0]`: the last path segment of the
      URL, cut at its first dot. */
  function PublicId(url: string): (id: string)
    ensures '/' !in id && '.' !in id
    ensures var start := |url| - |Split(url, '/')[|Split(url, '/')| - 1]|;
            && 0 <= start && start + |id| <= |url| && url[start..start + |id|] == id
            && (start == 0 || url[start - 1] == '/') && '/' !in url[start..]
            && (start + |id| == |url| || url[start + |id|] == '.')
  {
    var segments := Split(url, '/');
    var last := segments[|segments| - 1];
    LastSegmentOf(url);
    FirstPieceOf(last);
    var id := Split(last, '.')[0];
    SliceOfTail(url, |url| - |last|, last, id);
    id
  }

  /** A prefix of a string's tail sits in the string at the tail's start. */
  lemma SliceOfTail(s: string, start: nat, tail: string, id: string)
    requires start <= |s| && s[start..] == tail && |id| <= |tail| && tail[..|id|] == id
    ensures start + |id| <= |s| && s[start..start + |id|] == id
    ensures start + |id| < |s| ==> s[start + |id|] == tail[|id|]
  {
    assert s[start..start + |id|] == s[start..][..|id|];
  }

  /** The last `/`-segment is the URL's tail after its last `/`. */
  lemma LastSegmentOf(url: string)
    ensures var segments := Split(url, '/');
            var last := segments[|segments| - 1];
            var start := |url| - |last|;
            && 0 <= start && url[start..] == last && '/' !in last
            && (start == 0 || url[start - 1] == '/')
  {
    JoinEndsWithLast(Split(url, '/'), '/');
  }

  /** The first `.`-piece is a prefix of the segment, ended by a dot or by
      the segment's end. */
  lemma FirstPieceOf(last: string)
    ensures var id := Split(last, '.')[0];
            && |id| <= |last| && last[..|id|] == id && '.' !in id
            && (|id| == |last| || last[|id|] == '.')
  {
    var pieces := Split(last, '.');
    if |pieces| > 1 {
      assert Join(pieces, '.') == pieces[0] + ['.'] + Join(pieces[1..], '.');
    }
  }

  lemma {:induction false} JoinEndsWithLast(parts: seq<string>, sep: char)
    requires |parts| >= 1
    ensures var j, last := Join(parts, sep), parts[|parts| - 1];
            && |last| <= |j| && j[|j| - |last|..] == last
            && (|parts| > 1 ==> |last| < |j| && j[|j| - |last| - 1] == sep)
  {
    if |parts| > 1 {
      JoinEndsWithLast(parts[1..], sep);
      var rest := Join(parts[1..], sep);
      var j := Join(parts, sep);
      assert j == parts[0] + [sep] + rest;
      assert parts[|parts| - 1] == parts[1..][|parts[1..]| - 1];
    }
  }

  /** `url ? <public id> : null`. */
  function ImageRef(url: string): (r: Option<string>)
    ensures r.Some? <==> url != []
    ensures r.Some? ==> r.value == PublicId(url)
  {
    if url == [] then None else Some(PublicId(url))
  }

  /** The call a handler makes to the external image store, if any. */
  datatype BlobCall = NoCall | DeleteImage(publicId: Option<string>)

  // --------------------------------------------------------- updatePostImage

  method UpdatePostImage(db: Db, postId: Id, imagePath: Option<string>, uploadedUrl: Option<string>, now: int)
    returns (r: Outcome<Post>, call: BlobCall)
    requires db.Valid()
    modifies db
    ensures db.Valid()
    ensures db.comments == old(db.comments) && db.likes == old(db.likes) && db.users == old(db.users)
    ensures r.Ok? || r.BadRequest? || r.ServerError?
    ensures !r.Ok? ==> db.posts == old(db.posts) && call == NoCall
    ensures !Truthy(imagePath) <==> r.BadRequest?
    ensures r.ServerError? <==> Truthy(imagePath) && (!Truthy(uploadedUrl) || IndexOfId(old(db.posts), postId).None?)
    ensures r.Ok? ==>
              var i := IndexOfId(old(db.posts), postId).value;
              var p := old(db.posts)[i];
              && db.posts == old(db.posts)[i := p.(featuredImage := uploadedUrl.value, updatedAt := now)]
              && r.value == p.(featuredImage := uploadedUrl.value)
              && call == DeleteImage(ImageRef(p.featuredImage))
  {
    if !Truthy(imagePath) {
      return BadRequest, NoCall;
    }
    if !Truthy(uploadedUrl) {
      return ServerError, NoCall;
    }
    var found := IndexOfId(db.posts, postId);
    if found.None? {
      return ServerError, NoCall;    // post.featuredImage on null throws
    }
    var i := found.value;
    var old_ := db.posts[i];
    var stored := old_.(featuredImage := uploadedUrl.value, updatedAt := now);
    db.ReplacePost(i, stored);
    r, call := Ok(old_.(featuredImage := uploadedUrl.value)), DeleteImage(ImageRef(old_.featuredImage));
  }

  // -------------------------------------------------------------- deletePost

  /** `findByIdAndDelete`: removes the post row only. The pre('deleteOne')
      document hook does not fire for it, so the post's comments and likes
      stay behind. */
  method DeletePost(db: Db, postId: Id) returns (r: Outcome<Post>, call: BlobCall)
    requires db.Valid()
    modifies db
    ensures db.Valid()
    ensures db.comments == old(db.comments) && db.likes == old(db.likes) && db.users == old(db.users)
    ensures r.Ok? || r.NotFound?
    ensures r.NotFound? <==> IndexOfId(old(db.posts), postId).None?
    ensures r.NotFound? ==> db.posts == old(db.posts) && call == NoCall
    ensures r.Ok? ==>
              var i := IndexOfId(old(db.posts), postId).value;
              && r.value == old(db.posts)[i]
              && db.posts == RemoveAt(old(db.posts), i)
              && (forall k :: 0 <= k < |db.posts| ==> db.posts[k].id != postId)
              && call == (if ImageRef(r.value.featuredImage).Some? && ImageRef(r.value.featuredImage).value != []
                          then DeleteImage(ImageRef(r.value.featuredImage)) else NoCall)
  {
    var found := IndexOfId(db.posts, postId);
    if found.None? {
      return NotFound, NoCall;
    }
    var i := found.value;
    var deleted := db.posts[i];
    db.RemovePost(i);
    forall k | 0 <= k < |db.posts|
      ensures db.posts[k].id != postId
    {
      var k' := if k < i then k else k + 1;
      assert db.posts[k] == old(db.posts)[k'] && k' != i;
    }
    var publicId := ImageRef(deleted.featuredImage);
    if publicId.Some? && publicId.value != [] {
      call := DeleteImage(publicId);
    } else {
      call := NoCall;
    }
    r := Ok(deleted);
  }

  // -------------------------------------------------------------- searchPost

  /** `$regex: searchString, $options: "i"` on title, on any tag, or on slug,
      read as a literal case-insensitive substring test. */
  predicate TextMatches(p: Post, query: string) {
    || ContainsIgnoreCase(p.title, query)
    || (exists t :: t in p.tags && ContainsIgnoreCase(t, query))
    || ContainsIgnoreCase(p.slug, query)
  }

  /** The query string of a search: the text and the two optional date bounds. */
  datatype SearchQuery = SearchQuery(searchString: Option<string>, startDate: Option<int>, endDate: Option<int>)

  /** The two `$match` stages: the text test only when the trimmed query is
      not empty (the raw query is what is matched), and each date bound only
      when given. */
  predicate SearchMatches(p: Post, q: SearchQuery) {
    && (q.searchString.None? || Trim(q.searchString.value) == [] || TextMatches(p, q.searchString.value))
    && (q.startDate.None? || p.createdAt >= q.startDate.value)
    && (q.endDate.None? || p.createdAt <= q.endDate.value)
  }

  datatype SearchPage = SearchPage(posts: seq<Post>, totalPosts: nat, currentPage: int, totalPages: nat)

  /** The search pipeline for any `$match` test `keep`: the accepted posts in
      listing order, the page asked for, the count of all accepted posts and
      the number of pages. */
  function MatchingPage(posts: seq<Post>, keep: Post -> bool, pageQ: Option<int>, limitQ: Option<int>)
    : (r: Outcome<SearchPage>)
    ensures r.Ok? || r.ServerError?
    ensures r.Ok? <==> OrDefault(pageQ, 1) >= 1 && OrDefault(limitQ, 10) >= 1
    ensures r.Ok? ==>
              var page, limit := OrDefault(pageQ, 1), OrDefault(limitQ, 10);
              && IsPage(r.value.posts, Filter(SortPosts(posts), keep), (page - 1) * limit, limit)
              && (forall p :: p in r.value.posts ==> p in posts && keep(p))
              && SortedDesc(r.value.posts, PostRank)
              && r.value.totalPosts == |Filter(posts, keep)|
              && r.value.currentPage == page
              && r.value.totalPages == CeilDiv(r.value.totalPosts, limit)
  {
    var matching := Filter(SortPosts(posts), keep);
    MatchingListed(posts, keep);
    var page, limit := OrDefault(pageQ, 1), OrDefault(limitQ, 10);
    match PageWindow(page, limit)
    case None => ServerError
    case Some(w) =>
      var items := Page(matching, w.skip, w.limit);
      PageSorted(items, matching, w.skip, w.limit, PostRank);
      PageWithin(items, matching, w.skip, w.limit);
      Ok(SearchPage(items, |matching|, page, CeilDiv(|matching|, limit)))
  }

  /** The accepted posts in listing order: sorted, drawn from the collection,
      and as many as the collection holds. */
  lemma MatchingListed(posts: seq<Post>, keep: Post -> bool)
    ensures var matching := Filter(SortPosts(posts), keep);
            && (forall p :: p in matching ==> p in posts && keep(p))
            && SortedDesc(matching, PostRank)
            && |matching| == |Filter(posts, keep)|
  {
    var sorted := SortPosts(posts);
    forall p | p in sorted
      ensures p in posts
    {
      assert p in multiset(sorted);
    }
    FilterPermutation(sorted, posts, keep);
    FilterSorted(sorted, keep, PostRank);
  }

  /** The accepted post at index `k` of the result order is on page `k / limit + 1`. */
  lemma MatchingPageOf(posts: seq<Post>, keep: Post -> bool, p: Post, k: nat, limit: int)
    requires k < |Filter(SortPosts(posts), keep)| && Filter(SortPosts(posts), keep)[k] == p && limit >= 1
    ensures k / limit + 1 >= 1 && OnResultPage(posts, keep, p, k / limit + 1, limit)
  {
    var matching := Filter(SortPosts(posts), keep);
    var page := k / limit + 1;
    assert OrDefault(Some(page), 1) == page && OrDefault(Some(limit), 10) == limit;
    var r := MatchingPage(posts, keep, Some(page), Some(limit));
    assert r.Ok? && IsPage(r.value.posts, matching, (page - 1) * limit, limit);
    PageCovers(r.value.posts, matching, k, page, limit);
  }

  /** `p` is among the results on page `page` of `limit` results. */
  predicate OnResultPage(posts: seq<Post>, keep: Post -> bool, p: Post, page: int, limit: int) {
    var r := MatchingPage(posts, keep, Some(page), Some(limit));
    r.Ok? && p in r.value.posts
  }

  /** Paging through the results reaches every accepted post. */
  lemma MatchingPageReaches(posts: seq<Post>, keep: Post -> bool, p: Post, limit: int)
    requires p in posts && keep(p) && limit >= 1
    ensures exists page :: page >= 1 && OnResultPage(posts, keep, p, page, limit)
  {
    AcceptedIsListed(posts, keep, p);
    var matching := Filter(SortPosts(posts), keep);
    var k :| 0 <= k < |matching| && matching[k] == p;
    MatchingPageOf(posts, keep, p, k, limit);
  }

  lemma AcceptedIsListed(posts: seq<Post>, keep: Post -> bool, p: Post)
    requires p in posts && keep(p)
    ensures p in Filter(SortPosts(posts), keep)
  {
    assert p in multiset(SortPosts(posts));
  }

  /** The `$match` test of searchPost as a function of the query. */
  function SearchFilter(q: SearchQuery): (keep: Post -> bool)
    ensures forall p :: keep(p) == SearchMatches(p, q)
  {
    (p: Post) => SearchMatches(p, q)
  }

  /** searchPost: the posts the query accepts, newest first, one page of them. */
  function SearchPost(posts: seq<Post>, q: SearchQuery, pageQ: Option<int>, limitQ: Option<int>)
    : (r: Outcome<SearchPage>)
    ensures r.Ok? || r.ServerError?
    ensures r.Ok? <==> OrDefault(pageQ, 1) >= 1 && OrDefault(limitQ, 10) >= 1
    ensures r.Ok? ==> forall p :: p in r.value.posts ==> p in posts && SearchMatches(p, q)
    ensures r.Ok? ==> SortedDesc(r.value.posts, PostRank) && |r.value.posts| <= OrDefault(limitQ, 10)
    ensures r.Ok? ==> r.value.totalPosts == |Filter(posts, SearchFilter(q))|
    ensures r.Ok? ==>
              var page, limit := OrDefault(pageQ, 1), OrDefault(limitQ, 10);
              && IsPage(r.value.posts, Filter(SortPosts(posts), SearchFilter(q)), (page - 1) * limit, limit)
              && r.value.currentPage == page
              && r.value.totalPages == CeilDiv(r.value.totalPosts, limit)
  {
    MatchingPage(posts, SearchFilter(q), pageQ, limitQ)
  }

  /** `p` is among the search results on page `page` of `limit` results. */
  predicate OnSearchPage(posts: seq<Post>, q: SearchQuery, p: Post, page: int, limit: int) {
    var r := SearchPost(posts, q, Some(page), Some(limit));
    r.Ok? && p in r.value.posts
  }

  /** Paging through the search results reaches every post the query accepts. */
  lemma SearchReachesEveryMatch(posts: seq<Post>, q: SearchQuery, p: Post, limit: int)
    requires p in posts && SearchMatches(p, q) && limit >= 1
    ensures exists page :: page >= 1 && OnSearchPage(posts, q, p, page, limit)
  {
    MatchingPageReaches(posts, SearchFilter(q), p, limit);
    var page :| page >= 1 && OnResultPage(posts, SearchFilter(q), p, page, limit);
    assert OnSearchPage(posts, q, p, page, limit);
  }
}
