/** The Post schema: the record, what its trim setters and `required`
    validators do, and the unique indexes on title and slug. */
module PostModel {
  import opened Outcomes
  import opened Tables
  import opened Text
  import opened Listing

  datatype Post = Post(
    id: Id,
    title: string,
    slug: string,
    featuredImage: string,
    tags: seq<string>,       // ordered; display order, not a key
    timeToRead: Option<int>, // optional
    content: string,
    createdAt: int,          // maintained by the timestamps option
    updatedAt: int)

  /** What the trim setters leave in a stored post. */
  predicate StoredForm(p: Post) {
    Trimmed(p.title) && Trimmed(p.slug) && Trimmed(p.content)
  }

  /** The `required` validators that Post.create runs; an empty string fails them.
      Updates do not run validators. */
  predicate PassesValidation(p: Post) {
    p.title != [] && p.slug != [] && p.featuredImage != [] && p.content != []
  }

  predicate UniqueIds(posts: seq<Post>) {
    forall i, j :: 0 <= i < j < |posts| ==> posts[i].id != posts[j].id
  }

  /** The unique index on title. */
  predicate UniqueTitles(posts: seq<Post>) {
    forall i, j :: 0 <= i < j < |posts| ==> posts[i].title != posts[j].title
  }

  /** The unique index on slug. */
  predicate UniqueSlugs(posts: seq<Post>) {
    forall i, j :: 0 <= i < j < |posts| ==> posts[i].slug != posts[j].slug
  }

  /** What every write to the Post collection keeps. */
  predicate TableInvariant(posts: seq<Post>) {
    && (forall i :: 0 <= i < |posts| ==> StoredForm(posts[i]))
    && UniqueIds(posts) && UniqueTitles(posts) && UniqueSlugs(posts)
  }

  /** The listing order `$sort: { createdAt: -1, _id: -1 }`. */
  function PostRank(p: Post): Rank {
    Rank(p.createdAt, p.id)
  }

  function IndexOfId(posts: seq<Post>, id: Id): Option<nat> {
    FirstIndex(posts, (p: Post) => p.id == id)
  }

  /** The `$lookup` on `_id` that joins a post into another collection's row. */
  function FindPost(posts: seq<Post>, id: Id): (r: Option<Post>)
    ensures r.Some? ==> r.value in posts && r.value.id == id
    ensures r.None? ==> forall i :: 0 <= i < |posts| ==> posts[i].id != id
  {
    match IndexOfId(posts, id)
    case Some(i) => Some(posts[i])
    case None => None
  }

  /** `findOne({ slug, _id: { $ne: exclude } })` finds a post. */
  predicate SlugTaken(posts: seq<Post>, slug: string, exclude: Option<Id>) {
    exists i :: 0 <= i < |posts| && posts[i].slug == slug && exclude != Some(posts[i].id)
  }

  /** Some post other than `exclude` already has this title. */
  predicate TitleTaken(posts: seq<Post>, title: string, exclude: Option<Id>) {
    exists i :: 0 <= i < |posts| && posts[i].title == title && exclude != Some(posts[i].id)
  }

  /** A post whose id, title and slug are new keeps the invariant when appended. */
  lemma AppendKeepsInvariant(posts: seq<Post>, p: Post)
    requires TableInvariant(posts) && StoredForm(p)
    requires forall i :: 0 <= i < |posts| ==> posts[i].id != p.id
    requires !TitleTaken(posts, p.title, None) && !SlugTaken(posts, p.slug, None)
    ensures TableInvariant(posts + [p])
  {
  }

  /** Replacing a post by one with the same id, whose title and slug no other
      post holds, keeps the invariant. */
  lemma ReplaceKeepsInvariant(posts: seq<Post>, i: nat, p: Post)
    requires TableInvariant(posts) && i < |posts| && StoredForm(p)
    requires p.id == posts[i].id
    requires !TitleTaken(posts, p.title, Some(p.id)) && !SlugTaken(posts, p.slug, Some(p.id))
    ensures TableInvariant(posts[i := p])
  {
    var r := posts[i := p];
    forall a, b | 0 <= a < b < |r|
      ensures r[a].title != r[b].title && r[a].slug != r[b].slug
    {
      if a == i {
        assert posts[b].id != p.id;
      } else if b == i {
        assert posts[a].id != p.id;
      }
    }
  }

  /** Removing a post keeps the invariant. */
  lemma RemoveKeepsInvariant(posts: seq<Post>, i: nat)
    requires TableInvariant(posts) && i < |posts|
    ensures TableInvariant(RemoveAt(posts, i))
  {
    var r := RemoveAt(posts, i);
    forall a, b | 0 <= a < b < |r|
      ensures r[a].id != r[b].id && r[a].title != r[b].title && r[a].slug != r[b].slug
    {
      var a' := if a < i then a else a + 1;
      var b' := if b < i then b else b + 1;
      assert r[a] == posts[a'] && r[b] == posts[b'] && a' < b';
    }
  }
}
