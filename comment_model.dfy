/** The Comment schema: required author, post and content, content trimmed,
    timestamps kept by the store. */
module CommentModel {
  import opened Outcomes
  import opened Tables
  import opened Text
  import opened Listing

  datatype Comment = Comment(
    id: Id,
    userId: Id,   // required
    postId: Id,   // required
    content: string,
    createdAt: int,
    updatedAt: int)

  /** What the trim setter leaves in a stored comment. */
  predicate StoredForm(c: Comment) {
    Trimmed(c.content)
  }

  /** The `required` validator on content that Comment.create runs. */
  predicate PassesValidation(c: Comment) {
    c.content != []
  }

  predicate UniqueIds(comments: seq<Comment>) {
    forall i, j :: 0 <= i < j < |comments| ==> comments[i].id != comments[j].id
  }

  predicate TableInvariant(comments: seq<Comment>) {
    (forall i :: 0 <= i < |comments| ==> StoredForm(comments[i])) && UniqueIds(comments)
  }

  /** `$sort: { createdAt: -1 }`. */
  function NewestFirst(c: Comment): Rank {
    Rank(c.createdAt, 0)
  }

  /** `$sort: { updatedAt: -1 }`. */
  function RecentlyUpdatedFirst(c: Comment): Rank {
    Rank(c.updatedAt, 0)
  }

  function IndexOfId(comments: seq<Comment>, id: Id): Option<nat> {
    FirstIndex(comments, (c: Comment) => c.id == id)
  }

  predicate OfPost(c: Comment, postId: Id) {
    c.postId == postId
  }

  /** The comments of one post, in table order. */
  function CommentsOfPost(comments: seq<Comment>, postId: Id): (r: seq<Comment>)
    ensures forall c :: c in r <==> c in comments && c.postId == postId
  {
    Filter(comments, (c: Comment) => OfPost(c, postId))
  }

  lemma RemoveKeepsInvariant(comments: seq<Comment>, i: nat)
    requires TableInvariant(comments) && i < |comments|
    ensures TableInvariant(RemoveAt(comments, i))
  {
    var r := RemoveAt(comments, i);
    forall a, b | 0 <= a < b < |r|
      ensures r[a].id != r[b].id
    {
      var a' := if a < i then a else a + 1;
      var b' := if b < i then b else b + 1;
      assert r[a] == comments[a'] && r[b] == comments[b'] && a' < b';
    }
  }

  /** Deleting every comment that matches keeps the invariant. */
  lemma FilterKeepsInvariant(comments: seq<Comment>, keep: Comment -> bool)
    requires TableInvariant(comments)
    ensures TableInvariant(Filter(comments, keep))
  {
    var distinct := (a: Comment, b: Comment) => a.id != b.id;
    assert Pairwise(comments, distinct);
    FilterPairwise(comments, keep, distinct);
    var r := Filter(comments, keep);
    forall k | 0 <= k < |r|
      ensures StoredForm(r[k])
    {
      assert r[k] in comments;
    }
  }
}
