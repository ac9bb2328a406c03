/** The Post and Comment records of the content store (the Post schema). */
module PostSchema {
  import opened Common

  /** Post ids are opaque; the store hands them out fresh. */
  type PostId = nat

  /** One Post document. `title`, `summary`, `content` and `author` are required
      by the schema, `cover` is optional, `likes` holds the ids of the users who
      liked the post, and the two timestamps are set by the store. */
  datatype Post = Post(
    id: PostId,
    title: Field,
    summary: Field,
    content: Field,
    cover: Field,
    author: Field,
    likes: seq<string>,
    createdAt: nat,
    updatedAt: nat)

  /** One Comment document; only `postId` matters to the post controller. */
  datatype Comment = Comment(id: nat, content: string, author: string, postId: PostId)

  /** The schema's validation: every required String is present and non-empty. */
  predicate ValidPost(p: Post)
  {
    Truthy(p.title) && Truthy(p.summary) && Truthy(p.content) && Truthy(p.author)
  }

  /** The document `Post.create` stores: the given fields, `likes` defaulted to
      the empty list and both timestamps set to the creation time. */
  function NewPost(id: PostId, title: Field, summary: Field, content: Field,
                   cover: Field, author: Field, now: nat): (p: Post)
    ensures p.likes == [] && p.createdAt == now && p.updatedAt == now
    ensures ValidPost(p) <==> Truthy(title) && Truthy(summary) && Truthy(content) && Truthy(author)
  {
    Post(id, title, summary, content, cover, author, [], now, now)
  }

  /** A missing or null required field always makes a post invalid. */
  lemma MissingRequiredFieldIsInvalid(p: Post)
    requires !p.title.Given? || !p.summary.Given? || !p.content.Given? || !p.author.Given?
    ensures !ValidPost(p)
  {
  }

  /** `cover` is optional: whether a post is valid does not depend on it. */
  lemma CoverIsOptional(p: Post, cover: Field)
    ensures ValidPost(p.(cover := cover)) == ValidPost(p)
  {
  }

  /** Validity does not depend on the likes list or the timestamps either. */
  lemma LikesAndTimestampsAreFree(p: Post, likes: seq<string>, createdAt: nat, updatedAt: nat)
    ensures ValidPost(p.(likes := likes, createdAt := createdAt, updatedAt := updatedAt)) == ValidPost(p)
  {
  }

  /** The position of the post with id `id` (`findById`), or -1 when there is none. */
  function IndexOfPost(posts: seq<Post>, id: PostId): (i: int)
    ensures -1 <= i < |posts|
    ensures i == -1 <==> forall k :: 0 <= k < |posts| ==> posts[k].id != id
    ensures 0 <= i ==> posts[i].id == id && forall k :: 0 <= k < i ==> posts[k].id != id
  {
    if posts == [] then -1
    else if posts[0].id == id then 0
    else
      var j := IndexOfPost(posts[1..], id);
      if j == -1 then -1 else j + 1
  }

  /** The lookup only looks at ids: rewriting other fields keeps every post findable where it was. */
  lemma {:induction false} IndexOfPostSameIds(a: seq<Post>, b: seq<Post>, id: PostId)
    requires |a| == |b|
    requires forall k :: 0 <= k < |a| ==> a[k].id == b[k].id
    ensures IndexOfPost(a, id) == IndexOfPost(b, id)
  {
    if a != [] {
      IndexOfPostSameIds(a[1..], b[1..], id);
    }
  }

  /** A post added at the end under an id nobody uses is found there. */
  lemma IndexOfAppended(posts: seq<Post>, p: Post)
    requires forall k :: 0 <= k < |posts| ==> posts[k].id != p.id
    ensures IndexOfPost(posts + [p], p.id) == |posts|
  {
    var s := posts + [p];
    assert forall k :: 0 <= k < |posts| ==> s[k] == posts[k];
    assert s[|posts|] == p;
  }
}
