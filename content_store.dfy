/** The post controller's writing actions over an in-memory content store:
    create, update, delete and the like toggle. The reading actions are the
    functions `ListPosts` and `GetPostById` of module Aggregation applied to
    the store's `posts` and `comments`. */
module ContentStore {
  import opened Common
  import opened PostSchema
  import opened Likes
  import opened Aggregation

  /** The authenticated caller: `req.user.id` (the id likes are recorded
      under) and `req.user.userId` (the id posts are authored under). */
  datatype Caller = Caller(id: string, userId: string)

  /** The `title`, `summary` and `content` of a request body; each may be
      missing, explicitly `null`, or a string. */
  datatype PostInput = PostInput(title: Field, summary: Field, content: Field)

  /** The stored cover: the uploaded file's path, or `null` when no file came. */
  function CoverOf(file: Option<string>): (c: Field)
    ensures c.Given? <==> file.Some?
    ensures file.Some? ==> c.value == file.value
    ensures file.None? ==> c.Null?
  {
    if file.Some? then Given(file.value) else Null
  }

  /** The answer of the like toggle. */
  datatype LikeState = LikeState(likesCount: nat, isLiked: bool)

  /** The store's invariant over its post collection: ids are unique and below
      `nextId`, every stored post has a non-empty author, and no likes list
      holds a user twice. */
  predicate WellFormed(posts: seq<Post>, nextId: PostId)
  {
    (forall i, j :: 0 <= i < j < |posts| ==> posts[i].id != posts[j].id) &&
    (forall i :: 0 <= i < |posts| ==> posts[i].id < nextId) &&
    (forall i :: 0 <= i < |posts| ==> Truthy(posts[i].author)) &&
    (forall i :: 0 <= i < |posts| ==> NoDuplicates(posts[i].likes))
  }

  /** Adding a post under the next id keeps the invariant. */
  lemma AppendKeepsWellFormed(posts: seq<Post>, nextId: PostId, p: Post)
    requires WellFormed(posts, nextId)
    requires p.id == nextId && Truthy(p.author) && NoDuplicates(p.likes)
    ensures WellFormed(posts + [p], nextId + 1)
  {
    var s := posts + [p];
    assert forall k :: 0 <= k < |posts| ==> s[k] == posts[k];
    assert s[|posts|] == p;
    forall a, b | 0 <= a < b < |s| ensures s[a].id != s[b].id {
      if b < |posts| {
        assert s[a] == posts[a] && s[b] == posts[b];
      } else {
        assert s[a].id < nextId;
      }
    }
  }

  /** Rewriting one post in place, keeping its id, keeps the invariant and
      keeps every post findable where it was. */
  lemma ReplaceKeepsWellFormed(posts: seq<Post>, nextId: PostId, i: nat, p: Post)
    requires WellFormed(posts, nextId)
    requires i < |posts| && p.id == posts[i].id && Truthy(p.author) && NoDuplicates(p.likes)
    ensures WellFormed(posts[i := p], nextId)
    ensures forall id :: IndexOfPost(posts[i := p], id) == IndexOfPost(posts, id)
  {
    var s := posts[i := p];
    assert forall k :: 0 <= k < |s| ==> s[k].id == posts[k].id;
    forall id ensures IndexOfPost(s, id) == IndexOfPost(posts, id) {
      IndexOfPostSameIds(s, posts, id);
    }
  }

  /** Removing one post keeps the invariant, and its id is then not found. */
  lemma RemoveKeepsWellFormed(posts: seq<Post>, nextId: PostId, i: nat)
    requires WellFormed(posts, nextId)
    requires i < |posts|
    ensures WellFormed(posts[..i] + posts[i + 1..], nextId)
    ensures IndexOfPost(posts[..i] + posts[i + 1..], posts[i].id) == -1
  {
    var s := posts[..i] + posts[i + 1..];
    assert forall k :: 0 <= k < |s| ==> s[k] == posts[if k < i then k else k + 1];
  }

  /** What one toggle does to a duplicate-free likes list, in the terms the
      controller answers in: the new membership and the new count. */
  lemma ToggleOutcome(likes: seq<string>, u: string)
    requires NoDuplicates(likes)
    ensures NoDuplicates(Toggled(likes, u))
    ensures (u in Toggled(likes, u)) == (u !in likes)
    ensures |Toggled(likes, u)| == if u in likes then |likes| - 1 else |likes| + 1
  {
    ToggleKeepsNoDuplicates(likes, u);
    if u in likes {
      ToggleRemovesFirstWhenPresent(likes, u);
    }
  }

  /** One toggle of `u` on post `i`, as the store applies it: the invariant
      holds afterwards, the like count and membership change as the
      controller answers them, and the single-post view reports the same. */
  lemma ToggleAtKeepsWellFormed(posts: seq<Post>, nextId: PostId, comments: seq<Comment>, i: nat, u: string, now: nat)
    requires WellFormed(posts, nextId) && i < |posts|
    ensures var p := posts[i].(likes := Toggled(posts[i].likes, u), updatedAt := now);
      WellFormed(posts[i := p], nextId) &&
      (u in p.likes) == (u !in posts[i].likes) &&
      |p.likes| == (if u in posts[i].likes then |posts[i].likes| - 1 else |posts[i].likes| + 1) &&
      (u != "" ==> GetPostById(posts[i := p], comments, posts[i].id, Some(u)) ==
                   Ok(PostView(p, CountComments(comments, p.id), |p.likes|, u in p.likes)))
  {
    var p := posts[i].(likes := Toggled(posts[i].likes, u), updatedAt := now);
    ToggleOutcome(posts[i].likes, u);
    ReplaceKeepsWellFormed(posts, nextId, i, p);
    assert IndexOfPost(posts, posts[i].id) == i;
  }

  class Store {
    /** The post collection, in insertion order. */
    var posts: seq<Post>
    /** The comment collection; the comment controller writes it, not this one. */
    var comments: seq<Comment>
    /** The id the next created post gets. */
    var nextId: PostId

    /** The object invariant: `WellFormed` over the fields. */
    ghost predicate Valid()
      reads this
    {
      WellFormed(posts, nextId)
    }

    /** A store with no posts over an existing comment collection. */
    constructor (initial: seq<Comment>)
      ensures Valid()
      ensures posts == [] && comments == initial && nextId == 0
    {
      posts, comments, nextId := [], initial, 0;
    }

    /** `createPost`: the author is the caller's `userId`, the cover is the
        uploaded file's path or `null`, and the schema's validation decides
        (a missing or `null` required field is refused like an empty one). */
    method CreatePost(input: PostInput, file: Option<string>, caller: Caller, now: nat) returns (r: Outcome<PostId>)
      requires Valid()
      modifies this
      ensures Valid()
      ensures comments == old(comments)
      ensures r.Ok? <==> Truthy(input.title) && Truthy(input.summary) && Truthy(input.content) && caller.userId != ""
      ensures r.Err? ==> r.error == Invalid && posts == old(posts) && nextId == old(nextId)
      ensures r.Ok? ==>
        r.value == old(nextId) && nextId == old(nextId) + 1 &&
        posts == old(posts) + [Post(r.value, input.title, input.summary, input.content, CoverOf(file),
                                     Given(caller.userId), [], now, now)] &&
        ValidPost(posts[|posts| - 1])
      ensures r.Ok? ==>
        forall viewer :: GetPostById(posts, comments, r.value, viewer) ==
                         Ok(PostView(posts[|posts| - 1], CountComments(comments, r.value), 0, false))
    {
      var p := NewPost(nextId, input.title, input.summary, input.content, CoverOf(file), Given(caller.userId), now);
      if !ValidPost(p) {
        return Err(Invalid);
      }
      AppendKeepsWellFormed(posts, nextId, p);
      IndexOfAppended(posts, p);
      posts := posts + [p];
      r := Ok(nextId);
      nextId := nextId + 1;
    }

    /** `toggleLike`: find the post, then splice the caller out of its likes at
        the first occurrence or push them on the end, save, and answer with the
        saved list's length and the caller's membership in it. `save` validates
        the whole document, so a post that an update left with an empty
        required field cannot be saved, and the toggle fails with nothing changed. */
    method ToggleLike(postId: PostId, caller: Caller, now: nat) returns (r: Outcome<LikeState>)
      requires Valid()
      modifies this
      ensures Valid()
      ensures comments == old(comments) && nextId == old(nextId)
      ensures var i := IndexOfPost(old(posts), postId);
        if i < 0 then
          r == Err(NotFound) && posts == old(posts)
        else if !ValidPost(old(posts)[i]) then
          r == Err(Invalid) && posts == old(posts)
        else
          posts == old(posts)[i := old(posts)[i].(likes := Toggled(old(posts)[i].likes, caller.id), updatedAt := now)] &&
          r == Ok(LikeState(|posts[i].likes|, caller.id in posts[i].likes)) &&
          r.value.isLiked == (caller.id !in old(posts)[i].likes) &&
          r.value.likesCount == if caller.id in old(posts)[i].likes then |old(posts)[i].likes| - 1
                                else |old(posts)[i].likes| + 1
      ensures r.Ok? && caller.id != "" ==>
        GetPostById(posts, comments, postId, Some(caller.id)).Ok? &&
        GetPostById(posts, comments, postId, Some(caller.id)).value.likesCount == r.value.likesCount &&
        GetPostById(posts, comments, postId, Some(caller.id)).value.isLiked == r.value.isLiked
    {
      var i := IndexOfPost(posts, postId);
      if i < 0 {
        return Err(NotFound);
      }
      var post := posts[i];
      var likes := post.likes;
      var likeIndex := FirstIndex(likes, caller.id);
      if likeIndex > -1 {
        likes := likes[..likeIndex] + likes[likeIndex + 1..];
      } else {
        likes := likes + [caller.id];
      }
      assert likes == Toggled(post.likes, caller.id);
      LikesAndTimestampsAreFree(post, likes, post.createdAt, now);
      if !ValidPost(post.(likes := likes, updatedAt := now)) {
        return Err(Invalid);
      }
      ToggleAtKeepsWellFormed(posts, nextId, comments, i, caller.id, now);
      posts := posts[i := post.(likes := likes, updatedAt := now)];
      r := Ok(LikeState(|likes|, caller.id in likes));
    }

    /** `updatePost`: not-found, then forbidden unless the caller's `userId` is
        the author; otherwise the title, summary and content the body carries
        overwrite the stored ones, an explicit `null` included (a field
        missing from the body is left as it is), the cover is replaced only
        when a file came with the request, and the updated post is answered.
        No validation runs on this path. */
    method UpdatePost(postId: PostId, input: PostInput, file: Option<string>, caller: Caller, now: nat)
      returns (r: Outcome<Post>)
      requires Valid()
      modifies this
      ensures Valid()
      ensures comments == old(comments) && nextId == old(nextId)
      ensures var i := IndexOfPost(old(posts), postId);
        if i < 0 then
          r == Err(NotFound) && posts == old(posts)
        else if old(posts)[i].author != Given(caller.userId) then
          r == Err(Forbidden) && posts == old(posts)
        else
          |posts| == |old(posts)| &&
          (forall j :: 0 <= j < |posts| && j != i ==> posts[j] == old(posts)[j]) &&
          r == Ok(posts[i]) &&
          posts[i].id == old(posts)[i].id &&
          posts[i].author == old(posts)[i].author &&
          posts[i].likes == old(posts)[i].likes &&
          posts[i].createdAt == old(posts)[i].createdAt &&
          posts[i].updatedAt == now &&
          posts[i].title == (if input.title.Absent? then old(posts)[i].title else input.title) &&
          posts[i].summary == (if input.summary.Absent? then old(posts)[i].summary else input.summary) &&
          posts[i].content == (if input.content.Absent? then old(posts)[i].content else input.content) &&
          posts[i].cover == (if file.Some? then Given(file.value) else old(posts)[i].cover)
      ensures r.Ok? && ValidPost(old(posts)[IndexOfPost(old(posts), postId)]) &&
              (!input.title.Absent? ==> Truthy(input.title)) &&
              (!input.summary.Absent? ==> Truthy(input.summary)) &&
              (!input.content.Absent? ==> Truthy(input.content)) ==>
        ValidPost(r.value)
    {
      var i := IndexOfPost(posts, postId);
      if i < 0 {
        return Err(NotFound);
      }
      var post := posts[i];
      if post.author != Given(caller.userId) {
        return Err(Forbidden);
      }
      if !input.title.Absent? {
        post := post.(title := input.title);
      }
      if !input.summary.Absent? {
        post := post.(summary := input.summary);
      }
      if !input.content.Absent? {
        post := post.(content := input.content);
      }
      if file.Some? {
        post := post.(cover := Given(file.value));
      }
      post := post.(updatedAt := now);
      ReplaceKeepsWellFormed(posts, nextId, i, post);
      posts := posts[i := post];
      r := Ok(post);
    }

    /** `deletePost`: remove the post with that id, or answer not-found. Its
        comments stay in the comment collection. */
    method DeletePost(postId: PostId) returns (r: Outcome<()>)
      requires Valid()
      modifies this
      ensures Valid()
      ensures comments == old(comments) && nextId == old(nextId)
      ensures var i := IndexOfPost(old(posts), postId);
        if i < 0 then
          r == Err(NotFound) && posts == old(posts)
        else
          r == Ok(()) && posts == old(posts)[..i] + old(posts)[i + 1..]
      ensures forall viewer :: GetPostById(posts, comments, postId, viewer) == Err(NotFound)
    {
      var i := IndexOfPost(posts, postId);
      if i < 0 {
        return Err(NotFound);
      }
      RemoveKeepsWellFormed(posts, nextId, i);
      posts := posts[..i] + posts[i + 1..];
      r := Ok(());
    }
  }
}
