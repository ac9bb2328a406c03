/** The read side of the post controller: the per-post view with its comment
    count, like count and "liked by the caller" flag, the newest-first order,
    and the paged listing with its `hasMore` flag. */
module Aggregation {
  import opened Common
  import opened PostSchema

  /** A post as the read endpoints answer it: the record plus its derived counts. */
  datatype PostView = PostView(post: Post, commentCount: nat, likesCount: nat, isLiked: bool)

  /** The answer of the listing endpoint. */
  datatype PageView = PageView(posts: seq<PostView>, hasMore: bool, total: nat)

  /** The raw `page` and `limit` query values after `parseInt`; None is NaN
      (missing or unparsable). */
  datatype PageQuery = PageQuery(page: Option<int>, limit: Option<int>)

  /** `Comment.countDocuments({ postId: id })`. */
  function CountComments(comments: seq<Comment>, id: PostId): (n: nat)
    ensures n <= |comments|
  {
    if comments == [] then 0
    else (if comments[0].postId == id then 1 else 0) + CountComments(comments[1..], id)
  }

  /** The post ids the comments refer to, in order. */
  function PostIdsOf(comments: seq<Comment>): (ids: seq<PostId>)
    ensures |ids| == |comments|
  {
    if comments == [] then [] else [comments[0].postId] + PostIdsOf(comments[1..])
  }

  /** The comment count is the number of comments whose `postId` is `id`. */
  lemma {:induction false} CountCommentsIsMultiplicity(comments: seq<Comment>, id: PostId)
    ensures CountComments(comments, id) == multiset(PostIdsOf(comments))[id]
  {
    if comments != [] {
      CountCommentsIsMultiplicity(comments[1..], id);
      assert PostIdsOf(comments) == [comments[0].postId] + PostIdsOf(comments[1..]);
    }
  }

  /** Comments about other posts do not count, and one more comment about the
      post adds one. */
  lemma {:induction false} CountCommentsAppend(comments: seq<Comment>, c: Comment, id: PostId)
    ensures CountComments(comments + [c], id) == CountComments(comments, id) + (if c.postId == id then 1 else 0)
  {
    if comments != [] {
      assert (comments + [c])[1..] == comments[1..] + [c];
      CountCommentsAppend(comments[1..], c, id);
    } else {
      assert (comments + [c])[1..] == [];
    }
  }

  /** `userId ? post.likes.some(likeId => likeId === userId) : false`, where
      `userId` is `req.user?.id || null`: an absent or empty caller id never likes. */
  predicate LikedBy(viewer: Option<string>, likes: seq<string>)
  {
    if viewer.Some? && viewer.value != "" then viewer.value in likes else false
  }

  /** The derived view of one post. */
  function View(p: Post, comments: seq<Comment>, viewer: Option<string>): PostView
  {
    PostView(p, CountComments(comments, p.id), |p.likes|, LikedBy(viewer, p.likes))
  }

  /** What every view reports: the comment count, the like count and the flag. */
  lemma ViewFields(p: Post, comments: seq<Comment>, viewer: Option<string>)
    ensures View(p, comments, viewer).post == p
    ensures View(p, comments, viewer).commentCount == multiset(PostIdsOf(comments))[p.id]
    ensures View(p, comments, viewer).likesCount == |p.likes|
    ensures View(p, comments, viewer).isLiked <==> viewer.Some? && viewer.value != "" && viewer.value in p.likes
  {
    CountCommentsIsMultiplicity(comments, p.id);
  }

  /** A post nobody has liked yet shows zero likes and is liked by nobody. */
  lemma FreshPostView(p: Post, comments: seq<Comment>, viewer: Option<string>)
    requires p.likes == []
    ensures View(p, comments, viewer).likesCount == 0 && !View(p, comments, viewer).isLiked
  {
  }

  // ---------------------------------------------------------------------------
  // Order: `.sort({ createdAt: -1 })`

  /** Non-increasing creation time. */
  predicate NewestFirst(s: seq<Post>)
  {
    forall i, j :: 0 <= i < j < |s| ==> s[i].createdAt >= s[j].createdAt
  }

  /** No post in `s` is newer than `c`. */
  predicate NotNewerThan(s: seq<Post>, c: nat)
  {
    forall k :: 0 <= k < |s| ==> s[k].createdAt <= c
  }

  /** Insert `p` into a newest-first list, ahead of every post that is not newer. */
  function InsertNewest(p: Post, s: seq<Post>): (r: seq<Post>)
    ensures |r| == |s| + 1
  {
    if s == [] || p.createdAt >= s[0].createdAt then [p] + s
    else [s[0]] + InsertNewest(p, s[1..])
  }

  /** Inserting adds exactly one copy of `p`. */
  lemma {:induction false} InsertNewestPermutes(p: Post, s: seq<Post>)
    ensures multiset(InsertNewest(p, s)) == multiset(s) + multiset{p}
  {
    if s != [] && p.createdAt < s[0].createdAt {
      InsertNewestPermutes(p, s[1..]);
      assert s == [s[0]] + s[1..];
    }
  }

  /** Inserting a post that is not newer than `c` into posts not newer than `c`
      gives posts not newer than `c`. */
  lemma {:induction false} InsertNewestBounded(p: Post, s: seq<Post>, c: nat)
    requires NotNewerThan(s, c) && p.createdAt <= c
    ensures NotNewerThan(InsertNewest(p, s), c)
  {
    if s != [] && p.createdAt < s[0].createdAt {
      InsertNewestBounded(p, s[1..], c);
    }
  }

  /** A list is newest first when its head is not older than the rest and the rest is newest first. */
  lemma NewestFirstCons(x: Post, t: seq<Post>)
    requires NewestFirst(t) && NotNewerThan(t, x.createdAt)
    ensures NewestFirst([x] + t)
  {
    var r := [x] + t;
    forall i, j | 0 <= i < j < |r| ensures r[i].createdAt >= r[j].createdAt {
      assert r[j] == t[j - 1];
      if i > 0 {
        assert r[i] == t[i - 1];
      }
    }
  }

  /** Inserting into a newest-first list keeps it newest first. */
  lemma {:induction false} InsertNewestSorted(p: Post, s: seq<Post>)
    requires NewestFirst(s)
    ensures NewestFirst(InsertNewest(p, s))
  {
    if s == [] || p.createdAt >= s[0].createdAt {
      NewestFirstCons(p, s);
    } else {
      assert NewestFirst(s[1..]);
      InsertNewestSorted(p, s[1..]);
      InsertNewestBounded(p, s[1..], s[0].createdAt);
      NewestFirstCons(s[0], InsertNewest(p, s[1..]));
    }
  }

  /** The posts newest first; posts created at the same time keep their stored order. */
  function SortNewestFirst(s: seq<Post>): (r: seq<Post>)
    ensures |r| == |s|
  {
    if s == [] then [] else InsertNewest(s[0], SortNewestFirst(s[1..]))
  }

  /** No two different posts among `m` were created at the same time. */
  predicate DistinctTimes(m: multiset<Post>)
  {
    forall x, y :: x in m && y in m && x != y ==> x.createdAt != y.createdAt
  }

  /** Two newest-first lists holding the same posts, without ties, start
      with the same post. */
  lemma NewestFirstSameHead(a: seq<Post>, b: seq<Post>)
    requires NewestFirst(a) && NewestFirst(b) && multiset(a) == multiset(b)
    requires DistinctTimes(multiset(a))
    requires a != [] && b != []
    ensures a[0] == b[0]
  {
    assert a[0] in multiset(b);
    var j :| 0 <= j < |b| && b[j] == a[0];
    assert b[0] in multiset(a);
    var i :| 0 <= i < |a| && a[i] == b[0];
    assert a[0].createdAt >= a[i].createdAt;
    assert b[0].createdAt >= b[j].createdAt;
    assert a[0] in multiset(a) && b[0] in multiset(a);
  }

  /** Dropping the same head from two lists holding the same posts leaves
      lists holding the same posts, among them no tie. */
  lemma SameTails(a: seq<Post>, b: seq<Post>)
    requires multiset(a) == multiset(b) && a != [] && b != [] && a[0] == b[0]
    requires DistinctTimes(multiset(a))
    ensures multiset(a[1..]) == multiset(b[1..])
    ensures DistinctTimes(multiset(a[1..]))
  {
    assert a == [a[0]] + a[1..];
    assert b == [b[0]] + b[1..];
    assert multiset(a[1..]) == multiset(a) - multiset{a[0]};
    assert multiset(b[1..]) == multiset(b) - multiset{b[0]};
    forall x, y | x in multiset(a[1..]) && y in multiset(a[1..]) && x != y
      ensures x.createdAt != y.createdAt
    {
      assert x in multiset(a) && y in multiset(a);
    }
  }

  /** The rest of a newest-first list is newest first. */
  lemma NewestFirstTail(s: seq<Post>)
    requires NewestFirst(s) && s != []
    ensures NewestFirst(s[1..])
  {
  }

  /** Lists with the same head and the same tail are equal. */
  lemma SameHeadSameTail(a: seq<Post>, b: seq<Post>)
    requires a != [] && b != [] && a[0] == b[0] && a[1..] == b[1..]
    ensures a == b
  {
    assert a == [a[0]] + a[1..] && b == [b[0]] + b[1..];
  }

  /** Without ties there is only one newest-first order: two newest-first
      lists holding the same posts are the same list. */
  lemma {:induction false} NewestFirstUnique(a: seq<Post>, b: seq<Post>)
    requires NewestFirst(a) && NewestFirst(b) && multiset(a) == multiset(b)
    requires DistinctTimes(multiset(a))
    ensures a == b
  {
    if a == [] || b == [] {
      assert |a| == |multiset(a)| == |b|;
    } else {
      NewestFirstSameHead(a, b);
      SameTails(a, b);
      NewestFirstTail(a);
      NewestFirstTail(b);
      NewestFirstUnique(a[1..], b[1..]);
      SameHeadSameTail(a, b);
    }
  }

  /** The sorted posts are ordered newest first and are a permutation of the posts. */
  lemma {:induction false} SortNewestFirstCorrect(s: seq<Post>)
    ensures NewestFirst(SortNewestFirst(s))
    ensures multiset(SortNewestFirst(s)) == multiset(s)
  {
    if s != [] {
      SortNewestFirstCorrect(s[1..]);
      InsertNewestSorted(s[0], SortNewestFirst(s[1..]));
      InsertNewestPermutes(s[0], SortNewestFirst(s[1..]));
      assert s == [s[0]] + s[1..];
    }
  }

  // ---------------------------------------------------------------------------
  // Paging: `parseInt(x) || d`, `.skip(skip).limit(limit)`, `hasMore`

  /** `parseInt(x) || d`: NaN and 0 are falsy and give the default. */
  function OrDefault(parsed: Option<int>, d: int): (v: int)
    ensures parsed.None? || parsed.value == 0 ==> v == d
    ensures parsed.Some? && parsed.value != 0 ==> v == parsed.value
  {
    if parsed.None? || parsed.value == 0 then d else parsed.value
  }

  function PageOf(q: PageQuery): int { OrDefault(q.page, 0) }
  function LimitOf(q: PageQuery): int { OrDefault(q.limit, 3) }
  function SkipOf(q: PageQuery): int { PageOf(q) * LimitOf(q) }

  /** The number of documents a find with this limit returns at most. MongoDB
      reads a negative limit as its absolute value (in one batch), and a limit
      of 0 as no limit at all; the controller never passes 0, since
      `parseInt(x) || 3` turns 0 into 3, so 0 is excluded here. */
    function BatchSize(limit: int): (n: nat)
    requires limit != 0
    ensures limit > 0 ==> n == limit
    ensures limit < 0 ==> n == -limit
  {
    if limit < 0 then -limit else limit
  }

  /** `.skip(skip).limit(n)` on an already ordered list. */
  function Window(s: seq<Post>, skip: nat, n: nat): (w: seq<Post>)
    ensures |w| == if skip >= |s| then 0 else if skip + n <= |s| then n else |s| - skip
    ensures forall k :: 0 <= k < |w| ==> skip + k < |s| && w[k] == s[skip + k]
  {
    if skip >= |s| then []
    else if skip + n <= |s| then s[skip..skip + n]
    else s[skip..]
  }

  /** One view per post, in order (the `Promise.all` over `posts.map`, run one after another). */
  function Views(s: seq<Post>, comments: seq<Comment>, viewer: Option<string>): (vs: seq<PostView>)
    ensures |vs| == |s|
    ensures forall k :: 0 <= k < |s| ==> vs[k] == View(s[k], comments, viewer)
  {
    if s == [] then [] else [View(s[0], comments, viewer)] + Views(s[1..], comments, viewer)
  }

  /** `.skip(skip).limit(n)` on the newest-first posts, one view per returned
      post, `total` and `hasMore`. The listing endpoint always passes a
      positive `n`; `n == 0` here means an empty page, not MongoDB's "no
      limit". */
  function Listing(posts: seq<Post>, comments: seq<Comment>, skip: nat, n: nat, viewer: Option<string>): PageView
  {
    var page := Window(SortNewestFirst(posts), skip, n);
    PageView(Views(page, comments, viewer), |posts| > skip + |page|, |posts|)
  }

  /** The listing endpoint over the store's posts and comments. A negative skip
      is refused by the database, which the controller answers with a 500. */
  function ListPosts(posts: seq<Post>, comments: seq<Comment>, q: PageQuery, viewer: Option<string>): (r: Outcome<PageView>)
    ensures r.Err? <==> SkipOf(q) < 0
    ensures r.Err? ==> r.error == Failure
    ensures r.Ok? ==>
      r.value.total == |posts| && |r.value.posts| <= BatchSize(LimitOf(q)) &&
      (r.value.hasMore <==> |posts| > SkipOf(q) + BatchSize(LimitOf(q)))
    ensures r.Ok? ==> r.value == Listing(posts, comments, SkipOf(q), BatchSize(LimitOf(q)), viewer)
  {
    var skip := SkipOf(q);
    if skip < 0 then Err(Failure) else Ok(Listing(posts, comments, skip, BatchSize(LimitOf(q)), viewer))
  }

  /** The single-post endpoint: not-found exactly when no post has the id,
      otherwise the view of a stored post with that id. */
  function GetPostById(posts: seq<Post>, comments: seq<Comment>, id: PostId, viewer: Option<string>): (r: Outcome<PostView>)
    ensures r.Err? <==> forall k :: 0 <= k < |posts| ==> posts[k].id != id
    ensures r.Err? ==> r.error == NotFound
    ensures r.Ok? ==>
      r.value.post in posts && r.value.post.id == id &&
      r.value.commentCount == CountComments(comments, id) &&
      r.value.likesCount == |r.value.post.likes| &&
      r.value.isLiked == LikedBy(viewer, r.value.post.likes)
  {
    var i := IndexOfPost(posts, id);
    if i < 0 then Err(NotFound) else Ok(View(posts[i], comments, viewer))
  }

  // ---------------------------------------------------------------------------
  // Properties of the listing

  /** A missing, unparsable or zero `page` is page 0, and a missing,
      unparsable or zero `limit` is a limit of three; any other value is
      taken as given. */
  lemma DefaultQuery(q: PageQuery)
    ensures q.page.None? || q.page == Some(0) ==> PageOf(q) == 0
    ensures q.limit.None? || q.limit == Some(0) ==> LimitOf(q) == 3
    ensures q.page.Some? && q.page.value != 0 ==> PageOf(q) == q.page.value
    ensures q.limit.Some? && q.limit.value != 0 ==> LimitOf(q) == q.limit.value
    ensures LimitOf(q) != 0
  {
  }

  /** The views of a window are the views of the ordered posts from `skip` on,
      newest first, and each is a view of one of the stored posts. */
  lemma WindowViews(posts: seq<Post>, sorted: seq<Post>, skip: nat, n: nat, comments: seq<Comment>, viewer: Option<string>)
    requires NewestFirst(sorted) && multiset(sorted) == multiset(posts) && |sorted| == |posts|
    ensures var vs := Views(Window(sorted, skip, n), comments, viewer);
      (forall k :: 0 <= k < |vs| ==> skip + k < |posts| && vs[k] == View(sorted[skip + k], comments, viewer)) &&
      (forall k :: 0 <= k < |vs| ==> vs[k].post in multiset(posts)) &&
      (forall j, k :: 0 <= j < k < |vs| ==> vs[j].post.createdAt >= vs[k].post.createdAt)
  {
    var page := Window(sorted, skip, n);
    var vs := Views(page, comments, viewer);
    forall k | 0 <= k < |vs| ensures skip + k < |posts| && vs[k] == View(sorted[skip + k], comments, viewer) {
      assert page[k] == sorted[skip + k];
    }
    forall k | 0 <= k < |vs| ensures vs[k].post in multiset(posts) {
      assert vs[k].post == sorted[skip + k];
      assert sorted[skip + k] in multiset(sorted);
    }
    forall j, k | 0 <= j < k < |vs| ensures vs[j].post.createdAt >= vs[k].post.createdAt {
      assert vs[j].post == sorted[skip + j] && vs[k].post == sorted[skip + k];
    }
  }

    /** What a page answers: `total` counts every post, at most `n` posts come
      back, they are the sorted posts from position `skip` on, newest first,
      each is one of the stored posts, and `hasMore == total > skip + returned`. */
  lemma ListingSpec(posts: seq<Post>, comments: seq<Comment>, skip: nat, n: nat, viewer: Option<string>)
    ensures Listing(posts, comments, skip, n, viewer).total == |posts|
    ensures |Listing(posts, comments, skip, n, viewer).posts| <= n
    ensures skip >= |posts| ==> Listing(posts, comments, skip, n, viewer).posts == []
    ensures var vs := Listing(posts, comments, skip, n, viewer).posts;
      forall k :: 0 <= k < |vs| ==>
        skip + k < |posts| && vs[k] == View(SortNewestFirst(posts)[skip + k], comments, viewer)
    ensures var vs := Listing(posts, comments, skip, n, viewer).posts;
      forall k :: 0 <= k < |vs| ==> vs[k].post in multiset(posts)
    ensures var vs := Listing(posts, comments, skip, n, viewer).posts;
      forall j, k :: 0 <= j < k < |vs| ==> vs[j].post.createdAt >= vs[k].post.createdAt
    ensures var r := Listing(posts, comments, skip, n, viewer);
      r.hasMore == (r.total > skip + |r.posts|)
  {
    var sorted := SortNewestFirst(posts);
    SortNewestFirstCorrect(posts);
    WindowViews(posts, sorted, skip, n, comments, viewer);
    var page := Window(sorted, skip, n);
    assert Listing(posts, comments, skip, n, viewer) ==
           PageView(Views(page, comments, viewer), |posts| > skip + |page|, |posts|);
  }

  /** `hasMore` says exactly whether posts remain past this page, that is,
      whether there are more than `skip + n` posts; and the page holds `n`
      posts, or what is left after `skip`. */
  lemma HasMoreIffPostsRemain(posts: seq<Post>, comments: seq<Comment>, skip: nat, n: nat, viewer: Option<string>)
    ensures Listing(posts, comments, skip, n, viewer).hasMore <==> |posts| > skip + n
    ensures |Listing(posts, comments, skip, n, viewer).posts| ==
            if skip >= |posts| then 0 else if skip + n <= |posts| then n else |posts| - skip
  {
  }

  /** Entry `k - skip` of a page that starts at `skip` is the post at sorted position `k`. */
  lemma PageEntry(posts: seq<Post>, comments: seq<Comment>, skip: nat, n: nat, viewer: Option<string>, k: nat)
    requires skip <= k < skip + n && k < |posts|
    ensures var vs := Listing(posts, comments, skip, n, viewer).posts;
      k - skip < |vs| && vs[k - skip] == View(SortNewestFirst(posts)[k], comments, viewer)
  {
    ListingSpec(posts, comments, skip, n, viewer);
    HasMoreIffPostsRemain(posts, comments, skip, n, viewer);
  }

  /** Position `k` falls on the page of `n` posts that starts at `(k / n) * n`. */
  lemma PageStart(k: nat, n: nat)
    requires n > 0
    ensures 0 <= (k / n) * n <= k < (k / n) * n + n
    ensures k - (k / n) * n == k % n
  {
  }

  /** The query for page `k / n` of `n` posts skips to the page start that holds position `k`. */
  lemma PageOfPosition(k: nat, n: nat) returns (skip: nat)
    requires n > 0
    ensures SkipOf(PageQuery(Some(k / n), Some(n))) == skip
    ensures BatchSize(LimitOf(PageQuery(Some(k / n), Some(n)))) == n
    ensures skip <= k < skip + n && k - skip == k % n
  {
    PageStart(k, n);
    skip := (k / n) * n;
  }

  /** When no two posts were created at the same time, every post is listed on
      exactly the page its position falls on, whatever newest-first order the
      database follows: position `k` of any newest-first order of the posts is
      entry `k % n` of page `k / n` when pages hold `n` posts. */
  lemma EveryPostOnItsPage(posts: seq<Post>, comments: seq<Comment>, viewer: Option<string>, n: nat, k: nat,
                           order: seq<Post>)
    requires n > 0 && k < |posts|
    requires DistinctTimes(multiset(posts))
    requires NewestFirst(order) && multiset(order) == multiset(posts)
    ensures |order| == |posts|
    ensures var r := ListPosts(posts, comments, PageQuery(Some(k / n), Some(n)), viewer);
      r.Ok? && k % n < |r.value.posts| &&
      r.value.posts[k % n] == View(order[k], comments, viewer)
  {
    assert |order| == |multiset(order)| == |posts|;
    SortNewestFirstCorrect(posts);
    NewestFirstUnique(order, SortNewestFirst(posts));
    var q := PageQuery(Some(k / n), Some(n));
    var skip := PageOfPosition(k, n);
    assert ListPosts(posts, comments, q, viewer) == Ok(Listing(posts, comments, skip, n, viewer));
    PageEntry(posts, comments, skip, n, viewer, k);
  }

  /** Five posts in pages of three: the first page holds three and has more,
      the second holds the remaining two and has no more. */
  lemma FivePostsInPagesOfThree(posts: seq<Post>, comments: seq<Comment>, viewer: Option<string>)
    requires |posts| == 5
    ensures var r := ListPosts(posts, comments, PageQuery(Some(0), Some(3)), viewer);
      r.Ok? && |r.value.posts| == 3 && r.value.hasMore && r.value.total == 5
    ensures var r := ListPosts(posts, comments, PageQuery(Some(1), Some(3)), viewer);
      r.Ok? && |r.value.posts| == 2 && !r.value.hasMore && r.value.total == 5
  {
    HasMoreIffPostsRemain(posts, comments, 0, 3, viewer);
    HasMoreIffPostsRemain(posts, comments, 3, 3, viewer);
  }

  // ---------------------------------------------------------------------------
  // Properties of the single-post view

  /** The listing and the single-post endpoint derive the same view of a post. */
  lemma ListingAgreesWithDetail(posts: seq<Post>, comments: seq<Comment>, skip: nat, n: nat, viewer: Option<string>, k: nat)
    requires forall a, b :: 0 <= a < b < |posts| ==> posts[a].id != posts[b].id
    requires k < |Listing(posts, comments, skip, n, viewer).posts|
    ensures var v := Listing(posts, comments, skip, n, viewer).posts[k];
      GetPostById(posts, comments, v.post.id, viewer) == Ok(v)
  {
    ListingSpec(posts, comments, skip, n, viewer);
    var v := Listing(posts, comments, skip, n, viewer).posts[k];
    assert v.post in multiset(posts);
    var i :| 0 <= i < |posts| && posts[i] == v.post;
    var j := IndexOfPost(posts, v.post.id);
    assert posts[j].id == v.post.id;
    assert j == i;
  }
}
