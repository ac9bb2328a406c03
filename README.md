# Mernlog content store, in Dafny

A model of the post side of the Mernlog blogging backend. It covers the post
controller's six actions, the Post schema, and the User schema with its two
unique indexes.

- **Post and Comment records** (module `PostSchema`). A Post has title,
  summary, content, author, an optional cover, a `likes` list of user ids and
  two timestamps. Every String field is a `Field`: missing from the document
  (`undefined`), an explicit `null`, or a string. Validity means every
  required String is a non-empty string. That is what Mongoose's `required`
  check accepts for a String.
- **User records** (module `UserSchema`). A user has a required `userId`, and
  a password that is required exactly when `kakaoId` is falsy. The model also
  has the unique index on `userId` and the sparse unique index on `kakaoId`.
  The sparse index skips only users whose document lacks `kakaoId`; an
  explicit `null` is indexed, so two users storing `null` collide.
  `Insert` saves a user: schema validation first, then the duplicate-key check
  of the two indexes.
- **The like toggle** (module `Likes`). `findIndex` finds the caller's id, then
  `splice` removes it or `push` appends it, all written as functions on the
  list.
- **The read side** (module `Aggregation`):
  - `ListPosts` is `getPosts`: the `parseInt(x) || default` query defaults,
    `skip = page * limit`, newest-first order, skip and limit, and one view per
    returned post. Each view carries `commentCount`, `likesCount` and
    `isLiked`. The answer also carries `total` and `hasMore`.
  - `GetPostById` is `getPostById`.
- **The write side** (module `ContentStore`). Class `Store` holds the post
  collection, the comment collection and the next free post id. It has one
  method per writing action: `CreatePost`, `UpdatePost`, `DeletePost` and
  `ToggleLike`. Its invariant `WellFormed` says:
  - post ids are unique;
  - every stored post has an author;
  - no likes list holds a user twice.

The caller has two identities, as in the controller. `Caller.userId` is the
author identity used by create and update. `Caller.id` is the identity that
likes are recorded under. The read endpoints take the optional caller id as
`viewer`. An absent or empty viewer id likes nothing, because of
`req.user?.id || null` followed by a truthiness test.

Modelling choices:
- Post ids are naturals handed out by the store's counter. Cover paths and user
  ids are opaque strings.
- Clock readings are parameters (`now`).
- The two `create`/`find` calls become operations on sequences.
- The `Promise.all` over the page runs one post after another (`Views`).
- Timestamps follow Mongoose's `timestamps: true`:
  - create sets both timestamps;
  - `findByIdAndUpdate` and `save` set `updatedAt`.
- `updatePost` passes `{ title, summary, content }` to `findByIdAndUpdate`.
  The model follows Mongoose 6 and later: keys whose value is `undefined` are
  dropped from an update, and no validators run there. So a field missing from
  the body is left as it was, while an explicit `null` or an empty string is
  stored as given. The post stays valid when the given
  fields are non-empty. `save` in `toggleLike` does validate the whole document,
  so a toggle on a post left with an empty required field fails (`Err(Invalid)`,
  a 500 in the controller) and changes nothing.
- MongoDB refuses a negative `skip`. The controller answers that with a 500,
  modelled as `Err(Failure)`. A negative `limit` is read by MongoDB as its
  absolute value (`BatchSize`).
- Posts with equal `createdAt` are listed in stored order. MongoDB fixes no
  order among such ties, and two queries may order them differently; the model
  picks one. `NewestFirstUnique` shows that without ties there is only one
  newest-first order, so there the model's order is the database's.
- `createPost` stores `cover: null` when no file came (`CoverOf`).
- `createPost` only answers a message. `CreatePost` also returns the new id so
  that its contract can name the created post.
- `ToggleLike` answers exactly what a later `GetPostById` by the same caller
  reports, for any non-empty caller id. A toggle by the empty id does report
  `isLiked: true`, while every view treats the empty viewer id as no caller.

Two facts of the code worth stating outright:
- `userId` is required on every user; only the password depends on `kakaoId`.
- The sort has no tie-breaking key; the model lists ties in stored order.

The controller imports `../models/Post.js`; the Post schema modelled here is
the one in `model/post.js`, taken to describe the same record.

## Model

| member | source | states |
|---|---|---|
| Common.Truthy | models/User.js:13-15 | no contract of its own: JavaScript truthiness of a String field, which is also Mongoose's String `required` check; stated through ValidPost by NewPost and MissingRequiredFieldIsInvalid, and through ValidUser by ValidUserMeaning |
| PostSchema.ValidPost | model/post.js:5-24 | no contract of its own: the schema's validation, every required String a non-empty string; stated by NewPost, MissingRequiredFieldIsInvalid, CoverIsOptional and LikesAndTimestampsAreFree |
| PostSchema.NewPost | model/post.js:3-34 | a created post has empty likes and both timestamps at the creation time; it is valid exactly when title, summary, content and author are non-empty |
| PostSchema.MissingRequiredFieldIsInvalid | model/post.js:5-24 | a post whose title, summary, content or author is missing or null is invalid |
| PostSchema.CoverIsOptional | model/post.js:17-20 | validity does not depend on the cover |
| PostSchema.LikesAndTimestampsAreFree | model/post.js:25-33 | validity does not depend on the likes list or the timestamps |
| PostSchema.IndexOfPost | controllers/postController.js:71-74 | `findById`: -1 exactly when no post has the id, otherwise the first position holding it |
| UserSchema.PasswordRequired | models/User.js:13-15 | no contract of its own: `!this.kakaoId`; stated by PasswordOnlyWithoutKakao and ValidUserMeaning |
| UserSchema.ValidUser | models/User.js:5-16 | no contract of its own: a non-empty userId, and a non-empty password unless the Kakao id is non-empty; stated by ValidUserMeaning and PasswordOnlyWithoutKakao |
| UserSchema.IndexKey | models/User.js:8 | the key an index stores for a field: the string when there is one, and null for a missing or null field |
| UserSchema.UniqueUserIds | models/User.js:5-9 | no contract of its own: no two users have the same userId key; kept by Insert and used by DirectoryKeysDistinct |
| UserSchema.UniqueKakaoIds | models/User.js:18-22 | no contract of its own: no two users whose document has kakaoId, null included, have the same key; kept by Insert and used by DirectoryKeysDistinct |
| UserSchema.ValidDirectory | models/User.js:3-28 | no contract of its own: every user valid and both indexes without a clash; kept by Insert and used by DirectoryKeysDistinct |
| UserSchema.Collides | models/User.js:5-22 | no contract of its own: a new user meets a stored one in the userId index or, when both store kakaoId, in the kakaoId index; stated by Insert, DuplicateUserIdConflicts, NullKakaoIdsCollide and SparseKakaoId |
| UserSchema.ValidUserMeaning | models/User.js:5-16 | a valid user has a non-empty userId, and is valid exactly when it also has a password or a Kakao id |
| UserSchema.PasswordOnlyWithoutKakao | models/User.js:10-22 | a user with a non-empty Kakao id may omit the password; without one (missing, null or empty) the password is required, even a null one |
| UserSchema.Insert | models/User.js:3-28 | saving fails exactly on a validation failure (Invalid) or on a collision in either unique index (Conflict); on success the user is appended with both timestamps set, and a valid directory stays valid (unique userIds, unique kakaoIds among users that store the field, null included) |
| UserSchema.DuplicateUserIdConflicts | models/User.js:5-9 | a valid user whose userId is already stored is refused with Conflict |
| UserSchema.NullKakaoIdsCollide | models/User.js:18-22 | the sparse index holds an explicit null: a valid user storing `kakaoId: null` is refused with Conflict when another user stores null |
| UserSchema.SparseKakaoId | models/User.js:18-22 | a valid user whose document lacks kakaoId and with a new userId is always accepted, however many users lack the field |
| UserSchema.DirectoryKeysDistinct | models/User.js:5-22 | in a valid directory no two users share a userId, nor a kakaoId both store (so at most one stores null) |
| Likes.FirstIndex | controllers/postController.js:163 | `findIndex`: -1 exactly when the user is absent, otherwise a position holding the user with no earlier occurrence |
| Likes.NoDuplicates | controllers/postController.js:163-169 | no contract of its own: no user twice in a likes list; kept by ToggleKeepsNoDuplicates |
| Likes.Toggled | controllers/postController.js:163-169 | no contract of its own: `splice` at the first occurrence or `push`; stated by ToggleAppendsWhenAbsent, ToggleRemovesFirstWhenPresent, ToggleTwiceFromAbsent, ToggleTwiceFromPresent and ToggleKeepsNoDuplicates |
| Likes.ToggleAppendsWhenAbsent | controllers/postController.js:167-169 | toggling an absent user appends them: length grows by one, earlier entries unchanged |
| Likes.ToggleRemovesFirstWhenPresent | controllers/postController.js:163-166 | toggling a present user removes exactly the first occurrence: length shrinks by one, the other entries keep their order, one copy of the user is gone |
| Likes.ToggleTwiceFromAbsent | controllers/postController.js:163-169 | two toggles from "not liked" restore the list exactly |
| Likes.ToggleTwiceFromPresent | controllers/postController.js:163-169 | two toggles from "liked" (no duplicates) restore membership, count and contents, with the user moved to the end |
| Likes.ToggleKeepsNoDuplicates | controllers/postController.js:163-174 | on a duplicate-free list a toggle flips the user's membership, leaves everyone else's alone and keeps the list duplicate-free |
| Aggregation.CountComments | controllers/postController.js:42-44 | `Comment.countDocuments({ postId })`: the count is at most the number of comments; that it is the number of comments about the post is stated by CountCommentsIsMultiplicity and CountCommentsAppend |
| Aggregation.CountCommentsIsMultiplicity | controllers/postController.js:42-44 | the comment count of a post is the number of comments whose postId is that post's id |
| Aggregation.CountCommentsAppend | controllers/postController.js:77 | one more comment about the post adds one to its count; a comment about another post adds nothing |
| Aggregation.LikedBy | controllers/postController.js:37-50 | no contract of its own: `userId ? likes.some(...) : false` with `userId = req.user?.id or null`; stated by ViewFields |
| Aggregation.View | controllers/postController.js:42-50 | no contract of its own: the post with commentCount, likesCount and isLiked; stated by ViewFields and FreshPostView |
| Aggregation.ViewFields | controllers/postController.js:42-50 | a view carries the post, its comment count, `likesCount` equal to the length of likes, and `isLiked` exactly when the caller id is present, non-empty and in likes |
| Aggregation.FreshPostView | model/post.js:25-29 | a post with the default empty likes shows zero likes and is liked by nobody |
| Aggregation.NewestFirst | controllers/postController.js:33 | no contract of its own: non-increasing `createdAt`, the order `sort({ createdAt: -1 })` promises; established by SortNewestFirstCorrect |
| Aggregation.InsertNewest | controllers/postController.js:33 | one insertion step of the sort: one post longer; that it adds exactly that post and keeps the order is stated by InsertNewestPermutes and InsertNewestSorted |
| Aggregation.InsertNewestPermutes | controllers/postController.js:33 | inserting into the ordered list adds exactly one copy of the post |
| Aggregation.InsertNewestSorted | controllers/postController.js:33 | inserting into a newest-first list keeps it newest first |
| Aggregation.NewestFirstUnique | controllers/postController.js:32-33 | when no two posts share a creation time, any two newest-first orders of the same posts are equal, so the model's order is the one the database returns |
| Aggregation.SortNewestFirst | controllers/postController.js:33 | keeps the number of posts; that it is a newest-first permutation is stated by SortNewestFirstCorrect, and that without ties it is the only one by NewestFirstUnique |
| Aggregation.SortNewestFirstCorrect | controllers/postController.js:32-33 | `sort({ createdAt: -1 })` yields non-increasing creation times and is a permutation of the posts |
| Aggregation.PageOf | controllers/postController.js:27 | no contract of its own: `parseInt(req.query.page) or 0`; stated by DefaultQuery |
| Aggregation.LimitOf | controllers/postController.js:28 | no contract of its own: `parseInt(req.query.limit) or 3`; stated by DefaultQuery, never 0 |
| Aggregation.SkipOf | controllers/postController.js:29 | no contract of its own: `page * limit`; used by ListPosts and EveryPostOnItsPage |
| Aggregation.OrDefault | controllers/postController.js:27-28 | `parseInt(x) or d` gives the default exactly when the parsed value is NaN or 0, and the parsed value otherwise |
| Aggregation.DefaultQuery | controllers/postController.js:27-28 | a missing, unparsable or zero page is 0 and such a limit is 3, whatever the other parameter; any other value is taken as given; the limit is never 0 |
| Aggregation.BatchSize | controllers/postController.js:35 | the most posts a find returns for a nonzero limit (the only kind the controller passes): the limit itself, or its absolute value when it is negative |
| Aggregation.Window | controllers/postController.js:34-35 | skip/limit returns `limit` posts, or what is left after `skip`, and entry k is the post at position skip + k |
| Aggregation.Views | controllers/postController.js:40-53 | one view per returned post, in order |
| Aggregation.Listing | controllers/postController.js:32-35 | no contract of its own: the sort, skip and limit, the views, `total` and `hasMore` of lines 32-35 and 55; stated by ListingSpec, HasMoreIffPostsRemain and PageEntry |
| Aggregation.ListPosts | controllers/postController.js:25-66 | a server failure exactly when skip = page * limit is negative; otherwise total counts every post, at most BatchSize(limit) posts come back, and hasMore holds exactly when more than skip + BatchSize(limit) posts exist; and on success the answer is `Listing` at that skip and page size, whose contents ListingSpec states |
| Aggregation.ListingSpec | controllers/postController.js:29-61 | total counts all posts; at most `limit` posts come back; they are the sorted posts from `skip` on, newest first, each a stored post; `hasMore == total > skip + returned` |
| Aggregation.HasMoreIffPostsRemain | controllers/postController.js:55 | `hasMore` holds exactly when more than skip + limit posts exist; the page size is limit or what remains |
| Aggregation.PageEntry | controllers/postController.js:29-35 | a page starting at skip shows the post at sorted position k at entry k - skip |
| Aggregation.EveryPostOnItsPage | controllers/postController.js:27-35 | when no two posts share a creation time, with pages of n, the post at position k of whatever newest-first order the database uses is entry k % n of page k / n |
| Aggregation.FivePostsInPagesOfThree | controllers/postController.js:27-61 | five posts in pages of three: page 0 has three and hasMore, page 1 has two and not hasMore, total 5 |
| Aggregation.GetPostById | controllers/postController.js:68-98 | not-found exactly when no post has the id; otherwise the view of a stored post with that id, with its comment count, like count and liked flag |
| Aggregation.ListingAgreesWithDetail | controllers/postController.js:76-91 | with unique ids, every view on a page equals the single-post view of the same post |
| ContentStore.WellFormed | controllers/postController.js:4-180 | no contract of its own: unique post ids below the next id, a non-empty author on every post, no user twice in a likes list; established by Store.constructor and kept by AppendKeepsWellFormed, ReplaceKeepsWellFormed, RemoveKeepsWellFormed and ToggleAtKeepsWellFormed |
| ContentStore.AppendKeepsWellFormed | controllers/postController.js:16 | storing a new post under the next id keeps the store invariant |
| ContentStore.ReplaceKeepsWellFormed | controllers/postController.js:138-140 | rewriting one post in place under the same id keeps the invariant and every lookup |
| ContentStore.RemoveKeepsWellFormed | controllers/postController.js:103 | removing one post keeps the invariant and its id is then not found |
| ContentStore.ToggleAtKeepsWellFormed | controllers/postController.js:163-175 | one toggle on a stored post keeps the store invariant, flips the user's membership, changes the count by one, and the single-post view by that user then reports the new count and membership |
| ContentStore.ToggleOutcome | controllers/postController.js:163-175 | on a duplicate-free list a toggle flips the user's membership and changes the count by one in the matching direction |
| ContentStore.CoverOf | controllers/postController.js:12 | the stored cover is the file's path when a file came, and null otherwise |
| ContentStore.Store.constructor | controllers/postController.js:1-2 | a store without posts over the given comment collection, with the invariant holding |
| ContentStore.Store.CreatePost | controllers/postController.js:4-23 | succeeds exactly when title, summary, content and the caller's userId are non-empty strings (missing and null fail); appends a post authored by the caller's userId with the file path or a null cover, empty likes and both timestamps; the new post is then viewed with 0 likes and not liked; on failure nothing changes |
| ContentStore.Store.UpdatePost | controllers/postController.js:114-150 | not-found and forbidden (author is not the caller's userId) leave the store unchanged; otherwise only the title, summary and content the body carries (an explicit null stored as null, a missing field left as it was), the cover when a file came, and updatedAt change, author, likes and every other post stay, and the updated post is returned |
| ContentStore.Store.DeletePost | controllers/postController.js:100-112 | not-found leaves the store unchanged; otherwise exactly that post is removed, comments stay, and the id is then not found |
| ContentStore.Store.ToggleLike | controllers/postController.js:152-180 | not-found, and a stored post that fails the schema on `save`, leave the store unchanged; otherwise only the target post's likes (toggled) and updatedAt change, and the answer is the new length and the caller's new membership, which is the negation of the old one; a later single-post view by the same caller reports the same count and flag |

## Left out

- `parseInt` itself is not modelled. The query's `page` and `limit` arrive already parsed, with None standing for NaN.
- JavaScript numbers are doubles; the model's integers are unbounded, so precision loss on huge `page * limit` is not modelled.
- MongoDB query mechanics are replaced by operations on sequences: `countDocuments`, `find`, `findById`, `findByIdAndUpdate`, `findByIdAndDelete`, `save`. ObjectId generation becomes the store's id counter. A malformed id string fails to cast to an ObjectId and answers 500; ids here are naturals, so that case is not modelled.
- The catch-all 500 branches and their console logging are modelled only as `Err(Invalid)` and `Err(Failure)`. `Err(Invalid)` stands for a schema refusal: on create, and on the `save` of a toggle whose post an update left invalid. `Err(Failure)` stands for a negative skip. Database outages are not modelled.
- The `Promise.all` concurrency and the read-modify-write race between two concurrent toggles are not modelled. Every action runs alone.
- The authentication middleware that fills `req.user` is not part of this model. Create, update and toggle take a caller; the read endpoints take an optional caller id.
- File upload is reduced to an optional path string.
- EveryPostOnItsPage: placing each post on exactly one page is proved only when no two posts share a creation time, because MongoDB fixes no order among ties and may order them differently on each page query. `ListPosts` lists ties in stored order.
- Mongoose 5 without `omitUndefined` sets an `undefined` update key to `null`; the model follows Mongoose 6 and later, which drop such keys.
- The store's constructor starts without posts over a given comment collection; comments are never added by these actions.
- The comment controller is not part of this model. The store's comment collection is only read, for comment counts, and kept unchanged by every post action.
- Register and login (index.js) are left out because they rest on bcrypt hashing and `jwt.sign`. They work on a different user model, `model/user.js`, keyed by `id`, which is not part of this model. Register checks `findOne({ id })` and answers 409 before saving; the nearest modelled rule is the conflict on the `userId` index of models/User.js in `UserSchema.Insert`.
- Profile (index.js) only verifies the token cookie with `jwt.verify`, and is left out with the JWT handling.
- Logout (index.js) only clears the token cookie, which is HTTP wiring, and is left out.
- BatchSize excludes a limit of 0, which MongoDB reads as "no limit"; the controller never passes it (`parseInt(x) || 3`), and `Listing` and `Window` with `n == 0` give an empty page rather than every post.
- Server bootstrap, CORS, static files, the routing tables and the signal handlers (server.js, routes/) are framework wiring and are left out.
- User profile updates and account deletion are in controllers that are not part of this model.
