# Posts controller model

A Dafny model of the request handlers of the `posts` resource in a MERN
"memories" application (`server/controllers/posts.js`). Each handler takes
the collection of posts and the request data and gives back the collection
afterwards plus the response it sends. The model covers listing with
pagination, fetching one post, creating, updating, deleting, toggling a like
and appending a comment. The document database is replaced by a
`map<Id, Post>`. Whether an id is a well-formed ObjectId is the abstract
parameter `isValid`.

Files:

- `wrappers.dfy`: `Option`, for fields a request body may leave out and for a
  missing caller identity.
- `likes.dfy`: the like toggle on a sequence of user ids, the filter it uses
  to unlike, and their laws.
- `pagination.dfy`: offset and page-count arithmetic for a general page size.
  The handler's hard-coded page size is 1.
- `posts.dfy`: the post document, the request body, the body-into-post merge,
  the store and the responses.
- `controller.dfy`: the handlers and the lemmas that relate them.

Modelling choices:

- The caller identity set by the authentication middleware is an
  `Option<string>`. The like handler's `!request.userId` test is true for a
  missing id and for the empty string, so `Authenticated` requires a
  non-empty id. User ids are already strings, so `String(request.userId)` is
  the id itself.
- The listing handler gets the whole collection already sorted newest-first
  (the store's `sort({_id: -1})`). The total count is that sequence's length.
- `page` is an integer. For a page below 1, `(page - 1) * 1` is negative.
  MongoDB rejects a negative skip with an error, which the handler's catch
  turns into a 404 carrying the error message.
- Create spreads the body first and then sets `creator` and `createdAt`. So
  `creator` is always the caller's id, or unset when there is none, and a
  body `_id` is honoured. Saving fails with 409 when that id cannot be cast
  to an ObjectId or is already stored. Otherwise the store assigns `freshId`,
  which is assumed well formed and unused.
- On update, `findByIdAndUpdate` sets only the fields the body carries. It
  does not insert, so a well-formed id with no post answers `null` with status
  200 and leaves the store alone.
- Text fields the client never sent are `None`. Array fields start empty.
  The schema file `server/models/postMessage.js` is not part of this model,
  so `Post` carries the fields the handlers read or write: title, message,
  tags, creator, createdAt, likes and comments.

Properties a reader might expect that the code does not have:

- Looking up a deleted post answers `null` with status 200, not a
  not-found status (`DeleteThenGet`).
- Each user appearing in `likes` at most once is not an invariant of the
  collection. Liking, commenting and deleting keep it, but create and update store whatever
  `likes` array the body carries (`UpdateMayDuplicateLikes`). Update can
  likewise replace `comments` with a shorter array, so comments only grow
  under the comment handler.
- An unauthenticated like answers `{message: 'Unauthenticated'}` with the
  default status 200, and does so before looking at the id.

## Model

| member | source | states |
|---|---|---|
| Likes.RemoveAll | server/controllers/posts.js:118 | the unlike filter drops every occurrence of the user, keeps every other id exactly as often as before, and keeps their relative order (the result is a subsequence) |
| Likes.RemoveAllUnique | server/controllers/posts.js:118 | those three facts determine the filtered sequence: any subsequence that drops the user and keeps every other id's count equals the filter's result |
| Likes.Toggle | server/controllers/posts.js:111-119 | after a like click the caller is a member exactly when they were not before, other users' membership is unchanged, an absent caller is appended at the end, and a present caller is filtered out with the rest kept in order |
| Likes.ToggleTwiceFromAbsent | server/controllers/posts.js:111-119 | like then unlike by a user who did not like the post restores the original `likes` sequence exactly |
| Likes.ToggleTwiceFromPresent | server/controllers/posts.js:111-119 | on a duplicate-free `likes` containing the user, unlike then like restores the same multiset of ids, with the user moved to the end |
| Likes.ToggleKeepsDistinct | server/controllers/posts.js:111-119 | a toggle keeps a duplicate-free `likes` duplicate-free |
| Pagination.CeilDiv | server/controllers/posts.js:27 | the page count `n` is the ceiling of total over page size: `n * limit >= total` and `(n - 1) * limit < total` unless `n` is 0 |
| Pagination.PageOf | server/controllers/posts.js:21-25 | a page exists exactly for page numbers from 1, holds at most `limit` entries, and holds the entries that start at offset `(page - 1) * limit`, as many as the listing has left up to `limit` |
| Pagination.PageNonEmptyIff | server/controllers/posts.js:21-27 | a page holds entries exactly when its number is between 1 and the reported page count |
| Pagination.PagesCoverListing | server/controllers/posts.js:21-27 | concatenating pages 1 to the reported page count gives back the whole sorted listing, each post once and in order |
| Pagination.UnitPages | server/controllers/posts.js:21-27 | with page size 1 the page count equals the total, page `p` in range holds just the `p`-th newest post, and later pages are empty |
| Posts.MergeLaws | server/controllers/posts.js:81-85 | the update sets exactly the fields the body carries: each carried field takes the body's value, each omitted field keeps the stored value, and the id is never touched; so an empty body changes nothing and merging twice equals merging once |
| Controller.GetPost | server/controllers/posts.js:5-15 | 404 exactly for an id that cannot be cast; a well-formed id yields status 200 with the stored post when there is one and with `null` otherwise |
| Controller.GetPosts | server/controllers/posts.js:17-31 | pages below 1 fail with 404; otherwise the response echoes the page, reports the total as the page count, and carries at most one post: the page-th newest, or none past the end |
| Controller.CreatePost | server/controllers/posts.js:60-72 | 409 with the store unchanged when the body's own id cannot be cast or is taken; otherwise exactly one new key, `creator` is the caller whatever the body says, `createdAt` is now, title, message and tags are the body's, likes and comments are the body's or empty, other posts are untouched, and the response is 201 with the new post |
| Controller.UpdatePost | server/controllers/posts.js:74-88 | a malformed id answers plain-text 404 "No post with that id" with the store unchanged; a well-formed absent id answers `null` with no change; otherwise only that post changes, to the merged body with `_id` kept as the path id |
| Controller.DeletePost | server/controllers/posts.js:90-99 | a malformed id answers plain-text 404 with the store unchanged; otherwise the key is gone, every other post is kept, the size drops by one only if the key existed, and success is reported either way |
| Controller.LikePost | server/controllers/posts.js:101-124 | no caller identity answers "Unauthenticated" (status 200) with the store unchanged whatever the id; then a malformed id answers 404; otherwise only that post's `likes` changes: an absent caller is appended at the end, a present one is filtered out with every other liker kept in order (`Likes.RemoveAll`) |
| Controller.CommentPost | server/controllers/posts.js:126-137 | `comments` grows by exactly one, the old comments are an unchanged prefix, the last one is the value, no other field or post changes, and there is no de-duplication |
| Controller.LikeTwiceRestores | server/controllers/posts.js:111-121 | two likes by a user who did not like the post leave the whole collection as it was |
| Controller.LikesDistinctPreserved | server/controllers/posts.js:111-121 | liking, commenting and deleting keep every post's `likes` duplicate-free |
| Controller.UpdateMayDuplicateLikes | server/controllers/posts.js:81-85 | an update whose body repeats a user in `likes` leaves a post with duplicate likes |
| Controller.CreateKeepsWellFormed | server/controllers/posts.js:63-66 | creating keeps every post stored under its own well-formed id |
| Controller.UpdateKeepsWellFormed | server/controllers/posts.js:78-85 | updating keeps every post under its own well-formed id, whatever `_id` the body carries |
| Controller.OthersKeepWellFormed | server/controllers/posts.js:90-137 | deleting, liking and commenting keep every post under its own well-formed id |
| Controller.DeleteThenGet | server/controllers/posts.js:96-98 | after deleting a well-formed id, fetching it answers `null` with status 200 |
| Controller.CreateLikeUnlike | server/controllers/posts.js:63-119 | a post created by a user has that creator and no likes or comments; the user's first like gives `likes == [u]`, and the second gives `[]` |

## Left out

- `getPostsBySearch`: its title filter is a JavaScript regular expression built from user input, so modelling it would mean modelling regex semantics.
- MongoDB and Mongoose themselves: `findById`, `find().sort().skip().limit()`, `countDocuments`, `save`, `findByIdAndUpdate` and `findByIdAndRemove` become map operations. ObjectId ordering is replaced by an already sorted listing, and `ObjectId.isValid` by the `isValid` parameter.
- Schema validation on save beyond the id cast, and the schema's other pass-through fields (such as `name` and `selectedFile`).
- Error message texts from the store: they become the `StoreError` kinds.
- `new Date().toISOString()`: the timestamp is the parameter `now`.
- `Number(page)` on input that is not a number (NaN): `page` is an integer.
- The crashes when `likePost` or `commentPost` finds no post, or when `commentPost` cannot cast the id (it never checks it): these handlers require the post to exist.
- Console logging and the framework's response plumbing beyond status and body.
- The read-modify-write race between concurrent like requests: the model is sequential.
