/** The request handlers of the posts resource, each a function from the
    collection and the request to the collection afterwards and the response.
    Store calls are replaced by their effect on the map; id well-formedness is
    the parameter `isValid`. */
module Controller {
  import opened Wrappers
  import opened Posts
  import Likes
  import Pagination

  /** The collection after a handler has run, and what it sent back. */
  datatype Handled = Handled(store: Store, response: Response)

  /** The request carries a caller identity; an empty id counts as none, as
      it does for the truthiness test the like handler applies. */
  predicate Authenticated(userId: Option<UserId>) {
    userId.Some? && userId.value != ""
  }

  /** Every entry other than `id` is the same before and after. */
  ghost predicate OthersUnchanged(before: Store, after: Store, id: Id) {
    && (forall k :: k != id ==> (k in after <==> k in before))
    && (forall k :: k != id && k in before ==> after[k] == before[k])
  }

  /** `getPost`. An id that cannot be cast fails the lookup (404); a
      well-formed id that names no post yields `null` with status 200. */
  function GetPost(store: Store, id: Id, isValid: Id -> bool): (r: Response)
    ensures r.status == 404 <==> !isValid(id)
    ensures r.Json? && (r.payload.PostDoc? ==> id in store && r.payload.post == store[id])
    ensures isValid(id) ==> (r.payload.PostDoc? <==> id in store)
    ensures isValid(id) && id in store ==> r == Json(200, PostDoc(store[id]))
    ensures isValid(id) && id !in store ==> r == Json(200, NullDoc)
  {
    if !isValid(id) then Json(404, ErrorDoc(CastError))
    else if id in store then Json(200, PostDoc(store[id]))
    else Json(200, NullDoc)
  }

  /** `getPosts`: `listing` is the whole collection sorted by id,
      newest first. The page holds the `Limit` posts after the first
      `(page - 1) * Limit`; a page below 1 makes the skip negative, which the
      store refuses. */
  function GetPosts(listing: seq<Post>, page: int): (r: Response)
    ensures page < 1 ==> r == Json(404, ErrorDoc(NegativeSkip))
    ensures page >= 1 ==> r.Json? && r.status == 200 && r.payload.PageDoc?
    ensures page >= 1 ==> r.payload.currentPage == page && r.payload.numberOfPages == |listing|
    ensures page >= 1 ==> |r.payload.data| <= 1
    ensures 1 <= page <= |listing| ==> r.payload.data == [listing[page - 1]]
    ensures page > |listing| ==> r.payload.data == []
  {
    var data := Pagination.PageOf(listing, page, Pagination.Limit);
    Pagination.UnitPages(listing, page);
    if data.None? then Json(404, ErrorDoc(NegativeSkip))
    else Json(200, PageDoc(data.value, page, Pagination.CeilDiv(|listing|, Pagination.Limit)))
  }

  /** The document `createPost` builds: the body's fields on a blank post,
      then `creator` set to the caller and `createdAt` to `now`. */
  function NewPost(id: Id, body: Body, userId: Option<UserId>, now: string): Post {
    Merge(Blank(id), body).(creator := userId, createdAt := Some(now))
  }

  /** `createPost`. The store assigns `freshId` unless the body names an id of
      its own; saving fails (409) when that id cannot be cast or is taken. */
  function CreatePost(store: Store, body: Body, userId: Option<UserId>, freshId: Id, now: string,
                      isValid: Id -> bool): (h: Handled)
    requires isValid(freshId) && freshId !in store
    ensures body.id.Some? && !isValid(body.id.value) ==> h == Handled(store, Json(409, ErrorDoc(CastError)))
    ensures body.id.Some? && isValid(body.id.value) && body.id.value in store ==>
      h == Handled(store, Json(409, ErrorDoc(DuplicateKey)))
    ensures h.response.status == 201 <==> body.id.None? || (isValid(body.id.value) && body.id.value !in store)
    ensures h.response.status == 201 ==>
      var id := body.id.GetOr(freshId);
      && id !in store
      && h.store.Keys == store.Keys + {id}
      && OthersUnchanged(store, h.store, id)
      && h.store[id].id == id
      && h.store[id].creator == userId
      && h.store[id].createdAt == Some(now)
      && h.store[id].title == body.title
      && h.store[id].message == body.message
      && h.store[id].tags == body.tags.GetOr([])
      && h.store[id].likes == body.likes.GetOr([])
      && h.store[id].comments == body.comments.GetOr([])
      && h.response == Json(201, PostDoc(h.store[id]))
  {
    var id := body.id.GetOr(freshId);
    if !isValid(id) then Handled(store, Json(409, ErrorDoc(CastError)))
    else if id in store then Handled(store, Json(409, ErrorDoc(DuplicateKey)))
    else
      var post := NewPost(id, body, userId, now);
      Handled(store[id := post], Json(201, PostDoc(post)))
  }

  /** `updatePost`. The body is merged into the stored post with `_id`
      forced to the path id; an absent post is not created. */
  function UpdatePost(store: Store, id: Id, body: Body, isValid: Id -> bool): (h: Handled)
    ensures !isValid(id) ==> h == Handled(store, Text(404, NoPostMessage))
    ensures isValid(id) && id !in store ==> h == Handled(store, Json(200, NullDoc))
    ensures isValid(id) && id in store ==>
      && h.store.Keys == store.Keys
      && OthersUnchanged(store, h.store, id)
      && h.store[id].id == id
      && h.store[id].(id := store[id].id) == Merge(store[id], body)
      && h.response == Json(200, PostDoc(h.store[id]))
  {
    if !isValid(id) then Handled(store, Text(404, NoPostMessage))
    else if id !in store then Handled(store, Json(200, NullDoc))
    else
      var post := Merge(store[id], body).(id := id);
      Handled(store[id := post], Json(200, PostDoc(post)))
  }

  /** `deletePost`. A well-formed id is removed, whether or not a post
      had it, and success is reported either way. */
  function DeletePost(store: Store, id: Id, isValid: Id -> bool): (h: Handled)
    ensures !isValid(id) ==> h == Handled(store, Text(404, NoPostMessage))
    ensures isValid(id) ==>
      && id !in h.store
      && OthersUnchanged(store, h.store, id)
      && |h.store| == (if id in store then |store| - 1 else |store|)
      && h.response == Json(200, MessageDoc(DeletedMessage))
  {
    if !isValid(id) then Handled(store, Text(404, NoPostMessage))
    else Handled(store - {id}, Json(200, MessageDoc(DeletedMessage)))
  }

  /** `likePost`. Identity is checked before the id; the caller's
      membership in `likes` is flipped and nothing else changes. */
  function LikePost(store: Store, id: Id, userId: Option<UserId>, isValid: Id -> bool): (h: Handled)
    requires Authenticated(userId) && isValid(id) ==> id in store
    ensures !Authenticated(userId) ==> h == Handled(store, Json(200, MessageDoc(UnauthenticatedMessage)))
    ensures Authenticated(userId) && !isValid(id) ==> h == Handled(store, Text(404, NoPostMessage))
    ensures Authenticated(userId) && isValid(id) ==>
      var u := userId.value;
      && h.store.Keys == store.Keys
      && OthersUnchanged(store, h.store, id)
      && h.store[id].(likes := store[id].likes) == store[id]
      && (u in h.store[id].likes <==> u !in store[id].likes)
      && (forall x :: x != u ==> (x in h.store[id].likes <==> x in store[id].likes))
      && (u !in store[id].likes ==> h.store[id].likes == store[id].likes + [u])
      && (u in store[id].likes ==> h.store[id].likes == Likes.RemoveAll(store[id].likes, u))
      && h.response == Json(200, PostDoc(h.store[id]))
  {
    if !Authenticated(userId) then Handled(store, Json(200, MessageDoc(UnauthenticatedMessage)))
    else if !isValid(id) then Handled(store, Text(404, NoPostMessage))
    else
      var post := store[id].(likes := Likes.Toggle(store[id].likes, userId.value));
      Handled(store[id := post], Json(200, PostDoc(post)))
  }

  /** `commentPost`. The value is appended to `comments`; there is
      no identity check and no de-duplication. */
  function CommentPost(store: Store, id: Id, value: string): (h: Handled)
    requires id in store
    ensures h.store.Keys == store.Keys
    ensures OthersUnchanged(store, h.store, id)
    ensures h.store[id].(comments := store[id].comments) == store[id]
    ensures |h.store[id].comments| == |store[id].comments| + 1
    ensures h.store[id].comments[..|store[id].comments|] == store[id].comments
    ensures h.store[id].comments[|store[id].comments|] == value
    ensures h.response == Json(200, PostDoc(h.store[id]))
  {
    var post := store[id].(comments := store[id].comments + [value]);
    Handled(store[id := post], Json(200, PostDoc(post)))
  }

  /** No post's `likes` names a user twice. */
  ghost predicate LikesDistinct(store: Store) {
    forall k :: k in store ==> Likes.Distinct(store[k].likes)
  }

  /** A like followed by a second like from the same user, starting from a
      post the user did not like, leaves the whole collection as it was. */
  lemma LikeTwiceRestores(store: Store, id: Id, u: UserId, isValid: Id -> bool)
    requires u != "" && isValid(id) && id in store
    requires u !in store[id].likes
    ensures LikePost(LikePost(store, id, Some(u), isValid).store, id, Some(u), isValid).store == store
  {
    Likes.ToggleTwiceFromAbsent(store[id].likes, u);
    var s2 := LikePost(LikePost(store, id, Some(u), isValid).store, id, Some(u), isValid).store;
    assert s2[id] == store[id];
  }

  /** Liking keeps every post's `likes` duplicate-free, and so do commenting
      and deleting; creating and updating do not, since a body may carry any
      `likes` array. */
  lemma LikesDistinctPreserved(store: Store, id: Id, userId: Option<UserId>, value: string, isValid: Id -> bool)
    requires LikesDistinct(store)
    ensures (Authenticated(userId) && isValid(id) ==> id in store) ==>
      LikesDistinct(LikePost(store, id, userId, isValid).store)
    ensures id in store ==> LikesDistinct(CommentPost(store, id, value).store)
    ensures LikesDistinct(DeletePost(store, id, isValid).store)
  {
    if Authenticated(userId) && isValid(id) && id in store {
      Likes.ToggleKeepsDistinct(store[id].likes, userId.value);
    }
  }

  /** An update whose body repeats a user in `likes` stores duplicate likes. */
  lemma UpdateMayDuplicateLikes(store: Store, id: Id, u: UserId, isValid: Id -> bool)
    requires isValid(id) && id in store
    ensures !LikesDistinct(UpdatePost(store, id, EmptyBody.(likes := Some([u, u])), isValid).store)
  {
    var s := UpdatePost(store, id, EmptyBody.(likes := Some([u, u])), isValid).store;
    assert s[id].likes[0] == s[id].likes[1];
  }

  /** Creating keeps each post under its own, well-formed id. */
  lemma CreateKeepsWellFormed(store: Store, body: Body, userId: Option<UserId>, freshId: Id, now: string,
                              isValid: Id -> bool)
    requires WellFormed(store, isValid)
    requires isValid(freshId) && freshId !in store
    ensures WellFormed(CreatePost(store, body, userId, freshId, now, isValid).store, isValid)
  {
  }

  /** Updating keeps each post under its own, well-formed id, whatever `_id`
      the body carries. */
  lemma UpdateKeepsWellFormed(store: Store, id: Id, body: Body, isValid: Id -> bool)
    requires WellFormed(store, isValid)
    ensures WellFormed(UpdatePost(store, id, body, isValid).store, isValid)
  {
  }

  /** Deleting, liking and commenting keep each post under its own,
      well-formed id. */
  lemma OthersKeepWellFormed(store: Store, id: Id, userId: Option<UserId>, value: string, isValid: Id -> bool)
    requires WellFormed(store, isValid)
    ensures WellFormed(DeletePost(store, id, isValid).store, isValid)
    ensures (Authenticated(userId) && isValid(id) ==> id in store) ==>
      WellFormed(LikePost(store, id, userId, isValid).store, isValid)
    ensures id in store ==> WellFormed(CommentPost(store, id, value).store, isValid)
  {
  }

  /** After a post is deleted, looking it up answers `null` with status 200
      rather than a not-found status. */
  lemma DeleteThenGet(store: Store, id: Id, isValid: Id -> bool)
    requires isValid(id)
    ensures GetPost(DeletePost(store, id, isValid).store, id, isValid) == Json(200, NullDoc)
  {
  }

  /** A user creates a post, likes it, and likes it again: the new post has the
      user as creator and no likes or comments, the first like records the
      user, and the second removes them. */
  lemma CreateLikeUnlike(store: Store, body: Body, u: UserId, freshId: Id, now: string, isValid: Id -> bool)
    requires isValid(freshId) && freshId !in store
    requires body.id.None? && body.likes.None? && body.comments.None?
    requires u != ""
    ensures
      var s1 := CreatePost(store, body, Some(u), freshId, now, isValid).store;
      var s2 := LikePost(s1, freshId, Some(u), isValid).store;
      var s3 := LikePost(s2, freshId, Some(u), isValid).store;
      && s1[freshId].creator == Some(u)
      && s1[freshId].likes == [] && s1[freshId].comments == []
      && s2[freshId].likes == [u]
      && s3[freshId].likes == []
  {
  }
}
