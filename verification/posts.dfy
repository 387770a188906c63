/** The data the posts controller works on: the post document, the client body
    merged into it, the collection of posts keyed by id, and the responses the
    handlers send. */
module Posts {
  import opened Wrappers
  import Likes

  /** A store identifier (an ObjectId) in its textual form. */
  type Id = string

  type UserId = Likes.UserId

  /** A stored post. Text fields the client never sent are `None`. */
  datatype Post = Post(
    id: Id,
    title: Option<string>,
    message: Option<string>,
    tags: seq<string>,
    creator: Option<UserId>,
    createdAt: Option<string>,
    likes: seq<UserId>,
    comments: seq<string>)

  /** A request body: every field of a post, each of which the client may
      leave out. */
  datatype Body = Body(
    id: Option<Id>,
    title: Option<string>,
    message: Option<string>,
    tags: Option<seq<string>>,
    creator: Option<UserId>,
    createdAt: Option<string>,
    likes: Option<seq<UserId>>,
    comments: Option<seq<string>>)

  /** The collection of posts. */
  type Store = map<Id, Post>

  /** Every stored post sits under its own id, and that id is well formed. */
  ghost predicate WellFormed(store: Store, isValid: Id -> bool) {
    forall k :: k in store ==> isValid(k) && store[k].id == k
  }

  /** `post` with every field the body carries overwritten by the body's value;
      the id is left alone. */
  function Merge(post: Post, body: Body): Post
  {
    Post(
      post.id,
      if body.title.Some? then body.title else post.title,
      if body.message.Some? then body.message else post.message,
      body.tags.GetOr(post.tags),
      if body.creator.Some? then body.creator else post.creator,
      if body.createdAt.Some? then body.createdAt else post.createdAt,
      body.likes.GetOr(post.likes),
      body.comments.GetOr(post.comments))
  }

  /** The post a fresh document starts as: no text fields, empty arrays. */
  function Blank(id: Id): Post {
    Post(id, None, None, [], None, None, [], [])
  }

  /** A body that carries no field. */
  const EmptyBody := Body(None, None, None, None, None, None, None, None)

  /** Merging sets exactly the fields the body carries: each field the body
      has takes the body's value, each field it leaves out keeps the stored
      value, and the id is never touched. Hence merging the empty body is the
      identity and merging the same body twice is merging it once. */
  lemma MergeLaws(post: Post, body: Body)
    ensures Merge(post, body).id == post.id
    ensures body.title.None? ==> Merge(post, body).title == post.title
    ensures body.title.Some? ==> Merge(post, body).title == body.title
    ensures body.message.None? ==> Merge(post, body).message == post.message
    ensures body.message.Some? ==> Merge(post, body).message == body.message
    ensures body.tags.None? ==> Merge(post, body).tags == post.tags
    ensures body.tags.Some? ==> Merge(post, body).tags == body.tags.value
    ensures body.creator.None? ==> Merge(post, body).creator == post.creator
    ensures body.creator.Some? ==> Merge(post, body).creator == body.creator
    ensures body.createdAt.None? ==> Merge(post, body).createdAt == post.createdAt
    ensures body.createdAt.Some? ==> Merge(post, body).createdAt == body.createdAt
    ensures body.likes.None? ==> Merge(post, body).likes == post.likes
    ensures body.likes.Some? ==> Merge(post, body).likes == body.likes.value
    ensures body.comments.None? ==> Merge(post, body).comments == post.comments
    ensures body.comments.Some? ==> Merge(post, body).comments == body.comments.value
    ensures Merge(post, EmptyBody) == post
    ensures Merge(Merge(post, body), body) == Merge(post, body)
  {
  }

  /** What the document store reports when an operation fails. */
  datatype StoreError =
    | CastError      // a value (the id) could not be cast to an ObjectId
    | DuplicateKey   // an insert reused an id that is already stored
    | NegativeSkip   // a query asked to skip a negative number of documents

  /** The JSON payloads the handlers send. */
  datatype Payload =
    | PostDoc(post: Post)
    | NullDoc
    | PageDoc(data: seq<Post>, currentPage: int, numberOfPages: nat)
    | MessageDoc(message: string)
    | ErrorDoc(error: StoreError)

  /** An HTTP response: a JSON payload or a plain-text body, with its status. */
  datatype Response =
    | Json(status: nat, payload: Payload)
    | Text(status: nat, text: string)

  const NoPostMessage := "No post with that id"
  const UnauthenticatedMessage := "Unauthenticated"
  const DeletedMessage := "Post deleted successfully"
}
