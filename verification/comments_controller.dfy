/** `CommentsController`: create comments by existing users on existing
    posts, read, filter, edit and delete them. */
module CommentsController {
  import opened Wrappers
  import opened Seqs
  import opened Text
  import opened Entities
  import opened Repositories
  import UsersController

  function ToDto(c: Comment): CommentDto
  {
    CommentDto(c.Id, c.Body, c.UserId, c.PostId)
  }

  function UnknownUser(userId: int): string
  {
    "User with id " + IntToString(userId) + " not found."
  }

  function UnknownPost(postId: int): string
  {
    "Post with id " + IntToString(postId) + " not found."
  }

  /** `POST /comments`: the user is checked before the post, so a request
      naming neither is rejected for its user; only when both exist is one
      comment appended. */
  method Create(store: DataStore, dto: CreateCommentDto, newId: int) returns (r: ActionResult<CommentDto>)
    requires store.Valid() && !HasId(store.comments, CommentKey, newId)
    modifies store
    ensures store.Valid()
    ensures store.users == old(store.users) && store.posts == old(store.posts)
    ensures !HasId(store.users, UserKey, dto.UserId) ==>
      r == BadRequest(UnknownUser(dto.UserId)) && store.comments == old(store.comments)
    ensures HasId(store.users, UserKey, dto.UserId) && !HasId(store.posts, PostKey, dto.PostId) ==>
      r == BadRequest(UnknownPost(dto.PostId)) && store.comments == old(store.comments)
    ensures HasId(store.users, UserKey, dto.UserId) && HasId(store.posts, PostKey, dto.PostId) ==>
      && r == Created(CommentDto(newId, dto.Body, dto.UserId, dto.PostId))
      && store.comments == old(store.comments) + [Comment(newId, dto.Body, dto.UserId, dto.PostId)]
      && GetSingle(store.comments, newId) == Ok(r.value)
  {
    if Find(store.users, UserKey, dto.UserId).None? {
      return BadRequest(UnknownUser(dto.UserId));
    }
    if Find(store.posts, PostKey, dto.PostId).None? {
      return BadRequest(UnknownPost(dto.PostId));
    }
    var entity := Comment(newId, dto.Body, dto.UserId, dto.PostId);
    FindAfterAppend(store.comments, CommentKey, entity, newId);
    store.comments := store.comments + [entity];
    r := Created(ToDto(entity));
  }

  /** `GET /comments/{id}`. */
  function GetSingle(comments: seq<Comment>, id: int): (r: ActionResult<CommentDto>)
    ensures r.Ok? || r.NotFound?
    ensures r.NotFound? <==> !HasId(comments, CommentKey, id)
    ensures r.Ok? ==> exists i :: 0 <= i < |comments| && comments[i].Id == id && r.value == ToDto(comments[i])
  {
    match Find(comments, CommentKey, id)
    case None => NotFound
    case Some(c) => Ok(ToDto(c))
  }

  lemma GetSingleAt(comments: seq<Comment>, i: nat)
    requires UniqueIds(comments, CommentKey) && i < |comments|
    ensures GetSingle(comments, comments[i].Id) == Ok(ToDto(comments[i]))
  {
    FindAt(comments, CommentKey, i);
  }

  /** The query string of `GET /comments`. */
  datatype CommentQuery = CommentQuery(postId: Option<int>, userId: Option<int>, userName: Option<string>)

  /** The three filters of `GET /comments`, joined by AND: exact post id,
      exact user id, and a commenter whose name contains `userName`,
      ignoring case. A missing id or a null or blank name imposes nothing. */
  predicate PostIdMatches(c: Comment, q: CommentQuery)
  {
    q.postId.None? || c.PostId == q.postId.value
  }

  predicate UserIdMatches(c: Comment, q: CommentQuery)
  {
    q.userId.None? || c.UserId == q.userId.value
  }

  predicate UserNameMatches(c: Comment, q: CommentQuery, users: seq<User>)
  {
    || IsNullOrWhiteSpace(q.userName)
    || exists i :: 0 <= i < |users| && users[i].Id == c.UserId && ContainsIgnoreCase(users[i].UserName, q.userName.value)
  }

  predicate Matches(c: Comment, q: CommentQuery, users: seq<User>)
  {
    PostIdMatches(c, q) && UserIdMatches(c, q) && UserNameMatches(c, q, users)
  }

  function Matching(q: CommentQuery, users: seq<User>): Comment -> bool
  {
    c => Matches(c, q, users)
  }

  /** `GET /comments?postId=...&userId=...&userName=...`: the comments that
      pass every filter, in store order, narrowed one filter at a time as the
      source does. */
  method GetMany(all: seq<Comment>, users: seq<User>, q: CommentQuery) returns (r: ActionResult<seq<CommentDto>>)
    ensures r == Ok(Map(ToDto, Filter(Matching(q, users), all)))
  {
    var comments := all;
    ghost var kept: Comment -> bool := c => PostIdMatches(c, q);
    if q.postId.Some? {
      var postId := q.postId.value;
      var byPost := (c: Comment) => c.PostId == postId;
      comments := Filter(byPost, comments);
      FilterAgree(byPost, kept, all);
    } else {
      FilterKeepsAll(kept, all);
    }

    ghost var kept2: Comment -> bool := c => kept(c) && UserIdMatches(c, q);
    if q.userId.Some? {
      var userId := q.userId.value;
      var byUser := (c: Comment) => c.UserId == userId;
      comments := Filter(byUser, comments);
      FilterFilter(kept, byUser, kept2, all);
    } else {
      FilterAgree(kept, kept2, all);
    }

    ghost var kept3: Comment -> bool := c => kept2(c) && UserNameMatches(c, q, users);
    if !IsNullOrWhiteSpace(q.userName) {
      var matchingUserIds := UsersController.MatchingUserIds(users, q.userName.value);
      var byAuthors := (c: Comment) => c.UserId in matchingUserIds;
      comments := Filter(byAuthors, comments);
      FilterFilter(kept2, byAuthors, kept3, all);
    } else {
      FilterAgree(kept2, kept3, all);
    }

    FilterAgree(kept3, Matching(q, users), all);
    r := Ok(Map(ToDto, comments));
  }

  /** With no filter every comment is returned. */
  lemma GetManyNoFilterKeepsAll(all: seq<Comment>, users: seq<User>, q: CommentQuery)
    requires q.postId.None? && q.userId.None? && IsNullOrWhiteSpace(q.userName)
    ensures Filter(Matching(q, users), all) == all
  {
    FilterKeepsAll(Matching(q, users), all);
  }

  /** Every returned comment passes all three filters, every stored comment
      that passes them is returned, and the answer keeps store order. */
  lemma GetManySoundAndComplete(all: seq<Comment>, users: seq<User>, q: CommentQuery)
    ensures forall i :: 0 <= i < |Filter(Matching(q, users), all)| ==>
      var c := Filter(Matching(q, users), all)[i];
      c in all && PostIdMatches(c, q) && UserIdMatches(c, q) && UserNameMatches(c, q, users)
    ensures forall i :: 0 <= i < |all| && Matches(all[i], q, users) ==> all[i] in Filter(Matching(q, users), all)
    ensures IsSubsequence(Map(ToDto, Filter(Matching(q, users), all)), Map(ToDto, all))
  {
    FilterIsSubsequence(Matching(q, users), all);
    MapPreservesSubsequence(ToDto, Filter(Matching(q, users), all), all);
  }

  /** `PUT /comments/{id}`: only the body is replaced. */
  method Update(store: DataStore, id: int, dto: UpdateCommentDto) returns (r: ActionResult<()>)
    requires store.Valid()
    modifies store
    ensures store.Valid()
    ensures store.users == old(store.users) && store.posts == old(store.posts)
    ensures !HasId(old(store.comments), CommentKey, id) ==> r == NotFound && store.comments == old(store.comments)
    ensures HasId(old(store.comments), CommentKey, id) ==> r == NoContent
    ensures HasId(old(store.comments), CommentKey, id) ==>
      (exists i :: 0 <= i < |old(store.comments)| && old(store.comments)[i].Id == id &&
        store.comments == old(store.comments)[i := old(store.comments)[i].(Body := dto.Body)])
    ensures forall other :: other != id ==> GetSingle(store.comments, other) == old(GetSingle(store.comments, other))
  {
    var c := Find(store.comments, CommentKey, id);
    if c.None? {
      return NotFound;
    }
    ghost var before := store.comments;
    ghost var i := PositionOf(before, CommentKey, id);
    FindAt(before, CommentKey, i);
    var updated := c.value.(Body := dto.Body);
    ReplaceAt(before, CommentKey, i, updated);
    store.comments := Replace(store.comments, CommentKey, updated);
    forall other | other != id
      ensures Find(store.comments, CommentKey, other) == Find(before, CommentKey, other)
    {
      FindAfterReplace(before, CommentKey, updated, other);
    }
    r := NoContent;
  }

  /** `DELETE /comments/{id}`: exactly that comment is removed. */
  method Delete(store: DataStore, id: int) returns (r: ActionResult<()>)
    requires store.Valid()
    modifies store
    ensures store.Valid()
    ensures store.users == old(store.users) && store.posts == old(store.posts)
    ensures !HasId(old(store.comments), CommentKey, id) ==> r == NotFound && store.comments == old(store.comments)
    ensures HasId(old(store.comments), CommentKey, id) ==> r == NoContent
    ensures HasId(old(store.comments), CommentKey, id) ==>
      (exists i :: 0 <= i < |old(store.comments)| && old(store.comments)[i].Id == id &&
        store.comments == old(store.comments)[..i] + old(store.comments)[i + 1..])
    ensures GetSingle(store.comments, id) == NotFound
    ensures forall other :: other != id ==> GetSingle(store.comments, other) == old(GetSingle(store.comments, other))
  {
    var c := Find(store.comments, CommentKey, id);
    if c.None? {
      return NotFound;
    }
    ghost var before := store.comments;
    ghost var i := PositionOf(before, CommentKey, id);
    RemoveAt(before, CommentKey, i);
    store.comments := Remove(store.comments, CommentKey, id);
    forall other | other != id
      ensures Find(store.comments, CommentKey, other) == Find(before, CommentKey, other)
    {
      FindAfterRemove(before, CommentKey, id, other);
    }
    r := NoContent;
  }
}
