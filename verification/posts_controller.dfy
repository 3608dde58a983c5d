/** `PostsController`: create posts by existing authors, read, filter, edit
    and delete them. */
module PostsController {
  import opened Wrappers
  import opened Seqs
  import opened Text
  import opened Entities
  import opened Repositories
  import UsersController

  function ToDto(p: Post): PostDto
  {
    PostDto(p.Id, p.Title, p.Body, p.UserId)
  }

  /** The 400 reason for an author id that no user has. */
  function UnknownUser(userId: int): string
  {
    "User with id " + IntToString(userId) + " not found."
  }

  /** `POST /posts`: rejected with 400 when no user has the author id;
      otherwise one post carrying the request's title, body and author is
      appended and returned. */
  method Create(store: DataStore, dto: CreatePostDto, newId: int) returns (r: ActionResult<PostDto>)
    requires store.Valid() && !HasId(store.posts, PostKey, newId)
    modifies store
    ensures store.Valid()
    ensures store.users == old(store.users) && store.comments == old(store.comments)
    ensures !HasId(store.users, UserKey, dto.UserId) ==>
      r == BadRequest(UnknownUser(dto.UserId)) && store.posts == old(store.posts)
    ensures HasId(store.users, UserKey, dto.UserId) ==>
      && r == Created(PostDto(newId, dto.Title, dto.Body, dto.UserId))
      && store.posts == old(store.posts) + [Post(newId, dto.Title, dto.Body, dto.UserId)]
      && GetSingle(store.posts, newId) == Ok(r.value)
  {
    var author := Find(store.users, UserKey, dto.UserId);
    if author.None? {
      return BadRequest(UnknownUser(dto.UserId));
    }
    var entity := Post(newId, dto.Title, dto.Body, dto.UserId);
    FindAfterAppend(store.posts, PostKey, entity, newId);
    store.posts := store.posts + [entity];
    r := Created(ToDto(entity));
  }

  /** `GET /posts/{id}`. */
  function GetSingle(posts: seq<Post>, id: int): (r: ActionResult<PostDto>)
    ensures r.Ok? || r.NotFound?
    ensures r.NotFound? <==> !HasId(posts, PostKey, id)
    ensures r.Ok? ==> exists i :: 0 <= i < |posts| && posts[i].Id == id && r.value == ToDto(posts[i])
  {
    match Find(posts, PostKey, id)
    case None => NotFound
    case Some(p) => Ok(ToDto(p))
  }

  lemma GetSingleAt(posts: seq<Post>, i: nat)
    requires UniqueIds(posts, PostKey) && i < |posts|
    ensures GetSingle(posts, posts[i].Id) == Ok(ToDto(posts[i]))
  {
    FindAt(posts, PostKey, i);
  }

  /** The query string of `GET /posts`. */
  datatype PostQuery = PostQuery(titleContains: Option<string>, userId: Option<int>, userName: Option<string>)

  /** The three filters of `GET /posts`, joined by AND. A null or blank text
      parameter and a missing `userId` impose nothing. */
  predicate TitleMatches(p: Post, q: PostQuery)
  {
    IsNullOrWhiteSpace(q.titleContains) || ContainsIgnoreCase(p.Title, q.titleContains.value)
  }

  predicate UserIdMatches(p: Post, q: PostQuery)
  {
    q.userId.None? || p.UserId == q.userId.value
  }

  /** Some user with the post's author id has a name containing
      `q.userName`, ignoring case. */
  predicate AuthorNameMatches(p: Post, q: PostQuery, users: seq<User>)
  {
    || IsNullOrWhiteSpace(q.userName)
    || exists i :: 0 <= i < |users| && users[i].Id == p.UserId && ContainsIgnoreCase(users[i].UserName, q.userName.value)
  }

  predicate Matches(p: Post, q: PostQuery, users: seq<User>)
  {
    TitleMatches(p, q) && UserIdMatches(p, q) && AuthorNameMatches(p, q, users)
  }

  function Matching(q: PostQuery, users: seq<User>): Post -> bool
  {
    p => Matches(p, q, users)
  }

  /** `GET /posts?titleContains=...&userId=...&userName=...`: the posts that
      pass every filter, in store order. The source narrows the sequence one
      filter at a time, resolving `userName` to a set of user ids first. */
  method GetMany(all: seq<Post>, users: seq<User>, q: PostQuery) returns (r: ActionResult<seq<PostDto>>)
    ensures r == Ok(Map(ToDto, Filter(Matching(q, users), all)))
  {
    var posts := all;
    ghost var kept: Post -> bool := p => TitleMatches(p, q);
    if !IsNullOrWhiteSpace(q.titleContains) {
      var title := q.titleContains.value;
      var byTitle := (p: Post) => ContainsIgnoreCase(p.Title, title);
      posts := Filter(byTitle, posts);
      FilterAgree(byTitle, kept, all);
    } else {
      FilterKeepsAll(kept, all);
    }

    ghost var kept2: Post -> bool := p => kept(p) && UserIdMatches(p, q);
    if q.userId.Some? {
      var userId := q.userId.value;
      var byUser := (p: Post) => p.UserId == userId;
      posts := Filter(byUser, posts);
      FilterFilter(kept, byUser, kept2, all);
    } else {
      FilterAgree(kept, kept2, all);
    }

    ghost var kept3: Post -> bool := p => kept2(p) && AuthorNameMatches(p, q, users);
    if !IsNullOrWhiteSpace(q.userName) {
      var matchingUserIds := UsersController.MatchingUserIds(users, q.userName.value);
      var byAuthors := (p: Post) => p.UserId in matchingUserIds;
      posts := Filter(byAuthors, posts);
      FilterFilter(kept2, byAuthors, kept3, all);
    } else {
      FilterAgree(kept2, kept3, all);
    }

    FilterAgree(kept3, Matching(q, users), all);
    r := Ok(Map(ToDto, posts));
  }

  /** With no active filter every post is returned. */
  lemma GetManyNoFilterKeepsAll(all: seq<Post>, users: seq<User>, q: PostQuery)
    requires IsNullOrWhiteSpace(q.titleContains) && q.userId.None? && IsNullOrWhiteSpace(q.userName)
    ensures Filter(Matching(q, users), all) == all
  {
    FilterKeepsAll(Matching(q, users), all);
  }

  /** A blank `titleContains` or `userName` filters exactly as if it were
      absent. */
  lemma GetManyBlankIgnored(all: seq<Post>, users: seq<User>, q: PostQuery)
    ensures IsNullOrWhiteSpace(q.titleContains) ==>
      Filter(Matching(q, users), all) == Filter(Matching(q.(titleContains := None), users), all)
    ensures IsNullOrWhiteSpace(q.userName) ==>
      Filter(Matching(q, users), all) == Filter(Matching(q.(userName := None), users), all)
  {
    if IsNullOrWhiteSpace(q.titleContains) {
      FilterAgree(Matching(q, users), Matching(q.(titleContains := None), users), all);
    }
    if IsNullOrWhiteSpace(q.userName) {
      FilterAgree(Matching(q, users), Matching(q.(userName := None), users), all);
    }
  }

  /** Every returned post passes all three filters, every stored post that
      passes them is returned, and the answer keeps store order. */
  lemma GetManySoundAndComplete(all: seq<Post>, users: seq<User>, q: PostQuery)
    ensures forall i :: 0 <= i < |Filter(Matching(q, users), all)| ==>
      var p := Filter(Matching(q, users), all)[i];
      p in all && TitleMatches(p, q) && UserIdMatches(p, q) && AuthorNameMatches(p, q, users)
    ensures forall i :: 0 <= i < |all| && Matches(all[i], q, users) ==> all[i] in Filter(Matching(q, users), all)
    ensures IsSubsequence(Map(ToDto, Filter(Matching(q, users), all)), Map(ToDto, all))
  {
    FilterIsSubsequence(Matching(q, users), all);
    MapPreservesSubsequence(ToDto, Filter(Matching(q, users), all), all);
  }

  /** `PUT /posts/{id}`: title and body are replaced; id and author are kept
      and every other post is untouched. */
  method Update(store: DataStore, id: int, dto: UpdatePostDto) returns (r: ActionResult<()>)
    requires store.Valid()
    modifies store
    ensures store.Valid()
    ensures store.users == old(store.users) && store.comments == old(store.comments)
    ensures !HasId(old(store.posts), PostKey, id) ==> r == NotFound && store.posts == old(store.posts)
    ensures HasId(old(store.posts), PostKey, id) ==> r == NoContent
    ensures HasId(old(store.posts), PostKey, id) ==>
      (exists i :: 0 <= i < |old(store.posts)| && old(store.posts)[i].Id == id &&
        store.posts == old(store.posts)[i := old(store.posts)[i].(Title := dto.Title, Body := dto.Body)])
    ensures r == NoContent ==>
      GetSingle(store.posts, id) == Ok(PostDto(id, dto.Title, dto.Body, old(GetSingle(store.posts, id)).value.UserId))
    ensures forall other :: other != id ==> GetSingle(store.posts, other) == old(GetSingle(store.posts, other))
  {
    var post := Find(store.posts, PostKey, id);
    if post.None? {
      return NotFound;
    }
    ghost var before := store.posts;
    ghost var i := PositionOf(before, PostKey, id);
    FindAt(before, PostKey, i);
    var updated := post.value.(Title := dto.Title, Body := dto.Body);
    ReplaceAt(before, PostKey, i, updated);
    store.posts := Replace(store.posts, PostKey, updated);
    forall other | other != id
      ensures Find(store.posts, PostKey, other) == Find(before, PostKey, other)
    {
      FindAfterReplace(before, PostKey, updated, other);
    }
    GetSingleAt(store.posts, i);
    r := NoContent;
  }

  /** `DELETE /posts/{id}`: exactly that post is removed; its comments are
      left in place. */
  method Delete(store: DataStore, id: int) returns (r: ActionResult<()>)
    requires store.Valid()
    modifies store
    ensures store.Valid()
    ensures store.users == old(store.users) && store.comments == old(store.comments)
    ensures !HasId(old(store.posts), PostKey, id) ==> r == NotFound && store.posts == old(store.posts)
    ensures HasId(old(store.posts), PostKey, id) ==> r == NoContent
    ensures HasId(old(store.posts), PostKey, id) ==>
      (exists i :: 0 <= i < |old(store.posts)| && old(store.posts)[i].Id == id &&
        store.posts == old(store.posts)[..i] + old(store.posts)[i + 1..])
    ensures GetSingle(store.posts, id) == NotFound
    ensures forall other :: other != id ==> GetSingle(store.posts, other) == old(GetSingle(store.posts, other))
  {
    var post := Find(store.posts, PostKey, id);
    if post.None? {
      return NotFound;
    }
    ghost var before := store.posts;
    ghost var i := PositionOf(before, PostKey, id);
    RemoveAt(before, PostKey, i);
    store.posts := Remove(store.posts, PostKey, id);
    forall other | other != id
      ensures Find(store.posts, PostKey, other) == Find(before, PostKey, other)
    {
      FindAfterRemove(before, PostKey, id, other);
    }
    r := NoContent;
  }

  /** Two `DELETE /posts/{id}` requests in a row: the second always answers
      404, and a `GET` in between answers 404 too. */
  method DeleteTwice(store: DataStore, id: int) returns (first: ActionResult<()>, between: ActionResult<PostDto>, second: ActionResult<()>)
    requires store.Valid()
    modifies store
    ensures first == (if HasId(old(store.posts), PostKey, id) then NoContent else NotFound)
    ensures between == NotFound && second == NotFound
  {
    first := Delete(store, id);
    between := GetSingle(store.posts, id);
    second := Delete(store, id);
  }
}
