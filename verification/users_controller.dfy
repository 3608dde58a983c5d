/** `UsersController`: create, read, filter by name, rename and delete users. */
module UsersController {
  import opened Wrappers
  import opened Seqs
  import opened Text
  import opened Entities
  import opened Repositories

  /** The user's public view: id and name, never the password. */
  function ToDto(u: User): UserDto
  {
    UserDto(u.Id, u.UserName)
  }

  /** `POST /users`. No check that the name is unused: a second user with
      an existing name is created all the same. */
  method Create(store: DataStore, dto: CreateUserDto, newId: int) returns (r: ActionResult<UserDto>)
    requires store.Valid() && !HasId(store.users, UserKey, newId)
    modifies store
    ensures store.Valid()
    ensures store.users == old(store.users) + [User(newId, dto.UserName, dto.Password)]
    ensures store.posts == old(store.posts) && store.comments == old(store.comments)
    ensures r == Created(UserDto(newId, dto.UserName))
    ensures GetSingle(store.users, newId) == Ok(r.value)
  {
    var entity := User(newId, dto.UserName, dto.Password);
    FindAfterAppend(store.users, UserKey, entity, newId);
    store.users := store.users + [entity];
    r := Created(ToDto(entity));
  }

  /** `GET /users/{id}`. */
  function GetSingle(users: seq<User>, id: int): (r: ActionResult<UserDto>)
    ensures r.Ok? || r.NotFound?
    ensures r.NotFound? <==> !HasId(users, UserKey, id)
    ensures r.Ok? ==> exists i :: 0 <= i < |users| && users[i].Id == id && r.value == UserDto(id, users[i].UserName)
  {
    match Find(users, UserKey, id)
    case None => NotFound
    case Some(u) => Ok(ToDto(u))
  }

  /** With unique ids, `GET /users/{id}` answers with the user stored under
      that id. */
  lemma GetSingleAt(users: seq<User>, i: nat)
    requires UniqueIds(users, UserKey) && i < |users|
    ensures GetSingle(users, users[i].Id) == Ok(UserDto(users[i].Id, users[i].UserName))
  {
    FindAt(users, UserKey, i);
  }

  /** The user-name filter of `GET /users`: none when `nameContains` is
      null or blank, otherwise the name must contain it, ignoring case. */
  predicate NameMatches(u: User, nameContains: Option<string>)
  {
    IsNullOrWhiteSpace(nameContains) || ContainsIgnoreCase(u.UserName, nameContains.value)
  }

  function NameFilter(nameContains: Option<string>): User -> bool
  {
    u => NameMatches(u, nameContains)
  }

  /** `GET /users?nameContains=...`: the users that pass the name filter, in
      store order. */
  method GetMany(all: seq<User>, nameContains: Option<string>) returns (r: ActionResult<seq<UserDto>>)
    ensures r == Ok(Map(ToDto, Filter(NameFilter(nameContains), all)))
  {
    var users := all;
    if !IsNullOrWhiteSpace(nameContains) {
      var n := nameContains.value;
      var contains := (u: User) => ContainsIgnoreCase(u.UserName, n);
      users := Filter(contains, users);
      FilterAgree(contains, NameFilter(nameContains), all);
    } else {
      FilterKeepsAll(NameFilter(nameContains), all);
    }
    r := Ok(Map(ToDto, users));
  }

  /** A null, empty or white-space `nameContains` returns every user. */
  lemma GetManyBlankKeepsAll(all: seq<User>, nameContains: Option<string>)
    requires IsNullOrWhiteSpace(nameContains)
    ensures Filter(NameFilter(nameContains), all) == all
  {
    FilterKeepsAll(NameFilter(nameContains), all);
  }

  /** Otherwise a user is returned exactly when its name contains
      `nameContains` at some position, comparing characters ignoring case. */
  lemma GetManyKeeps(all: seq<User>, n: string, i: nat)
    requires !IsNullOrWhiteSpace(Some(n)) && i < |all|
    ensures all[i] in Filter(NameFilter(Some(n)), all) <==>
      exists k :: OccursIgnoringCaseAt(all[i].UserName, n, k)
  {
    ContainsIgnoreCaseMeaning(all[i].UserName, n);
  }

  /** The answer lists users in the order the store holds them. */
  lemma GetManyInStoreOrder(all: seq<User>, nameContains: Option<string>)
    ensures IsSubsequence(Map(ToDto, Filter(NameFilter(nameContains), all)), Map(ToDto, all))
  {
    FilterIsSubsequence(NameFilter(nameContains), all);
    MapPreservesSubsequence(ToDto, Filter(NameFilter(nameContains), all), all);
  }

  /** The ids of the users whose name contains `userName`, ignoring case:
      the set the post and comment filters join against. */
  function MatchingUserIds(users: seq<User>, userName: string): (ids: set<int>)
    ensures forall id :: id in ids <==>
      exists i :: 0 <= i < |users| && users[i].Id == id && ContainsIgnoreCase(users[i].UserName, userName)
  {
    var named := Filter((u: User) => ContainsIgnoreCase(u.UserName, userName), users);
    set u | u in named :: u.Id
  }

  /** `PUT /users/{id}`: only the name changes; id, password and every other
      user stay as they were. */
  method Update(store: DataStore, id: int, dto: UpdateUserDto) returns (r: ActionResult<()>)
    requires store.Valid()
    modifies store
    ensures store.Valid()
    ensures store.posts == old(store.posts) && store.comments == old(store.comments)
    ensures !HasId(old(store.users), UserKey, id) ==> r == NotFound && store.users == old(store.users)
    ensures HasId(old(store.users), UserKey, id) ==> r == NoContent
    ensures HasId(old(store.users), UserKey, id) ==>
      (exists i :: 0 <= i < |old(store.users)| && old(store.users)[i].Id == id &&
        store.users == old(store.users)[i := old(store.users)[i].(UserName := dto.UserName)])
    ensures r == NoContent ==> GetSingle(store.users, id) == Ok(UserDto(id, dto.UserName))
    ensures forall other :: other != id ==> GetSingle(store.users, other) == old(GetSingle(store.users, other))
  {
    var user := Find(store.users, UserKey, id);
    if user.None? {
      return NotFound;
    }
    ghost var before := store.users;
    ghost var i := PositionOf(before, UserKey, id);
    FindAt(before, UserKey, i);
    var updated := user.value.(UserName := dto.UserName);
    ReplaceAt(before, UserKey, i, updated);
    store.users := Replace(store.users, UserKey, updated);
    forall other | other != id
      ensures Find(store.users, UserKey, other) == Find(before, UserKey, other)
    {
      FindAfterReplace(before, UserKey, updated, other);
    }
    GetSingleAt(store.users, i);
    r := NoContent;
  }

  /** `DELETE /users/{id}`: exactly that user is removed; the user's posts
      and comments are left in place. */
  method Delete(store: DataStore, id: int) returns (r: ActionResult<()>)
    requires store.Valid()
    modifies store
    ensures store.Valid()
    ensures store.posts == old(store.posts) && store.comments == old(store.comments)
    ensures !HasId(old(store.users), UserKey, id) ==> r == NotFound && store.users == old(store.users)
    ensures HasId(old(store.users), UserKey, id) ==> r == NoContent
    ensures HasId(old(store.users), UserKey, id) ==>
      (exists i :: 0 <= i < |old(store.users)| && old(store.users)[i].Id == id &&
        store.users == old(store.users)[..i] + old(store.users)[i + 1..])
    ensures GetSingle(store.users, id) == NotFound
    ensures forall other :: other != id ==> GetSingle(store.users, other) == old(GetSingle(store.users, other))
  {
    var user := Find(store.users, UserKey, id);
    if user.None? {
      return NotFound;
    }
    ghost var before := store.users;
    ghost var i := PositionOf(before, UserKey, id);
    RemoveAt(before, UserKey, i);
    store.users := Remove(store.users, UserKey, id);
    forall other | other != id
      ensures Find(store.users, UserKey, other) == Find(before, UserKey, other)
    {
      FindAfterRemove(before, UserKey, id, other);
    }
    r := NoContent;
  }
}
