/** `AuthController`: the login rule, a lookup over the user collection that
    changes nothing. */
module AuthController {
  import opened Seqs
  import opened Entities
  import UsersController

  /** The 401 reason, the same whether the name or the password is wrong. */
  const InvalidCredentials := "Invalid username or password"

  /** The message of the exception `SingleOrDefault` throws on two matches. */
  const MoreThanOneMatch := "Sequence contains more than one matching element"

  function NamedAs(userName: string): User -> bool
  {
    (u: User) => u.UserName == userName
  }

  /** `POST /auth/login` over the users that `GetMany()` enumerates. At most
      one user may carry the requested name (ordinal comparison): with more
      than one, `SingleOrDefault` throws and the action fails. */
  function Login(users: seq<User>, request: LoginRequest): (r: ActionResult<UserDto>)
    ensures r.Ok? || r.Unauthorized? || r.Fault?
    ensures r.Unauthorized? ==> r.message == InvalidCredentials
    ensures r.Ok? ==>
      exists i :: 0 <= i < |users| && users[i].UserName == request.UserName &&
        users[i].Password == request.Password && r.value == UserDto(users[i].Id, users[i].UserName)
  {
    var matches := Filter(NamedAs(request.UserName), users);
    if |matches| > 1 then Fault(MoreThanOneMatch)
    else if |matches| == 0 || matches[0].Password != request.Password then Unauthorized(InvalidCredentials)
    else Ok(UsersController.ToDto(matches[0]))
  }

  /** `users[i]` is the one user named `userName`. */
  predicate SoleHolder(users: seq<User>, userName: string, i: int)
  {
    && 0 <= i < |users|
    && users[i].UserName == userName
    && forall j :: 0 <= j < |users| && j != i ==> users[j].UserName != userName
  }

  /** With exactly one user of that name, login succeeds with that user's id
      and name when the password matches, and otherwise fails with the
      generic 401. */
  lemma LoginSoleHolder(users: seq<User>, request: LoginRequest, i: int)
    requires SoleHolder(users, request.UserName, i)
    ensures Login(users, request) ==
      if users[i].Password == request.Password then Ok(UserDto(users[i].Id, users[i].UserName))
      else Unauthorized(InvalidCredentials)
  {
    FilterSingle(NamedAs(request.UserName), users, i);
  }

  /** Login succeeds exactly when one user carries the requested name and
      that user's password equals the requested one. */
  lemma LoginSucceedsIff(users: seq<User>, request: LoginRequest)
    ensures Login(users, request).Ok? <==>
      exists i :: SoleHolder(users, request.UserName, i) && users[i].Password == request.Password
  {
    if Login(users, request).Ok? {
      var i :| 0 <= i < |users| && users[i].UserName == request.UserName && users[i].Password == request.Password;
      forall j | 0 <= j < |users| && j != i ensures users[j].UserName != request.UserName {
        if users[j].UserName == request.UserName {
          if i < j {
            FilterTwo(NamedAs(request.UserName), users, i, j);
          } else {
            FilterTwo(NamedAs(request.UserName), users, j, i);
          }
        }
      }
      assert SoleHolder(users, request.UserName, i);
    }
    if exists i :: SoleHolder(users, request.UserName, i) && users[i].Password == request.Password {
      var i :| SoleHolder(users, request.UserName, i) && users[i].Password == request.Password;
      LoginSoleHolder(users, request, i);
    }
  }

  /** An unknown name gives the generic 401. */
  lemma LoginUnknownName(users: seq<User>, request: LoginRequest)
    requires forall i :: 0 <= i < |users| ==> users[i].UserName != request.UserName
    ensures Login(users, request) == Unauthorized(InvalidCredentials)
  {
    FilterKeepsNone(NamedAs(request.UserName), users);
  }

  /** A known name with a wrong password gives the very same answer as an
      unknown name, so a caller cannot tell the two apart. */
  lemma LoginWrongPasswordLooksUnknown(users: seq<User>, request: LoginRequest, i: int, other: seq<User>)
    requires SoleHolder(users, request.UserName, i) && users[i].Password != request.Password
    requires forall j :: 0 <= j < |other| ==> other[j].UserName != request.UserName
    ensures Login(users, request) == Login(other, request) == Unauthorized(InvalidCredentials)
  {
    LoginSoleHolder(users, request, i);
    LoginUnknownName(other, request);
  }

  /** Two users with the requested name make the lookup throw, whatever the
      password. */
  lemma LoginAmbiguous(users: seq<User>, request: LoginRequest, i: nat, j: nat)
    requires i < j < |users|
    requires users[i].UserName == request.UserName && users[j].UserName == request.UserName
    ensures Login(users, request) == Fault(MoreThanOneMatch)
  {
    FilterTwo(NamedAs(request.UserName), users, i, j);
  }

  /** Since `POST /users` accepts a name that is already taken, two sign-ups
      under one name leave that name unable to log in at all. */
  lemma DuplicateSignUpBlocksLogin(users: seq<User>, first: User, second: User, password: string)
    requires first.UserName == second.UserName
    ensures Login(users + [first, second], LoginRequest(first.UserName, password)) == Fault(MoreThanOneMatch)
  {
    var all := users + [first, second];
    assert all[|users|] == first && all[|users| + 1] == second;
    LoginAmbiguous(all, LoginRequest(first.UserName, password), |users|, |users| + 1);
  }
}
