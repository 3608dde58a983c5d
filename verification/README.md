# Posts, comments and users: the Web API controllers and the Blazor client

This project models a small forum built in ASP.NET Core. A Web API keeps
users, posts and comments. Each has a controller with create, fetch-one,
filtered list, update and delete actions, and a login action checks a
user name and password. A Blazor client logs in through that API, keeps
the logged-in user in browser session storage and reports an
authentication state built from it. The client's post service turns its
calls into requests on the posts endpoints.

The model has three layers.

- **Store** (`Repositories`). One `DataStore` object holds the three
  collections as sequences in the repositories' enumeration order. Its
  invariant is that ids are unique in each collection. Lookups by id are
  functions over these sequences; `Repositories.Find` plays the role of
  `GetByIdAsync`.
- **Server** (`UsersController`, `PostsController`, `CommentsController`,
  `AuthController`).
  - The actions that write (`Create`, `Update`, `Delete`) are methods that
    modify the store. Each states its result and the whole new store, and
    keeps the id invariant.
  - The readers are functions over the sequences.
  - The filtered list actions are methods. Like the source, they narrow
    the sequence one filter at a time, and each is proved equal to a
    single declarative filter.
  - Results are an `ActionResult`: `Ok`, `Created`, `NoContent`, `NotFound`,
    `BadRequest`, `Unauthorized`, or an unhandled exception (`Fault`).
- **Client** (`Http`, `AuthProvider`, `HttpPostService`).
  - `SimpleAuthProvider` is a class. Its fields are the session-storage
    entry, whether JavaScript interop is available, and the sequence of
    states it has notified.
  - The HTTP transport and the JSON serialisers are function parameters.
  - `Http.Respond` says how a server result travels back as a status code
    and a body. The client lemmas use it to connect what the controller
    answered with what the client returns.

Text handling follows .NET:

- `string.IsNullOrWhiteSpace` uses the .NET white-space characters.
- `Contains(..., OrdinalIgnoreCase)` compares after upper-casing.
- `int.ToString()` gives decimal text, and it reads back with `ParseInt`.
- `bool` prints as `True` or `False`.

## Model

| member | source | states |
|---|---|---|
| UsersController.Create | WebAPI/Controllers/UsersController.cs:21-32 | the new user is appended with the allocated id, name and password; the answer is `Created` with the id and name, which a following `GetSingle` returns; nothing else changes |
| UsersController.GetSingle | WebAPI/Controllers/UsersController.cs:36-42 | `NotFound` exactly when no user has the id; otherwise `Ok` with the id and name of a user that has it |
| UsersController.GetSingleAt | WebAPI/Controllers/UsersController.cs:36-42 | with unique ids, fetching the id of the i-th user returns that user's id and name |
| UsersController.GetMany | WebAPI/Controllers/UsersController.cs:46-58 | the answer is the DTOs of the users whose name contains `nameContains` ignoring case, in store order; a null or blank filter keeps everyone |
| UsersController.GetManyBlankKeepsAll | WebAPI/Controllers/UsersController.cs:50-54 | a null or white-space `nameContains` returns every user |
| UsersController.GetManyKeeps | WebAPI/Controllers/UsersController.cs:52-53 | a user is returned if and only if its name contains the filter ignoring case |
| UsersController.GetManyInStoreOrder | WebAPI/Controllers/UsersController.cs:56-57 | the list is a subsequence of all users' DTOs: repository order is kept |
| UsersController.MatchingUserIds | WebAPI/Controllers/PostsController.cs:69-72 | an id is in the set if and only if some user with that id has a name containing the text ignoring case |
| UsersController.Update | WebAPI/Controllers/UsersController.cs:62-70 | an unknown id gives `NotFound` and no change; otherwise only that user's name is replaced, the answer is `NoContent`, and fetching the id gives the new name; every other id fetches what it did before |
| UsersController.Delete | WebAPI/Controllers/UsersController.cs:74-81 | an unknown id gives `NotFound` and no change; otherwise exactly that user is removed and the answer is `NoContent`; afterwards the id is not found and every other id fetches what it did before |
| PostsController.Create | WebAPI/Controllers/PostsController.cs:23-39 | an unknown author gives `BadRequest("User with id N not found.")` and no change; otherwise the post is appended with the allocated id and returned as `Created` |
| PostsController.GetSingle | WebAPI/Controllers/PostsController.cs:43-49 | `NotFound` exactly when no post has the id; otherwise `Ok` with the DTO of a post that has it |
| PostsController.GetSingleAt | WebAPI/Controllers/PostsController.cs:43-49 | with unique ids, fetching the i-th post's id returns that post |
| PostsController.GetMany | WebAPI/Controllers/PostsController.cs:53-78 | narrowing by title, then author id, then author name gives the DTOs of the posts that pass all three filters, in store order |
| PostsController.GetManyNoFilterKeepsAll | WebAPI/Controllers/PostsController.cs:58-77 | with no active filter every post is returned |
| PostsController.GetManyBlankIgnored | WebAPI/Controllers/PostsController.cs:60-74 | a blank `titleContains` or `userName` filters exactly as if it were absent |
| PostsController.GetManySoundAndComplete | WebAPI/Controllers/PostsController.cs:58-77 | every returned post is stored and passes each filter, every stored post that passes is returned, and store order is kept |
| PostsController.Update | WebAPI/Controllers/PostsController.cs:82-92 | an unknown id gives `NotFound` and no change; otherwise only title and body of that post change, the answer is `NoContent`, and fetching it shows the new text with the old author; every other id fetches what it did before |
| PostsController.Delete | WebAPI/Controllers/PostsController.cs:96-103 | an unknown id gives `NotFound` and no change; otherwise exactly that post is removed and its comments stay; afterwards the id is not found and every other id fetches what it did before |
| PostsController.DeleteTwice | WebAPI/Controllers/PostsController.cs:96-103 | the first delete succeeds exactly when the post existed; a fetch in between and the second delete answer `NotFound` |
| CommentsController.Create | WebAPI/Controllers/CommentsController.cs:25-43 | the user is checked before the post: an unknown user, or else an unknown post, gives its `BadRequest` message and no change; otherwise the comment is appended and returned as `Created` |
| CommentsController.GetSingle | WebAPI/Controllers/CommentsController.cs:47-53 | `NotFound` exactly when no comment has the id; otherwise `Ok` with the DTO of a comment that has it |
| CommentsController.GetSingleAt | WebAPI/Controllers/CommentsController.cs:47-53 | with unique ids, fetching the i-th comment's id returns that comment |
| CommentsController.GetMany | WebAPI/Controllers/CommentsController.cs:57-82 | narrowing by post id, then user id, then user name gives the DTOs of the comments that pass all three filters, in store order |
| CommentsController.GetManyNoFilterKeepsAll | WebAPI/Controllers/CommentsController.cs:62-81 | with no active filter every comment is returned |
| CommentsController.GetManySoundAndComplete | WebAPI/Controllers/CommentsController.cs:62-81 | every returned comment is stored and passes each filter, every stored comment that passes is returned, and store order is kept |
| CommentsController.Update | WebAPI/Controllers/CommentsController.cs:86-94 | an unknown id gives `NotFound` and no change; otherwise only that comment's body changes and the answer is `NoContent`; every other id fetches what it did before |
| CommentsController.Delete | WebAPI/Controllers/CommentsController.cs:98-105 | an unknown id gives `NotFound` and no change; otherwise exactly that comment is removed; afterwards the id is not found and every other id fetches what it did before |
| AuthController.Login | WebAPI/Controllers/AuthController.cs:22-42 | the answer is `Ok`, `Unauthorized("Invalid username or password")` or a fault; `Ok` carries the id and name of a stored user with that exact name and password |
| AuthController.LoginSoleHolder | WebAPI/Controllers/AuthController.cs:26-41 | with exactly one user of that name, login returns that user when the password matches and the 401 otherwise |
| AuthController.LoginSucceedsIff | WebAPI/Controllers/AuthController.cs:26-41 | login succeeds if and only if exactly one user has the name and that user's password matches |
| AuthController.LoginUnknownName | WebAPI/Controllers/AuthController.cs:26-31 | an unknown name gives the generic 401 |
| AuthController.LoginWrongPasswordLooksUnknown | WebAPI/Controllers/AuthController.cs:28-31 | a wrong password and an unknown name give the same answer, so the response does not reveal which names exist |
| AuthController.LoginAmbiguous | WebAPI/Controllers/AuthController.cs:26 | with two users of that name, `SingleOrDefault` throws whatever the password |
| AuthController.DuplicateSignUpBlocksLogin | WebAPI/Controllers/AuthController.cs:26 | two users created one after the other with the same name (`Create` does not check names) make every later login with that name fail |
| Text.ContainsIgnoreCaseMeaning | WebAPI/Controllers/UsersController.cs:52-53 | the case-insensitive search finds the text if and only if it occurs at some position, compared character by character after upper-casing |
| Text.IntToStringRoundTrip | BlazorApp/Auth/SimpleAuthProvider.cs:90 | the decimal text of an id parses back to the same id |
| Http.FromJson | BlazorApp/Services/HttpPostService.cs:58-61 | deserialising faults exactly on malformed text, with the parser's error; JSON `null` becomes no value; a parsed value is passed on |
| Http.EnsureSuccess | BlazorApp/Services/HttpPostService.cs:33-35 | a 2xx status passes the body on; any other status faults with the body as the message |
| Http.Receive | BlazorApp/Services/HttpPostService.cs:19-27 | a non-success status faults with the body; a success is read as JSON |
| Http.StatusOf | WebAPI/Controllers/PostsController.cs:27-48 | a controller result is sent with a 2xx status exactly when it is `Ok`, `Created` or `NoContent`, and with 404 exactly when it is `NotFound` |
| Http.Respond | WebAPI/Controllers/PostsController.cs:27-48 | the response carries the result's status code, the JSON of a returned value, and the message of a `BadRequest` or `Unauthorized` |
| AuthProvider.CreateClaimsPrincipal | BlazorApp/Auth/SimpleAuthProvider.cs:85-96 | the principal is authenticated and its name and name-identifier claims are the user name and the decimal id |
| AuthProvider.ClaimsIdentifyUser | BlazorApp/Auth/SimpleAuthProvider.cs:85-96 | the identifier claim reads back as the id, and distinct users get distinct principals |
| AuthProvider.SimpleAuthProvider.constructor | BlazorApp/Auth/SimpleAuthProvider.cs:18-22 | the provider starts with the given storage entry, interop availability, collaborators and no notifications |
| AuthProvider.SimpleAuthProvider.GetAuthenticationState | BlazorApp/Auth/SimpleAuthProvider.cs:24-51 | unavailable interop, a missing or empty entry and a stored `null` give the anonymous principal; a readable stored user gives the principal built from that user, and only such a user gives an authenticated one; a malformed entry faults with the parser's error, and nothing else faults |
| AuthProvider.SimpleAuthProvider.Login | BlazorApp/Auth/SimpleAuthProvider.cs:53-76 | a non-success answer faults with the body and changes nothing; a returned user is stored and its principal notified, after which the reported state is that user's when the stored text reads back; a malformed body faults before anything is stored; a `null` body stores `"null"` and then faults on the null user; unavailable interop faults and changes nothing; every 2xx body that is not a user faults; a fault never notifies |
| AuthProvider.SimpleAuthProvider.Logout | BlazorApp/Auth/SimpleAuthProvider.cs:78-83 | the entry becomes empty, the anonymous principal is notified and is then the reported state; without interop it faults and changes nothing |
| HttpPostService.GetPostsUrl | BlazorApp/Services/HttpPostService.cs:66-74 | collecting the parameters in a list and joining them builds exactly `PostsUrl`: `posts`, plus `?` and the parameters when there are any |
| HttpPostService.PostsUrlCarriesFilters | BlazorApp/Services/HttpPostService.cs:66-74 | the URL's path is `posts`; `titleContains` holds the escaped title exactly when the title is not blank; `userId` holds the author id exactly when one is given and reads back as that number; there is no query when there are no filters |
| HttpPostService.PostByIdUrlCarriesArguments | BlazorApp/Services/HttpPostService.cs:48 | the path `posts/{id}` reads back as the id, and the query is the two flags as `True` or `False` |
| HttpPostService.AddPost | BlazorApp/Services/HttpPostService.cs:17-28 | POST to `posts`: a non-success faults with the body; a success is read as the created post |
| HttpPostService.UpdatePost | BlazorApp/Services/HttpPostService.cs:30-36 | PUT to `posts/{id}`: done on a 2xx status, otherwise faults with the body |
| HttpPostService.DeletePost | BlazorApp/Services/HttpPostService.cs:38-44 | DELETE of `posts/{id}`: done on a 2xx status, otherwise faults with the body |
| HttpPostService.GetPostById | BlazorApp/Services/HttpPostService.cs:46-62 | a 404 gives no post, another non-success faults with the body, and a success is read as the post |
| HttpPostService.GetPosts | BlazorApp/Services/HttpPostService.cs:64-85 | GET of `PostsUrl`: a non-success faults with the body; a success is read as the list |
| HttpPostService.MissingPost | BlazorApp/Services/HttpPostService.cs:38-62 | when the server answers 404, fetching gives no post, but updating or deleting faults with the 404's body |
| HttpPostService.AddPostAgainstServer | BlazorApp/Services/HttpPostService.cs:17-28 | when the server's JSON reads back, a created post comes back as is, and a rejected request faults with the server's message |

## Left out

- Repository implementations (file or in-memory) are not part of this
  model. A store of sequences stands in for them.
  - The id `AddAsync` assigns is a parameter `newId`. The caller
    guarantees it is not in use.
  - `AddAsync` is taken to add the new entity at the end of the
    enumeration order, so `Create` appends, and `UpdateAsync` and
    `DeleteAsync` are taken to keep the order of the other entities. These
    choices fix the order `GetMany` returns after a write; the
    repositories that decide it are not part of this model.
  - `UpdateAsync` writing back the fetched entity is modelled as replacing
    the stored element with the changed copy. Aliasing between the fetched
    entity and the repository's copy is not modelled.
- `UsersController.Create`, `PostsController.Create` and
  `CommentsController.Create` do not model the `Location` header of
  `CreatedAtAction`.
- The `ToDto` mappers are functions with no contract of their own. The
  contracts of the actions that use them say what they return.
- Integers are unbounded. The source's ids are 32-bit `int`s; overflow of
  an id is not modelled.
- Case-insensitive comparison folds ASCII letters only. `OrdinalIgnoreCase`
  also folds other letters using invariant-culture upper-casing.
- Routing, model binding and HTTP transport are left out.
  - `int` route constraints and `[FromQuery]` parsing are not modelled.
  - The transport is a function from request to response.
  - `JsonSerializer` is abstract: `write`, `read` and `serialize` are
    parameters.
  - `Uri.EscapeDataString` is a parameter. The only thing assumed of it is
    that its output holds no `&`.
- `Http.Respond`: the body of a bare `NotFound()` and of an unhandled
  exception is a parameter (`frameworkBody`). ASP.NET chooses it and it
  depends on the environment.
- `AuthProvider.SimpleAuthProvider.GetAuthenticationState` makes no claim
  about which principal a malformed stored entry produces. The
  deserialiser throws and the exception is not caught, so the model only
  says that it faults.
- `AuthProvider.SimpleAuthProvider.Login` and `Logout`:
  - Session storage is one field.
  - Whether JavaScript interop is available is a field that the
    environment changes; it never changes during a call.
  - `NotifyAuthenticationStateChanged` appends to a log of notified
    principals.
  - Asynchronous interleaving of these calls is not modelled.
- `HttpUserService` and `HttpCommentService` are not part of this model.
  - The user service sends its filter as `userNameContains`, while
    `UsersController.GetMany` binds only `nameContains`. The parameter
    reaches the server but is not bound, so the list comes back
    unfiltered.
  - The `includeAuthor` and `includeComments` flags that `GetPostByIdAsync`
    sends are ignored by `PostsController.GetSingle`. The model builds the
    URL with them and nothing reads them.
- The service interfaces (`IPostService`, `IUserService`, `ICommentService`)
  only declare the operations above and are not modelled separately.
- Deleting a user or a post does not delete what refers to it. The model
  keeps that behaviour: posts and comments may refer to missing ids.
- Concurrent requests are not modelled. Each action runs alone against the
  store.
