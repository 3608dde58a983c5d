/** The entities the Web API persists, the DTOs it exchanges, and the result
    of a controller action. */
module Entities {

  /** A stored user; `Password` is kept in plain text. */
  datatype User = User(Id: int, UserName: string, Password: string)

  /** A stored post; `UserId` names its author. */
  datatype Post = Post(Id: int, Title: string, Body: string, UserId: int)

  /** A stored comment on post `PostId` by user `UserId`. */
  datatype Comment = Comment(Id: int, Body: string, UserId: int, PostId: int)

  function UserKey(u: User): int { u.Id }
  function PostKey(p: Post): int { p.Id }
  function CommentKey(c: Comment): int { c.Id }

  /** What the API returns for a user: there is no password field. */
  datatype UserDto = UserDto(Id: int, UserName: string)
  datatype PostDto = PostDto(Id: int, Title: string, Body: string, UserId: int)
  datatype CommentDto = CommentDto(Id: int, Body: string, UserId: int, PostId: int)

  datatype CreateUserDto = CreateUserDto(UserName: string, Password: string)
  datatype UpdateUserDto = UpdateUserDto(UserName: string)
  datatype CreatePostDto = CreatePostDto(Title: string, Body: string, UserId: int)
  datatype UpdatePostDto = UpdatePostDto(Title: string, Body: string)
  datatype CreateCommentDto = CreateCommentDto(Body: string, UserId: int, PostId: int)
  datatype UpdateCommentDto = UpdateCommentDto(Body: string)
  datatype LoginRequest = LoginRequest(UserName: string, Password: string)

  /** The HTTP answer of a controller action: 200 with a body, 201 with the
      created resource, 204, 404, 400 or 401 with a plain-text reason, or an
      exception escaping the action (which the framework answers with 500). */
  datatype ActionResult<+T> =
    | Ok(value: T)
    | Created(value: T)
    | NoContent
    | NotFound
    | BadRequest(message: string)
    | Unauthorized(message: string)
    | Fault(message: string)
}
