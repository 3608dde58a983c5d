/** The Blazor client's `HttpPostService`: the URLs it requests from the
    posts endpoints and what it makes of the responses. The transport is a
    function from request to response; the JSON reader is a parameter. */
module HttpPostService {
  import opened Wrappers
  import opened Text
  import opened Entities
  import opened Http

  const PostsPath := "posts"

  /** The requests the service sends, each with its URL and JSON body. */
  datatype PostRequest =
    | PostAsJson(url: string, created: CreatePostDto)
    | PutAsJson(url: string, updated: UpdatePostDto)
    | Delete(url: string)
    | Get(url: string)

  /** The part of a URL before its first `?`. */
  function Path(url: string): (r: string)
    ensures '?' !in r
    ensures IndexOf(url, '?').None? ==> r == url
  {
    match IndexOf(url, '?')
    case None => url
    case Some(i) => url[..i]
  }

  /** The `&`-separated parameters after the first `?`; none without one. */
  function QueryString(url: string): seq<string>
  {
    match IndexOf(url, '?')
    case None => []
    case Some(i) => SplitOn(url[i + 1..], '&')
  }

  /** A path without `?` followed by `&`-free parameters parses back into
      that path and those parameters. */
  lemma {:induction false} QueryRoundTrip(path: string, parts: seq<string>)
    requires '?' !in path
    requires parts != [] && forall k :: 0 <= k < |parts| ==> '&' !in parts[k]
    ensures Path(path + "?" + Join("&", parts)) == path
    ensures QueryString(path + "?" + Join("&", parts)) == parts
  {
    var url := path + "?" + Join("&", parts);
    IndexOfAfter(path, '?', Join("&", parts));
    assert url[..|path|] == path;
    assert url[|path| + 1..] == Join("&", parts);
    SplitJoin(parts, '&');
  }

  /** The value of the first `name=value` parameter, as a server reads it. */
  function QueryValue(query: seq<string>, name: string): (r: Option<string>)
    ensures r.Some? ==> exists k :: 0 <= k < |query| && query[k] == name + "=" + r.value
    ensures r.None? ==> forall k, v :: 0 <= k < |query| ==> query[k] != name + "=" + v
  {
    if query == [] then None
    else if |name| + 1 <= |query[0]| && query[0][..|name| + 1] == name + "=" then
      assert query[0] == name + "=" + query[0][|name| + 1..];
      Some(query[0][|name| + 1..])
    else
      var r := QueryValue(query[1..], name);
      assert forall v :: (name + "=" + v)[..|name| + 1] == name + "=";
      assert r.Some? ==> query[1..][0..] == query[1..];
      r
  }

  /** The first parameter with the name gives the value. */
  lemma QueryValueHead(name: string, value: string, rest: seq<string>)
    ensures QueryValue([name + "=" + value] + rest, name) == Some(value)
  {
    var query := [name + "=" + value] + rest;
    assert query[0][..|name| + 1] == name + "=";
  }

  /** A parameter whose text starts differently from `name=` is skipped. */
  lemma QueryValueSkip(name: string, other: string, rest: seq<string>)
    requires other != [] && other[0] != (name + "=")[0]
    ensures QueryValue([other] + rest, name) == QueryValue(rest, name)
  {
    var query := [other] + rest;
    assert query[1..] == rest;
    if |name| + 1 <= |other| {
      assert other[..|name| + 1][0] != (name + "=")[0];
    }
  }

  /** The URL `GetPostsAsync` requests: `posts`, then `?` and the
      parameters joined by `&` if there are any — `titleContains` with the
      escaped title unless it is blank, then `userId` if an author is given. */
  function PostsUrl(titleContains: Option<string>, authoredByUserId: Option<int>, escape: string -> string): string
  {
    var title := "titleContains=" + (if titleContains.Some? then escape(titleContains.value) else "");
    var user := "userId=" + (if authoredByUserId.Some? then IntToString(authoredByUserId.value) else "");
    match (IsNullOrWhiteSpace(titleContains), authoredByUserId.None?)
    case (true, true) => PostsPath
    case (false, true) => PostsPath + "?" + title
    case (true, false) => PostsPath + "?" + user
    case (false, false) => PostsPath + "?" + title + "&" + user
  }

  /** `GetPostsAsync` builds its URL by collecting the parameters in a list
      and joining them. */
  method GetPostsUrl(titleContains: Option<string>, authoredByUserId: Option<int>, escape: string -> string)
    returns (url: string)
    ensures url == PostsUrl(titleContains, authoredByUserId, escape)
  {
    var queryParams: seq<string> := [];
    if !IsNullOrWhiteSpace(titleContains) {
      queryParams := queryParams + ["titleContains=" + escape(titleContains.value)];
    }
    if authoredByUserId.Some? {
      queryParams := queryParams + ["userId=" + IntToString(authoredByUserId.value)];
    }
    url := PostsPath;
    if |queryParams| > 0 {
      if |queryParams| == 2 {
        JoinTwo(queryParams[0], queryParams[1]);
        Regroup(PostsPath, "titleContains=", escape(titleContains.value), "userId=", IntToString(authoredByUserId.value));
      }
      url := url + "?" + Join("&", queryParams);
    }
  }

  /** The server finds in the URL exactly the filters the caller gave: the
      escaped title unless it is blank, and the author id, which reads back
      as the same number. This needs an escaping that leaves no `&`, as
      `Uri.EscapeDataString` does. */
  lemma PostsUrlCarriesFilters(titleContains: Option<string>, authoredByUserId: Option<int>, escape: string -> string)
    requires titleContains.Some? ==> '&' !in escape(titleContains.value)
    ensures var url := PostsUrl(titleContains, authoredByUserId, escape);
      && Path(url) == PostsPath
      && QueryValue(QueryString(url), "titleContains")
         == (if IsNullOrWhiteSpace(titleContains) then None else Some(escape(titleContains.value)))
      && QueryValue(QueryString(url), "userId")
         == (if authoredByUserId.None? then None else Some(IntToString(authoredByUserId.value)))
      && (authoredByUserId.Some? ==> ParseInt(QueryValue(QueryString(url), "userId").value) == authoredByUserId)
      && (QueryString(url) == [] <==> IsNullOrWhiteSpace(titleContains) && authoredByUserId.None?)
  {
    var url := PostsUrl(titleContains, authoredByUserId, escape);
    var parts := QueryParams(titleContains, authoredByUserId, escape);
    PostsUrlJoinsParams(titleContains, authoredByUserId, escape);
    if parts != [] {
      QueryRoundTrip(PostsPath, parts);
    }
    QueryParamsValues(titleContains, authoredByUserId, escape);
    if authoredByUserId.Some? {
      IntToStringRoundTrip(authoredByUserId.value);
    }
  }

  /** The parameters `GetPostsAsync` collects, in order. */
  function QueryParams(titleContains: Option<string>, authoredByUserId: Option<int>, escape: string -> string)
    : (parts: seq<string>)
    requires titleContains.Some? ==> '&' !in escape(titleContains.value)
    ensures forall k :: 0 <= k < |parts| ==> '&' !in parts[k]
  {
    var title := if IsNullOrWhiteSpace(titleContains) then [] else ["titleContains=" + escape(titleContains.value)];
    var user :=
      if authoredByUserId.None? then []
      else (NoSeparatorsInNumber(authoredByUserId.value); ["userId=" + IntToString(authoredByUserId.value)]);
    title + user
  }

  /** `PostsUrl` is the path, then `?` and the joined parameters if any. */
  lemma PostsUrlJoinsParams(titleContains: Option<string>, authoredByUserId: Option<int>, escape: string -> string)
    requires titleContains.Some? ==> '&' !in escape(titleContains.value)
    ensures var parts := QueryParams(titleContains, authoredByUserId, escape);
      PostsUrl(titleContains, authoredByUserId, escape)
      == if parts == [] then PostsPath else PostsPath + "?" + Join("&", parts)
  {
    if !IsNullOrWhiteSpace(titleContains) && authoredByUserId.Some? {
      JoinTwo("titleContains=" + escape(titleContains.value), "userId=" + IntToString(authoredByUserId.value));
      Regroup(PostsPath, "titleContains=", escape(titleContains.value), "userId=", IntToString(authoredByUserId.value));
    }
  }

  /** Each filter is found under its own name among the parameters. */
  lemma QueryParamsValues(titleContains: Option<string>, authoredByUserId: Option<int>, escape: string -> string)
    requires titleContains.Some? ==> '&' !in escape(titleContains.value)
    ensures var parts := QueryParams(titleContains, authoredByUserId, escape);
      && QueryValue(parts, "titleContains")
         == (if IsNullOrWhiteSpace(titleContains) then None else Some(escape(titleContains.value)))
      && QueryValue(parts, "userId")
         == (if authoredByUserId.None? then None else Some(IntToString(authoredByUserId.value)))
  {
    var user := if authoredByUserId.None? then [] else ["userId=" + IntToString(authoredByUserId.value)];
    if authoredByUserId.Some? {
      QueryValueHead("userId", IntToString(authoredByUserId.value), []);
      QueryValueSkip("titleContains", user[0], []);
    }
    if !IsNullOrWhiteSpace(titleContains) {
      var title := "titleContains=" + escape(titleContains.value);
      QueryValueHead("titleContains", escape(titleContains.value), user);
      QueryValueSkip("userId", title, user);
    }
  }

  /** `Join` of two parts puts the separator between them. */
  lemma JoinTwo(first: string, second: string)
    ensures Join("&", [first, second]) == first + "&" + second
  {
    assert [first, second][1..] == [second];
  }

  /** The URL text read as a path and a query of two parameters. */
  lemma Regroup(path: string, name1: string, value1: string, name2: string, value2: string)
    ensures path + "?" + name1 + value1 + "&" + name2 + value2
         == path + "?" + ((name1 + value1) + "&" + (name2 + value2))
  {
  }

  /** The decimal text of a number holds neither `&` nor `?`. */
  lemma NoSeparatorsInNumber(n: int)
    ensures '&' !in IntToString(n) && '?' !in IntToString(n)
  {
    var digits := IntToString(n);
    assert forall k :: 0 <= k < |digits| ==> digits[k] != '&' && digits[k] != '?';
  }

  /** The URL `GetPostByIdAsync` requests: `posts/{id}` with both include
      flags printed as `True` or `False`. */
  function PostByIdUrl(id: int, includeAuthor: bool, includeComments: bool): string
  {
    PostsPath + "/" + IntToString(id) + "?"
      + "includeAuthor=" + BoolToString(includeAuthor) + "&"
      + "includeComments=" + BoolToString(includeComments)
  }

  /** The id reads back from the path and both flags from the query. */
  lemma PostByIdUrlCarriesArguments(id: int, includeAuthor: bool, includeComments: bool)
    ensures var url := PostByIdUrl(id, includeAuthor, includeComments);
      && Path(url) == PostsPath + "/" + IntToString(id)
      && ParseInt(Path(url)[|PostsPath| + 1..]) == Some(id)
      && QueryString(url) == ["includeAuthor=" + BoolToString(includeAuthor), "includeComments=" + BoolToString(includeComments)]
  {
    var url := PostByIdUrl(id, includeAuthor, includeComments);
    var digits := IntToString(id);
    var path := PostsPath + "/" + digits;
    var author := "includeAuthor=" + BoolToString(includeAuthor);
    var comments := "includeComments=" + BoolToString(includeComments);
    NoSeparatorsInNumber(id);
    assert '?' !in path;
    JoinTwo(author, comments);
    Regroup(path, "includeAuthor=", BoolToString(includeAuthor), "includeComments=", BoolToString(includeComments));
    QueryRoundTrip(path, [author, comments]);
    assert path[|PostsPath| + 1..] == digits;
    IntToStringRoundTrip(id);
  }

  /** `AddPostAsync`: POST to `posts`; the created post is read from the
      body of a success. */
  function AddPost(request: CreatePostDto, send: PostRequest -> HttpResponse, read: string -> Json<PostDto>)
    : (r: Outcome<Option<PostDto>>)
    ensures var response := send(PostAsJson(PostsPath, request));
      && (!IsSuccessStatusCode(response.StatusCode) ==> r == Faulted(response.Content))
      && (IsSuccessStatusCode(response.StatusCode) ==> r == FromJson(read(response.Content)))
  {
    Receive(send(PostAsJson(PostsPath, request)), read)
  }

  /** `UpdatePostAsync`: PUT to `posts/{id}`; only the status matters. */
  function UpdatePost(id: int, request: UpdatePostDto, send: PostRequest -> HttpResponse): (r: Outcome<()>)
    ensures var response := send(PutAsJson(PostsPath + "/" + IntToString(id), request));
      r == (if IsSuccessStatusCode(response.StatusCode) then Done(()) else Faulted(response.Content))
  {
    match EnsureSuccess(send(PutAsJson(PostsPath + "/" + IntToString(id), request)))
    case Done(_) => Done(())
    case Faulted(m) => Faulted(m)
  }

  /** `DeletePostAsync`: DELETE of `posts/{id}`; only the status matters. */
  function DeletePost(id: int, send: PostRequest -> HttpResponse): (r: Outcome<()>)
    ensures var response := send(Delete(PostsPath + "/" + IntToString(id)));
      r == (if IsSuccessStatusCode(response.StatusCode) then Done(()) else Faulted(response.Content))
  {
    match EnsureSuccess(send(Delete(PostsPath + "/" + IntToString(id))))
    case Done(_) => Done(())
    case Faulted(m) => Faulted(m)
  }

  /** `GetPostByIdAsync`: unlike the other operations a 404 is not an
      error but the absence of the post; it is checked before the body is
      read. */
  function GetPostById(id: int, includeAuthor: bool, includeComments: bool,
                       send: PostRequest -> HttpResponse, read: string -> Json<PostDto>)
    : (r: Outcome<Option<PostDto>>)
    ensures var response := send(Get(PostByIdUrl(id, includeAuthor, includeComments)));
      && (response.StatusCode == 404 ==> r == Done(None))
      && (response.StatusCode != 404 && !IsSuccessStatusCode(response.StatusCode) ==> r == Faulted(response.Content))
      && (IsSuccessStatusCode(response.StatusCode) ==> r == FromJson(read(response.Content)))
  {
    var response := send(Get(PostByIdUrl(id, includeAuthor, includeComments)));
    if response.StatusCode == 404 then Done(None) else Receive(response, read)
  }

  /** `GetPostsAsync`: GET of the filtered list. */
  function GetPosts(titleContains: Option<string>, authoredByUserId: Option<int>, escape: string -> string,
                    send: PostRequest -> HttpResponse, read: string -> Json<seq<PostDto>>)
    : (r: Outcome<Option<seq<PostDto>>>)
    ensures var response := send(Get(PostsUrl(titleContains, authoredByUserId, escape)));
      && (!IsSuccessStatusCode(response.StatusCode) ==> r == Faulted(response.Content))
      && (IsSuccessStatusCode(response.StatusCode) ==> r == FromJson(read(response.Content)))
  {
    Receive(send(Get(PostsUrl(titleContains, authoredByUserId, escape))), read)
  }

  /** Against the server: a missing post reads as absent, but updating or
      deleting it faults with the body of the 404. */
  lemma MissingPost(id: int, request: UpdatePostDto, frameworkBody: string,
                    send: PostRequest -> HttpResponse, read: string -> Json<PostDto>)
    requires forall req: PostRequest :: send(req) == Respond<()>(NotFound, _ => "", frameworkBody)
    ensures GetPostById(id, true, true, send, read) == Done(None)
    ensures UpdatePost(id, request, send) == Faulted(frameworkBody)
    ensures DeletePost(id, send) == Faulted(frameworkBody)
  {
    var response := Respond<()>(NotFound, _ => "", frameworkBody);
    assert response.StatusCode == 404;
  }

  /** Against the server: what the controller answered is what the client
      returns, when the JSON written by the server reads back. A rejected
      request faults with the server's message. */
  lemma AddPostAgainstServer(request: CreatePostDto, result: ActionResult<PostDto>,
                             write: PostDto -> string, frameworkBody: string,
                             send: PostRequest -> HttpResponse, read: string -> Json<PostDto>)
    requires send(PostAsJson(PostsPath, request)) == Respond(result, write, frameworkBody)
    requires forall post :: read(write(post)) == Parsed(post)
    ensures result.Created? ==> AddPost(request, send, read) == Done(Some(result.value))
    ensures result.BadRequest? ==> AddPost(request, send, read) == Faulted(result.message)
    ensures result.Ok? ==> AddPost(request, send, read) == Done(Some(result.value))
    ensures !(result.Ok? || result.Created? || result.NoContent?) ==>
      AddPost(request, send, read) == Faulted(Respond(result, write, frameworkBody).Content)
  {
    if result.Ok? || result.Created? {
      assert read(write(result.value)) == Parsed(result.value);
    }
  }
}
