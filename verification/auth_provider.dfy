/** The Blazor client's `SimpleAuthProvider`: it logs in through the API,
    keeps the logged-in user in the `currentUser` session-storage entry and
    reports the authentication state built from it. */
module AuthProvider {
  import opened Wrappers
  import opened Text
  import opened Entities
  import opened Http

  const CurrentUserKey := "currentUser"
  const LoginUrl := "auth/login"

  /** `ClaimTypes.Name` and `ClaimTypes.NameIdentifier`. */
  const NameClaimType := "http://schemas.xmlsoap.org/ws/2005/05/identity/claims/name"
  const NameIdentifierClaimType := "http://schemas.xmlsoap.org/ws/2005/05/identity/claims/nameidentifier"
  const ApiAuthenticationType := "apiauth"

  /** Exceptions the provider lets escape, named by their .NET type: interop
      calls made while the JavaScript runtime is unavailable, and reading
      the claims of a `null` user. */
  const JsRuntimeUnavailable := "InvalidOperationException"
  const NullUser := "NullReferenceException"

  datatype Claim = Claim(Type: string, Value: string)
  datatype ClaimsIdentity = ClaimsIdentity(Claims: seq<Claim>, AuthenticationType: string)

  /** A principal with at most one identity; `new ClaimsPrincipal()` has
      none and stands for the anonymous user. */
  datatype ClaimsPrincipal = ClaimsPrincipal(Identity: Option<ClaimsIdentity>)

  const Anonymous := ClaimsPrincipal(None)

  /** `principal.Identity.IsAuthenticated`: there is an identity and its
      authentication type is not empty. */
  predicate IsAuthenticated(p: ClaimsPrincipal)
  {
    p.Identity.Some? && p.Identity.value.AuthenticationType != ""
  }

  /** `principal.FindFirst(type)?.Value`. */
  function FindFirst(p: ClaimsPrincipal, claimType: string): Option<string>
  {
    if p.Identity.None? then None else FindFirstIn(p.Identity.value.Claims, claimType)
  }

  function FindFirstIn(claims: seq<Claim>, claimType: string): Option<string>
  {
    if claims == [] then None
    else if claims[0].Type == claimType then Some(claims[0].Value)
    else FindFirstIn(claims[1..], claimType)
  }

  /** The principal for a logged-in user: authenticated, named by the user
      name, identified by the decimal text of the id. */
  function CreateClaimsPrincipal(user: UserDto): (p: ClaimsPrincipal)
    ensures IsAuthenticated(p)
    ensures FindFirst(p, NameClaimType) == Some(user.UserName)
    ensures FindFirst(p, NameIdentifierClaimType) == Some(IntToString(user.Id))
  {
    var claims := [Claim(NameClaimType, user.UserName), Claim(NameIdentifierClaimType, IntToString(user.Id))];
    assert |NameClaimType| != |NameIdentifierClaimType|;
    assert claims[1..] == [Claim(NameIdentifierClaimType, IntToString(user.Id))];
    assert FindFirstIn(claims[1..], NameIdentifierClaimType) == Some(IntToString(user.Id));
    ClaimsPrincipal(Some(ClaimsIdentity(claims, ApiAuthenticationType)))
  }

  /** The principal gives back the user it was built from: the name claim is
      the name and the identifier claim reads back as the id. */
  lemma ClaimsIdentifyUser(user: UserDto)
    ensures ParseInt(FindFirst(CreateClaimsPrincipal(user), NameIdentifierClaimType).value) == Some(user.Id)
    ensures forall other: UserDto :: CreateClaimsPrincipal(other) == CreateClaimsPrincipal(user) ==> other == user
  {
    IntToStringRoundTrip(user.Id);
    forall other: UserDto | CreateClaimsPrincipal(other) == CreateClaimsPrincipal(user) ensures other == user {
      assert FindFirst(CreateClaimsPrincipal(other), NameIdentifierClaimType) == Some(IntToString(user.Id));
      IntToStringInjective(other.Id, user.Id);
    }
  }

  class SimpleAuthProvider {
    /** The `currentUser` session-storage entry; `None` while it was never
        written (`getItem` then gives `null`). */
    var currentUser: Option<string>

    /** False while JavaScript interop cannot be used (prerendering): every
        session-storage call then throws `InvalidOperationException`. */
    var jsReady: bool

    /** The states passed to `NotifyAuthenticationStateChanged`, oldest
        first. */
    var notified: seq<ClaimsPrincipal>

    /** `JsonSerializer.Serialize` of a user. */
    const serialize: UserDto -> string
    /** `JsonSerializer.Deserialize<UserDto>` with default options, as used
        on the stored entry. */
    const readStored: string -> Json<UserDto>
    /** The same with case-insensitive property names, as used on the login
        response. */
    const readResponse: string -> Json<UserDto>
    /** `HttpClient.PostAsJsonAsync(url, request)`: the response the server
        gives. */
    const post: (string, LoginRequest) -> HttpResponse

    constructor (serialize: UserDto -> string, readStored: string -> Json<UserDto>,
                 readResponse: string -> Json<UserDto>, post: (string, LoginRequest) -> HttpResponse,
                 stored: Option<string>, jsReady: bool)
      ensures this.serialize == serialize && this.readStored == readStored
      ensures this.readResponse == readResponse && this.post == post
      ensures currentUser == stored && this.jsReady == jsReady && notified == []
    {
      this.serialize, this.readStored, this.readResponse, this.post := serialize, readStored, readResponse, post;
      currentUser, this.jsReady, notified := stored, jsReady, [];
    }

    /** A serialised user is a non-empty text that reads back as that user. */
    ghost predicate StorageRoundTrips()
    {
      forall user :: serialize(user) != "" && readStored(serialize(user)) == Parsed(user)
    }

    /** `GetAuthenticationStateAsync`. Unavailable storage, a missing or
        empty entry and a stored `null` all give the anonymous principal; only
        a stored user gives an authenticated one. A malformed entry makes the
        deserialiser throw, which is not caught. */
    function GetAuthenticationState(): (r: Outcome<ClaimsPrincipal>)
      reads this
      ensures !jsReady ==> r == Done(Anonymous)
      ensures IsNullOrEmpty(currentUser) ==> r == Done(Anonymous)
      ensures currentUser.Some? && readStored(currentUser.value).JsonNull? ==> r == Done(Anonymous)
      ensures r.Faulted? ==> jsReady && currentUser.Some? && readStored(currentUser.value).Malformed?
      ensures jsReady && !IsNullOrEmpty(currentUser) && readStored(currentUser.value).Malformed? ==>
        r == Faulted(readStored(currentUser.value).error)
      ensures jsReady && !IsNullOrEmpty(currentUser) && readStored(currentUser.value).Parsed? ==>
        r == Done(CreateClaimsPrincipal(readStored(currentUser.value).value))
      ensures r.Done? && r.value != Anonymous ==>
        && jsReady && currentUser.Some? && readStored(currentUser.value).Parsed?
        && r.value == CreateClaimsPrincipal(readStored(currentUser.value).value)
        && IsAuthenticated(r.value)
    {
      if !jsReady then Done(Anonymous)
      else if IsNullOrEmpty(currentUser) then Done(Anonymous)
      else match readStored(currentUser.value)
        case Malformed(e) => Faulted(e)
        case JsonNull => Done(Anonymous)
        case Parsed(user) => Done(CreateClaimsPrincipal(user))
    }

    /** The response to the login request for these credentials. */
    function LoginResponse(userName: string, password: string): HttpResponse
    {
      post(LoginUrl, LoginRequest(userName, password))
    }

    /** `LoginAsync`. A non-success answer throws with the response body and
        leaves storage and subscribers alone. A success stores the
        serialised user and notifies its authenticated principal, after which
        the reported state is that user's, provided the stored text reads
        back. */
    method Login(userName: string, password: string) returns (r: Outcome<()>)
      modifies this
      ensures jsReady == old(jsReady)
      ensures var response := LoginResponse(userName, password);
        !IsSuccessStatusCode(response.StatusCode) ==>
          r == Faulted(response.Content) && currentUser == old(currentUser) && notified == old(notified)
      ensures var response := LoginResponse(userName, password);
        IsSuccessStatusCode(response.StatusCode) && readResponse(response.Content).Parsed? && jsReady ==>
          var user := readResponse(response.Content).value;
          && r == Done(())
          && currentUser == Some(serialize(user))
          && notified == old(notified) + [CreateClaimsPrincipal(user)]
          && (StorageRoundTrips() ==> GetAuthenticationState() == Done(CreateClaimsPrincipal(user)))
      ensures var response := LoginResponse(userName, password);
        IsSuccessStatusCode(response.StatusCode) && readResponse(response.Content).Malformed? ==>
          r == Faulted(readResponse(response.Content).error) && currentUser == old(currentUser)
      ensures var response := LoginResponse(userName, password);
        IsSuccessStatusCode(response.StatusCode) && readResponse(response.Content).JsonNull? && jsReady ==>
          r == Faulted(NullUser) && currentUser == Some("null")
      ensures var response := LoginResponse(userName, password);
        IsSuccessStatusCode(response.StatusCode) && !readResponse(response.Content).Malformed? && !jsReady ==>
          r == Faulted(JsRuntimeUnavailable)
      ensures var response := LoginResponse(userName, password);
        IsSuccessStatusCode(response.StatusCode) && !readResponse(response.Content).Parsed? ==> r.Faulted?
      ensures r.Faulted? ==> notified == old(notified)
      ensures !jsReady ==> currentUser == old(currentUser) && notified == old(notified)
    {
      var response := post(LoginUrl, LoginRequest(userName, password));
      var content := response.Content;
      if !IsSuccessStatusCode(response.StatusCode) {
        return Faulted(content);
      }
      match readResponse(content)
      case Malformed(e) =>
        return Faulted(e);
      case JsonNull =>
        // `Serialize(null)` is the text "null"; it is stored, and building the
        // principal then dereferences the null user.
        if !jsReady {
          return Faulted(JsRuntimeUnavailable);
        }
        currentUser := Some("null");
        return Faulted(NullUser);
      case Parsed(user) =>
        var serialised := serialize(user);
        if !jsReady {
          return Faulted(JsRuntimeUnavailable);
        }
        currentUser := Some(serialised);
        var principal := CreateClaimsPrincipal(user);
        notified := notified + [principal];
        r := Done(());
    }

    /** `LogoutAsync`: the entry becomes empty and subscribers hear of the
        anonymous principal, which is then the reported state. */
    method Logout() returns (r: Outcome<()>)
      modifies this
      ensures jsReady == old(jsReady)
      ensures !jsReady ==>
        r == Faulted(JsRuntimeUnavailable) && currentUser == old(currentUser) && notified == old(notified)
      ensures jsReady ==>
        && r == Done(())
        && currentUser == Some("")
        && notified == old(notified) + [Anonymous]
        && GetAuthenticationState() == Done(Anonymous)
    {
      if !jsReady {
        return Faulted(JsRuntimeUnavailable);
      }
      currentUser := Some("");
      notified := notified + [Anonymous];
      r := Done(());
    }
  }
}
