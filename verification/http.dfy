/** What the Blazor client sees of HTTP and JSON. The transport and the JSON
    (de)serialisers are not modelled: operations receive them as function
    parameters. */
module Http {
  import opened Wrappers
  import opened Entities

  /** A response: its status code and its body read as a string. */
  datatype HttpResponse = HttpResponse(StatusCode: int, Content: string)

  /** `HttpResponseMessage.IsSuccessStatusCode`: a 2xx status. */
  predicate IsSuccessStatusCode(code: int)
  {
    200 <= code <= 299
  }

  /** What `JsonSerializer.Deserialize<T>` makes of a text: a value, `null`
      for the JSON literal `null`, or a `JsonException` for malformed text. */
  datatype Json<+T> = Parsed(value: T) | JsonNull | Malformed(error: string)

  /** The deserialised value as the caller receives it: `null` becomes
      `None`, and a malformed text faults the operation. */
  function FromJson<T>(j: Json<T>): (r: Outcome<Option<T>>)
    ensures r.Faulted? <==> j.Malformed?
    ensures j.Malformed? ==> r == Faulted(j.error)
    ensures j.Parsed? ==> r == Done(Some(j.value))
    ensures j.JsonNull? ==> r == Done(None)
  {
    match j
    case Parsed(v) => Done(Some(v))
    case JsonNull => Done(None)
    case Malformed(e) => Faulted(e)
  }

  /** The check every client operation makes after reading the body: a
      non-success status faults with the body as the exception message. */
  function EnsureSuccess(response: HttpResponse): (r: Outcome<string>)
    ensures r.Done? <==> IsSuccessStatusCode(response.StatusCode)
    ensures r.Done? ==> r.value == response.Content
    ensures r.Faulted? ==> r.message == response.Content
  {
    if IsSuccessStatusCode(response.StatusCode) then Done(response.Content) else Faulted(response.Content)
  }

  /** What an operation that returns the body's value makes of a response:
      a non-success faults with the body, a success is read as JSON. */
  function Receive<T>(response: HttpResponse, read: string -> Json<T>): (r: Outcome<Option<T>>)
    ensures !IsSuccessStatusCode(response.StatusCode) ==> r == Faulted(response.Content)
    ensures IsSuccessStatusCode(response.StatusCode) ==> r == FromJson(read(response.Content))
  {
    match EnsureSuccess(response)
    case Faulted(m) => Faulted(m)
    case Done(content) => FromJson(read(content))
  }

  /** The status code ASP.NET sends for each controller result. */
  function StatusOf<T>(result: ActionResult<T>): (code: int)
    ensures IsSuccessStatusCode(code) <==> result.Ok? || result.Created? || result.NoContent?
    ensures code == 404 <==> result.NotFound?
  {
    match result
    case Ok(_) => 200
    case Created(_) => 201
    case NoContent => 204
    case BadRequest(_) => 400
    case Unauthorized(_) => 401
    case NotFound => 404
    case Fault(_) => 500
  }

  /** The response a controller result becomes: a value is written as JSON
      by `write`, a message given to `BadRequest` or `Unauthorized` is the
      body as it stands, and the body of a bare `NotFound` or of an unhandled
      exception is whatever the framework chooses, `frameworkBody`. */
  function Respond<T>(result: ActionResult<T>, write: T -> string, frameworkBody: string): (response: HttpResponse)
    ensures response.StatusCode == StatusOf(result)
    ensures (result.Ok? || result.Created?) ==> response.Content == write(result.value)
    ensures (result.BadRequest? || result.Unauthorized?) ==> response.Content == result.message
  {
    var content := match result
      case Ok(v) => write(v)
      case Created(v) => write(v)
      case NoContent => ""
      case BadRequest(m) => m
      case Unauthorized(m) => m
      case NotFound => frameworkBody
      case Fault(_) => frameworkBody;
    HttpResponse(StatusOf(result), content)
  }
}
