/** The JSON API's routing, error responses and request/response shapes. */
module Api {
  import opened Wrappers
  import opened Schema

  /** The error responses, each with its HTTP status and `error` message. */
  datatype ApiError = InvalidJson | BodyRequired | NoUserFound | UnknownEndpoint {
    function Status(): (r: int)
      ensures r == 400 <==> InvalidJson? || BodyRequired?
      ensures r == 500 <==> NoUserFound?
      ensures r == 404 <==> UnknownEndpoint?
    {
      match this
      case InvalidJson => 400
      case BodyRequired => 400
      case NoUserFound => 500
      case UnknownEndpoint => 404
    }

    function Message(): (r: string)
      ensures r == "Invalid JSON" <==> InvalidJson?
      ensures r == "Body is required" <==> BodyRequired?
      ensures r == "No user found" <==> NoUserFound?
      ensures r == "Unknown API endpoint" <==> UnknownEndpoint?
    {
      match this
      case InvalidJson => "Invalid JSON"
      case BodyRequired => "Body is required"
      case NoUserFound => "No user found"
      case UnknownEndpoint => "Unknown API endpoint"
    }
  }

  /** A decoded create request: `None` for a field stands for a missing key
      or a JSON null. A request that is not a JSON object is `None` as a whole. */
  datatype CreateInput = CreateInput(body: Option<string>, kind: Option<string>)

  /** What a request is dispatched to. */
  datatype Endpoint = HtmlPage | PostsList | PostsCreate | UnknownApi

  /** The dispatch on the `api` query parameter (`None` when it is not set). */
  function Route(api: Option<string>): (e: Endpoint)
    ensures e == HtmlPage <==> api.None?
    ensures e == PostsList <==> api == Some("posts-list")
    ensures e == PostsCreate <==> api == Some("posts-create")
    ensures e == UnknownApi <==> api.Some? && api.value != "posts-list" && api.value != "posts-create"
  {
    match api
    case None => HtmlPage
    case Some(a) =>
      if a == "posts-list" then PostsList
      else if a == "posts-create" then PostsCreate
      else UnknownApi
  }

  /** A response: the HTML page, a JSON array of rows, the created record,
      or an error object. */
  datatype Response = Page | Listed(rows: seq<PostRecord>) | Created(record: PostRecord) | Error(error: ApiError) {
    /** The HTTP status: 200 unless the response is an error object. */
    function Status(): (r: int)
      ensures r == 200 <==> !Error?
      ensures r == 500 <==> Error? && error == NoUserFound
    {
      if Error? then error.Status() else 200
    }
  }
}
