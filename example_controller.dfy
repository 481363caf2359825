/** The example API (src/Controller/ExampleController.php): reading one
    example behind a fixed token, and creating one. The request is cut down
    to what the actions look at: the X-Auth-Token header, the route id and
    the decoded title; the random id of a new example is a parameter. */
module ExampleController {
  import opened Wrappers

  /** The one token getAction accepts. */
  const AuthToken: string := "e1f4ec0d-54df-465e-8cf3-78dad2ca8463"

  /** The body of both authentication failures. */
  const InvalidCredentials: string := "Invalid credentials"

  const HttpOk: int := 200
  const HttpCreated: int := 201
  const HttpUnauthorized: int := 401
  const HttpForbidden: int := 403
  const HttpNotFound: int := 404

  /** A plain text body, the JSON object of an example, or the framework's
      not-found page. */
  datatype Body = Text(text: string) | Example(id: int, title: string) | NotFoundPage

  datatype Response = Response(status: int, body: Body)

  /** getAction: `authToken` is the X-Auth-Token request header, None when the
      request has none. Authentication is checked before the id. */
  function GetAction(authToken: Option<string>, id: int): (r: Response)
    ensures authToken.None? ==> r == Response(HttpForbidden, Text(InvalidCredentials))
    ensures authToken.Some? && authToken.value != AuthToken ==> r == Response(HttpUnauthorized, Text(InvalidCredentials))
    ensures authToken == Some(AuthToken) && id != 1 ==> r.status == HttpNotFound
    ensures authToken == Some(AuthToken) && id == 1 ==> r == Response(HttpOk, Example(1, "Test"))
  {
    if authToken.None? then Response(HttpForbidden, Text(InvalidCredentials))
    else if AuthToken != authToken.value then Response(HttpUnauthorized, Text(InvalidCredentials))
    else if id != 1 then Response(HttpNotFound, NotFoundPage)
    else Response(HttpOk, Example(id, "Test"))
  }

  /** Without the right token the id is never looked at: the answer is the
      same for every id and is neither a success nor a not-found. */
  lemma AuthBeforeId(authToken: Option<string>, id: int, other: int)
    requires authToken != Some(AuthToken)
    ensures GetAction(authToken, id) == GetAction(authToken, other)
    ensures GetAction(authToken, id).status != HttpOk && GetAction(authToken, id).status != HttpNotFound
  {
  }

  /** Exactly one request succeeds: the right token and id 1. */
  lemma GetSucceedsExactly(authToken: Option<string>, id: int)
    ensures GetAction(authToken, id).status == HttpOk <==> authToken == Some(AuthToken) && id == 1
  {
  }

  /** postAction, with `id` the value mt_rand(2, 100) drew and `title` the
      title of the decoded request body; it performs no authentication. */
  function PostAction(id: int, title: string): (r: Response)
    requires 2 <= id <= 100
    ensures r.status == HttpCreated
    ensures r.body.Example? && r.body.title == title && 2 <= r.body.id <= 100
  {
    Response(HttpCreated, Example(id, title))
  }
}
