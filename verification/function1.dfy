/** The request gate of the `Function1` HTTP trigger: it reads the
    `Authorization` header, asks an identity verifier about the token it finds
    there, checks the `userId` query parameter and answers with one of three
    plain-text responses. */
module Function1 {
  import opened Wrappers
  import opened Strings
  import opened Http

  const ContentType := "Content-Type"
  const PlainText := "text/plain; charset=utf-8"
  const UnauthorizedMessage := "Unauthorized request."
  const MissingUserIdMessage := "Missing userId parameter."
  const WelcomePrefix := "Welcome to Azure Functions, user "
  const WelcomeSuffix := "!"

  /** What the gate reads from one request. `authorization` is the result of
      looking up the `Authorization` header (None when the lookup fails or
      yields null); `userId` is the `userId` query parameter (None when absent). */
  datatype Request = Request(authorization: Option<seq<string>>, userId: Option<string>)

  /** The identity verifier's answer for one token: a verified identity with
      its uid, a rejection (`FirebaseAuthException`), or any other exception. */
  datatype Verdict = Verified(uid: string) | Rejected(reason: string) | Raised(error: string)

  /** The end of one request: a response, or an exception the gate does not
      catch and that leaves it unchanged. */
  datatype Outcome = Responded(response: Response) | Escaped(error: string)

  /** .NET's `string.IsNullOrEmpty`, with null as None. */
  predicate IsNullOrEmpty(s: Option<string>)
  {
    s.None? || s.value == ""
  }

  /** A body of the form `Welcome to Azure Functions, user <name>!`. */
  predicate IsWelcomeBody(body: string)
  {
    && |body| >= |WelcomePrefix| + |WelcomeSuffix|
    && body[..|WelcomePrefix|] == WelcomePrefix
    && body[|body| - |WelcomeSuffix|..] == WelcomeSuffix
  }

  /** The name a welcome body greets. */
  function UserOfWelcome(body: string): (name: string)
    requires IsWelcomeBody(body)
  {
    body[|WelcomePrefix|..|body| - |WelcomeSuffix|]
  }

  /** The greeting for `userId`; it names exactly that user. */
  function WelcomeBody(userId: string): (body: string)
    ensures IsWelcomeBody(body)
    ensures UserOfWelcome(body) == userId
  {
    var body := WelcomePrefix + userId + WelcomeSuffix;
    assert body[..|WelcomePrefix|] == WelcomePrefix;
    assert body[|body| - |WelcomeSuffix|..] == WelcomeSuffix;
    body
  }

  /** Every response the gate can produce: plain text, and one of the three
      status/body pairs `Run` produces. */
  predicate IsGateResponse(r: Response)
  {
    && HeaderValue(r.headers, ContentType) == Some(PlainText)
    && (|| (r.status == Unauthorized && r.body == UnauthorizedMessage)
        || (r.status == BadRequest && r.body == MissingUserIdMessage)
        || (r.status == OK && IsWelcomeBody(r.body) && UserOfWelcome(r.body) != ""))
  }

  /** `CreateUnauthorizedResponse`: status 401, plain text, fixed message. */
  function CreateUnauthorizedResponse(): (r: Response)
    ensures r.status == Unauthorized
    ensures HeaderValue(r.headers, ContentType) == Some(PlainText)
    ensures r.body == UnauthorizedMessage
  {
    WriteString(AddHeader(CreateResponse(Unauthorized), ContentType, PlainText), UnauthorizedMessage)
  }

  /** `CreateBadRequestResponse`: status 400, plain text, the given message. */
  function CreateBadRequestResponse(message: string): (r: Response)
    ensures r.status == BadRequest
    ensures HeaderValue(r.headers, ContentType) == Some(PlainText)
    ensures r.body == message
  {
    WriteString(AddHeader(CreateResponse(BadRequest), ContentType, PlainText), message)
  }

  /** The success response built inline in `Run`: status 200, plain text, a
      greeting that names the user. */
  function CreateWelcomeResponse(userId: string): (r: Response)
    ensures r.status == OK
    ensures HeaderValue(r.headers, ContentType) == Some(PlainText)
    ensures IsWelcomeBody(r.body) && UserOfWelcome(r.body) == userId
  {
    WriteString(AddHeader(CreateResponse(OK), ContentType, PlainText), WelcomeBody(userId))
  }

  /** `authHeaders.FirstOrDefault()?.Split(" ").Last()`: None when there is
      no header value; otherwise the final space-separated segment of the
      FIRST value. */
  function ExtractToken(values: seq<string>): (token: Option<string>)
    ensures token.None? <==> |values| == 0
    ensures token.Some? ==> IsFinalSegment(values[0], ' ', token.value)
  {
    if |values| == 0 then None
    else
      LastOfSplit(values[0], ' ');
      Some(Last(Split(values[0], ' ')))
  }

  /** `Run`: the whole gate, with the verifier passed in as an oracle. */
  function Handle(req: Request, verify: string -> Verdict): (out: Outcome)
    ensures out.Responded? ==> IsGateResponse(out.response)
    ensures out.Escaped? ==>
      && req.authorization.Some?
      && var token := ExtractToken(req.authorization.value);
      && !IsNullOrEmpty(token)
      && verify(token.value) == Raised(out.error)
  {
    match req.authorization
    case None => Responded(CreateUnauthorizedResponse())
    case Some(values) =>
      var token := ExtractToken(values);
      if IsNullOrEmpty(token) then Responded(CreateUnauthorizedResponse())
      else
        match verify(token.value)
        case Rejected(_) => Responded(CreateUnauthorizedResponse())
        case Raised(error) => Escaped(error)
        case Verified(_) =>
          if IsNullOrEmpty(req.userId) then Responded(CreateBadRequestResponse(MissingUserIdMessage))
          else Responded(CreateWelcomeResponse(req.userId.value))
  }
}
