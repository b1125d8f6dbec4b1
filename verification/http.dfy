/** The slice of the Azure Functions HTTP response object that the handler
    uses: a numeric status code, a list of headers and a body written as text. */
module Http {
  import opened Wrappers

  /** The `HttpStatusCode` values the handler answers with. */
  const OK: nat := 200
  const BadRequest: nat := 400
  const Unauthorized: nat := 401

  datatype Response = Response(status: nat, headers: seq<(string, string)>, body: string)

  /** `req.CreateResponse(status)`: a response with no headers and no body yet. */
  function CreateResponse(status: nat): (r: Response)
  {
    Response(status, [], "")
  }

  /** `response.Headers.Add(name, value)`: appends one header line. */
  function AddHeader(r: Response, name: string, value: string): (r': Response)
  {
    r.(headers := r.headers + [(name, value)])
  }

  /** `response.WriteString(text)`: appends text to the body. */
  function WriteString(r: Response, text: string): (r': Response)
  {
    r.(body := r.body + text)
  }

  /** The value of the first header line called `name`, if any. */
  function HeaderValue(headers: seq<(string, string)>, name: string): (value: Option<string>)
  {
    if |headers| == 0 then None
    else if headers[0].0 == name then Some(headers[0].1)
    else HeaderValue(headers[1..], name)
  }
}
