# Function1 request gate, modelled in Dafny

`Function1` is an HTTP-triggered Azure Function that guards a greeting
behind a Firebase identity token. For one request it:

1. looks up the `Authorization` header and answers 401 when it is missing;
2. takes the first header value, splits it on `' '` and keeps the last piece
   as the token, answering 401 when that token is null or empty;
3. asks Firebase to verify the token, answering 401 when verification throws
   `FirebaseAuthException`;
4. reads the `userId` query parameter, answering 400 `Missing userId parameter.`
   when it is missing or empty;
5. otherwise answers 200 `Welcome to Azure Functions, user <userId>!`.

Every response carries `Content-Type: text/plain; charset=utf-8`.

The model is a pure function `Function1.Handle(req, verify)`. The request
is reduced to what the gate reads: the result of the `Authorization` lookup
(`Option<seq<string>>`) and of the `userId` lookup (`Option<string>`). The
verifier is an oracle `string -> Verdict` returning `Verified(uid)`,
`Rejected(reason)` (a `FirebaseAuthException`) or `Raised(error)` (any other
exception). The gate does not catch the last kind, so `Handle` returns
`Escaped(error)` for it instead of a response.

Files:

- `wrappers.dfy`: `Option`.
- `strings.dfy`: .NET `Split` on one character, `Join`, and a reference
  description of "the final segment after the last separator". Proves that
  `Split` and `Join` are inverses and that the last piece of a split is the
  unique final segment.
- `http.dfy`: the response object. It has a numeric status, a header list
  and a text body, with `CreateResponse`, `AddHeader` (for `Headers.Add`) and `WriteString`.
- `function1.dfy`: the three response builders, token extraction and `Handle`.
- `properties.dfy`: token-extraction lemmas, the gate's ordering, the
  verifier-independence lemmas, and the full response table in both
  directions.

Three consequences of the code that are easy to miss:

- The header value is split on every space and the last piece is kept, so
  `Bearer a b` presents `b` (`GateProperties.SchemeIgnored`).
- Only the space character U+0020 separates. A tab-only value is a
  non-empty token and reaches the verifier (`GateProperties.TabIsNotBlank`).
- Only `FirebaseAuthException` is caught (Function1.cs:65). Any other
  verifier exception, cancellation included, leaves `Run` instead of
  becoming a 401 (`GateProperties.OtherExceptionsEscape`).

## Model

| member | source | states |
|---|---|---|
| `Strings.Split` | LeadsManagement/LeadsManagementApiFunction/Function1.cs:37 | `Split(" ")` always yields at least one piece, so `Last()` is defined, and no piece contains the separator |
| `Strings.SplitJoin` | LeadsManagement/LeadsManagementApiFunction/Function1.cs:37 | joining the pieces with the separator gives back the header value, so nothing is lost or invented by the split |
| `Strings.JoinSplit` | LeadsManagement/LeadsManagementApiFunction/Function1.cs:37 | splitting a join of separator-free pieces gives back those pieces, so split and join are inverses |
| `Strings.LastOfSplit` | LeadsManagement/LeadsManagementApiFunction/Function1.cs:37 | the last piece is a suffix of the value that holds no space and is either the whole value or preceded by a space |
| `Strings.FinalSegmentUnique` | LeadsManagement/LeadsManagementApiFunction/Function1.cs:37 | a value has exactly one such final segment |
| `Strings.FinalSegmentIsLastOfSplit` | LeadsManagement/LeadsManagementApiFunction/Function1.cs:37 | any final segment is the piece `Split(" ").Last()` returns |
| `Strings.Last` | LeadsManagement/LeadsManagementApiFunction/Function1.cs:37 | no contract; models LINQ `Last()`, the final element of the non-empty piece list |
| `Function1.IsNullOrEmpty` | LeadsManagement/LeadsManagementApiFunction/Function1.cs:39-42 | no contract; models `string.IsNullOrEmpty`, the test that decides both the token check (line 39) and the `userId` check (line 54) |
| `Http.CreateResponse` | LeadsManagement/LeadsManagementApiFunction/Function1.cs:59 | no contract; models `req.CreateResponse(status)` (also lines 74 and 82): the status with no headers and an empty body |
| `Http.AddHeader` | LeadsManagement/LeadsManagementApiFunction/Function1.cs:60 | no contract; models `response.Headers.Add` (also lines 75 and 83): appends one header line |
| `Http.WriteString` | LeadsManagement/LeadsManagementApiFunction/Function1.cs:61 | no contract; models `response.WriteString` (also lines 76 and 84): appends text to the body |
| `Function1.ExtractToken` | LeadsManagement/LeadsManagementApiFunction/Function1.cs:37 | the token is null exactly when the header has no value; otherwise it is the final space-separated segment of the first value |
| `Function1.WelcomeBody` | LeadsManagement/LeadsManagementApiFunction/Function1.cs:61 | the greeting has the welcome prefix and `!` suffix, and the name read back from it is exactly the `userId` |
| `Function1.CreateUnauthorizedResponse` | LeadsManagement/LeadsManagementApiFunction/Function1.cs:72-78 | status 401, `Content-Type` reads `text/plain; charset=utf-8`, body `Unauthorized request.` |
| `Function1.CreateBadRequestResponse` | LeadsManagement/LeadsManagementApiFunction/Function1.cs:80-86 | status 400, plain-text `Content-Type`, body is the given message |
| `Function1.CreateWelcomeResponse` | LeadsManagement/LeadsManagementApiFunction/Function1.cs:59-63 | status 200, plain-text `Content-Type`, body a greeting that names the user |
| `Function1.Handle` | LeadsManagement/LeadsManagementApiFunction/Function1.cs:27-70 | every response is one of the three status/body pairs `Run` produces with plain-text `Content-Type`; an escaping exception is exactly the verifier's non-Firebase exception on the extracted token |
| `GateProperties.WholeValueWithoutSpace` | LeadsManagement/LeadsManagementApiFunction/Function1.cs:37 | a first value without a space is the token itself |
| `GateProperties.SchemeIgnored` | LeadsManagement/LeadsManagementApiFunction/Function1.cs:37 | whatever precedes the last space is dropped unchecked: `scheme + " " + t` yields `t` |
| `GateProperties.BearerBasicBare` | LeadsManagement/LeadsManagementApiFunction/Function1.cs:37 | `Bearer x`, `Basic x` and `x` all yield the token `x` |
| `GateProperties.EmptyTokenIff` | LeadsManagement/LeadsManagementApiFunction/Function1.cs:37-42 | the token is null or empty if and only if there is no value, or the first value is empty or ends in a space |
| `GateProperties.AllSpacesGiveEmptyToken` | LeadsManagement/LeadsManagementApiFunction/Function1.cs:37-42 | a value made only of spaces yields the empty token |
| `GateProperties.TabIsNotBlank` | LeadsManagement/LeadsManagementApiFunction/Function1.cs:37-42 | only the space separates: a tab-only value is a non-empty token |
| `GateProperties.PresentedTokenIsExtracted` | LeadsManagement/LeadsManagementApiFunction/Function1.cs:37 | the token described by the final-segment reference is the one the code extracts |
| `GateProperties.UsableTokenPresented` | LeadsManagement/LeadsManagementApiFunction/Function1.cs:32-42 | a request either fails the header checks or presents a non-empty token, never both |
| `GateProperties.MissingHeaderUnauthorized` | LeadsManagement/LeadsManagementApiFunction/Function1.cs:32-35 | no `Authorization` header gives 401 `Unauthorized request.` |
| `GateProperties.NoTokenUnauthorized` | LeadsManagement/LeadsManagementApiFunction/Function1.cs:32-42 | without a usable token the answer is 401 and does not depend on the verifier at all |
| `GateProperties.VerifierAskedOnlyAboutToken` | LeadsManagement/LeadsManagementApiFunction/Function1.cs:37-47 | two verifiers that agree on the presented token give the same outcome |
| `GateProperties.SchemeNotValidated` | LeadsManagement/LeadsManagementApiFunction/Function1.cs:37-47 | a request with `scheme + " " + t` is handled exactly like one with the bare `t` |
| `GateProperties.RejectedTokenUnauthorized` | LeadsManagement/LeadsManagementApiFunction/Function1.cs:44-69 | a rejected token gives 401 whatever `userId` is |
| `GateProperties.RejectionBeforeMissingUserId` | LeadsManagement/LeadsManagementApiFunction/Function1.cs:44-69 | a rejected token with a missing `userId` gives 401, never 400 |
| `GateProperties.MissingUserIdBadRequest` | LeadsManagement/LeadsManagementApiFunction/Function1.cs:51-57 | a verified token with a missing or empty `userId` gives 400 `Missing userId parameter.` as plain text |
| `GateProperties.WelcomesUser` | LeadsManagement/LeadsManagementApiFunction/Function1.cs:59-63 | a verified token with a non-empty `userId` gives 200 with body exactly `Welcome to Azure Functions, user <userId>!` as plain text |
| `GateProperties.UidIrrelevant` | LeadsManagement/LeadsManagementApiFunction/Function1.cs:47-63 | the uid the verifier returns does not change the outcome |
| `GateProperties.OtherExceptionsEscape` | LeadsManagement/LeadsManagementApiFunction/Function1.cs:44-69 | a verifier exception other than `FirebaseAuthException` leaves the gate unchanged and is not turned into 401 |
| `GateProperties.TokenCases` | LeadsManagement/LeadsManagementApiFunction/Function1.cs:32-42 | every request either has no usable token and gets 401, or presents exactly one token, the one extracted at line 37 |
| `GateProperties.UnauthorizedIff` | LeadsManagement/LeadsManagementApiFunction/Function1.cs:27-70 | 401 if and only if there is no usable token or the verifier rejects the presented one |
| `GateProperties.BadRequestIff` | LeadsManagement/LeadsManagementApiFunction/Function1.cs:27-70 | 400 if and only if the presented token is verified and `userId` is missing or empty |
| `GateProperties.OkIff` | LeadsManagement/LeadsManagementApiFunction/Function1.cs:27-70 | 200 if and only if the presented token is verified and `userId` is non-empty |
| `GateProperties.ResponsesArePlainText` | LeadsManagement/LeadsManagementApiFunction/Function1.cs:59-86 | every response has status 200, 400 or 401 and `Content-Type: text/plain; charset=utf-8` |

## Left out

- Firebase SDK initialisation from a credential file, in the `Function1` constructor, which runs before `Run`. Its failures are not modelled: a missing credential file, or a repeated `FirebaseApp.Create` when a default app already exists (the constructor would then throw before `Run` is reached, on a host that builds a new `Function1` per invocation). `Handle` describes `Run` once the object exists.
- The real `VerifyIdTokenAsync`. It is an oracle parameter, so the model says nothing about which tokens are valid.
- The header collection and its case-insensitive `TryGetValues`. The model takes the lookup result; a lookup that fails and one that yields null are both `None`.
- `HttpUtility.ParseQueryString` and the `userId` lookup, which are library calls. The model takes the looked-up value as `Option<string>`; how repeated or percent-encoded parameters are decoded is not modelled.
- Logging. It has no effect on the outcome.
- `async`/`await` and the Azure Functions host types. They are replaced by plain datatypes. Determinism and "no state between requests" hold by construction of a pure function.
- Exceptions thrown by anything other than the verifier, for example by the response object or the query parser. Only verifier exceptions are modelled.
- `AddressesApi.cs`. It always answers 200 `Welcome to Azure Functions!` and has no decision logic.
