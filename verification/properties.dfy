/** Properties of the `Function1` gate: how the token is taken from the
    `Authorization` header, when the verifier is consulted, the order of the
    checks and the complete response table. */
module GateProperties {
  import opened Wrappers
  import opened Strings
  import opened Http
  import opened Function1

  /** The header gives no token the verifier could be asked about: it is
      missing, has no value, or its first value is empty or ends in a space. */
  predicate NoUsableToken(req: Request)
  {
    || req.authorization.None?
    || |req.authorization.value| == 0
    || req.authorization.value[0] == ""
    || req.authorization.value[0][|req.authorization.value[0]| - 1] == ' '
  }

  /** `t` is the non-empty token the request presents: the final
      space-separated segment of the first `Authorization` value. */
  ghost predicate Presents(req: Request, t: string)
  {
    && req.authorization.Some?
    && |req.authorization.value| > 0
    && IsFinalSegment(req.authorization.value[0], ' ', t)
    && t != ""
  }

  /** The outcome is a response with the given status code. */
  predicate Answers(out: Outcome, status: nat)
  {
    out.Responded? && out.response.status == status
  }

  // ---------------------------------------------------------------------
  // Token extraction

  /** A header value without a space is the token itself. */
  lemma WholeValueWithoutSpace(v: string, rest: seq<string>)
    requires ' ' !in v
    ensures ExtractToken([v] + rest) == Some(v)
  {
    assert v[|v| - |v|..] == v;
    FinalSegmentIsLastOfSplit(v, ' ', v);
  }

  /** Whatever stands before the last space (`Bearer`, `Basic`, anything) is
      dropped without being checked. */
  lemma SchemeIgnored(scheme: string, t: string, rest: seq<string>)
    requires ' ' !in t
    ensures ExtractToken([scheme + " " + t] + rest) == Some(t)
  {
    var v := scheme + " " + t;
    assert v[|v| - |t|..] == t;
    assert v[|v| - |t| - 1] == ' ';
    FinalSegmentIsLastOfSplit(v, ' ', t);
  }

  /** `Bearer x`, `Basic x` and `x` all yield the token `x`. */
  lemma BearerBasicBare()
    ensures ExtractToken(["Bearer x"]) == Some("x")
    ensures ExtractToken(["Basic x"]) == Some("x")
    ensures ExtractToken(["x"]) == Some("x")
  {
    SchemeIgnored("Bearer", "x", []);
    SchemeIgnored("Basic", "x", []);
    WholeValueWithoutSpace("x", []);
  }

  /** The token is null or empty exactly when there is no header value, or
      the first value is empty or ends in a space. */
  lemma EmptyTokenIff(values: seq<string>)
    ensures IsNullOrEmpty(ExtractToken(values))
        <==> (|values| == 0 || values[0] == "" || values[0][|values[0]| - 1] == ' ')
  {
    if |values| > 0 {
      var v := values[0];
      var t := ExtractToken(values).value;
      if t != "" && |v| > 0 {
        assert t[|t| - 1] == v[|v| - 1];
      }
    }
  }

  /** A value made only of spaces yields the empty token. */
  lemma AllSpacesGiveEmptyToken(v: string, rest: seq<string>)
    requires forall i :: 0 <= i < |v| ==> v[i] == ' '
    ensures ExtractToken([v] + rest) == Some("")
  {
    EmptyTokenIff([v] + rest);
  }

  /** Only the space counts as a separator: a tab-only value is a non-empty
      token and is handed to the verifier. */
  lemma TabIsNotBlank()
    ensures ExtractToken(["\t"]) == Some("\t")
  {
    WholeValueWithoutSpace("\t", []);
  }

  /** A usable header presents exactly the token `ExtractToken` finds. */
  lemma PresentedTokenIsExtracted(req: Request, t: string)
    requires Presents(req, t)
    ensures ExtractToken(req.authorization.value) == Some(t)
  {
    var v := req.authorization.value[0];
    FinalSegmentIsLastOfSplit(v, ' ', t);
  }

  /** A request either has no usable token or presents one. */
  lemma UsableTokenPresented(req: Request)
    ensures !NoUsableToken(req) ==> Presents(req, ExtractToken(req.authorization.value).value)
    ensures NoUsableToken(req) ==> forall t :: !Presents(req, t)
  {
    if req.authorization.Some? {
      EmptyTokenIff(req.authorization.value);
    }
    forall t | Presents(req, t)
      ensures !NoUsableToken(req)
    {
      PresentedTokenIsExtracted(req, t);
      EmptyTokenIff(req.authorization.value);
    }
  }

  // ---------------------------------------------------------------------
  // The gate

  /** No `Authorization` header: 401, whatever the verifier would say. */
  lemma MissingHeaderUnauthorized(req: Request, verify: string -> Verdict)
    requires req.authorization.None?
    ensures Handle(req, verify) == Responded(CreateUnauthorizedResponse())
    ensures Handle(req, verify).response.body == "Unauthorized request."
  {
  }

  /** No usable token: 401, and the verifier is never consulted (any two
      verifiers give the same outcome). */
  lemma NoTokenUnauthorized(req: Request, v1: string -> Verdict, v2: string -> Verdict)
    requires NoUsableToken(req)
    ensures Handle(req, v1) == Responded(CreateUnauthorizedResponse())
    ensures Handle(req, v1) == Handle(req, v2)
  {
    if req.authorization.Some? {
      EmptyTokenIff(req.authorization.value);
    }
  }

  /** The verifier is asked about the presented token and nothing else: two
      verifiers that agree on it give the same outcome. */
  lemma VerifierAskedOnlyAboutToken(req: Request, t: string, v1: string -> Verdict, v2: string -> Verdict)
    requires Presents(req, t)
    requires v1(t) == v2(t)
    ensures Handle(req, v1) == Handle(req, v2)
  {
    PresentedTokenIsExtracted(req, t);
  }

  /** A scheme keyword in front of the token changes nothing: the request is
      handled as if the header held the bare token. */
  lemma SchemeNotValidated(scheme: string, t: string, rest: seq<string>, userId: Option<string>,
                           verify: string -> Verdict)
    requires ' ' !in t
    ensures Handle(Request(Some([scheme + " " + t] + rest), userId), verify)
         == Handle(Request(Some([t]), userId), verify)
  {
    SchemeIgnored(scheme, t, rest);
    WholeValueWithoutSpace(t, []);
  }

  /** A rejected token gives 401 whatever `userId` is. */
  lemma RejectedTokenUnauthorized(req: Request, t: string, verify: string -> Verdict)
    requires Presents(req, t)
    requires verify(t).Rejected?
    ensures Handle(req, verify) == Responded(CreateUnauthorizedResponse())
  {
    PresentedTokenIsExtracted(req, t);
  }

  /** Verification comes before the parameter check: a rejected token with a
      missing `userId` gives 401, never 400. */
  lemma RejectionBeforeMissingUserId(req: Request, t: string, verify: string -> Verdict)
    requires Presents(req, t)
    requires verify(t).Rejected?
    requires IsNullOrEmpty(req.userId)
    ensures Answers(Handle(req, verify), Unauthorized)
    ensures !Answers(Handle(req, verify), BadRequest)
  {
    RejectedTokenUnauthorized(req, t, verify);
  }

  /** A verified token without `userId`: 400 with the fixed message. */
  lemma MissingUserIdBadRequest(req: Request, t: string, verify: string -> Verdict)
    requires Presents(req, t)
    requires verify(t).Verified?
    requires IsNullOrEmpty(req.userId)
    ensures Answers(Handle(req, verify), BadRequest)
    ensures Handle(req, verify).response.body == "Missing userId parameter."
    ensures HeaderValue(Handle(req, verify).response.headers, "Content-Type") == Some("text/plain; charset=utf-8")
  {
    PresentedTokenIsExtracted(req, t);
  }

  /** A verified token with a non-empty `userId`: 200 greeting that user. */
  lemma WelcomesUser(req: Request, t: string, verify: string -> Verdict)
    requires Presents(req, t)
    requires verify(t).Verified?
    requires req.userId.Some? && req.userId.value != ""
    ensures Answers(Handle(req, verify), OK)
    ensures Handle(req, verify).response.body
         == "Welcome to Azure Functions, user " + req.userId.value + "!"
    ensures HeaderValue(Handle(req, verify).response.headers, "Content-Type") == Some("text/plain; charset=utf-8")
  {
    PresentedTokenIsExtracted(req, t);
  }

  /** The uid the verifier returns does not affect the response. */
  lemma UidIrrelevant(req: Request, t: string, v1: string -> Verdict, v2: string -> Verdict)
    requires Presents(req, t)
    requires v1(t).Verified? && v2(t).Verified?
    ensures Handle(req, v1) == Handle(req, v2)
  {
    PresentedTokenIsExtracted(req, t);
  }

  /** Exceptions other than a rejection are not caught: they leave the gate
      unchanged instead of becoming a 401. */
  lemma OtherExceptionsEscape(req: Request, t: string, verify: string -> Verdict)
    requires Presents(req, t)
    requires verify(t).Raised?
    ensures Handle(req, verify) == Escaped(verify(t).error)
  {
    PresentedTokenIsExtracted(req, t);
  }

  // ---------------------------------------------------------------------
  // The response table, in both directions

  /** The two cases every request falls into: no usable token, and the gate
      answers 401; or exactly one presented token, the one `ExtractToken`
      finds. */
  lemma TokenCases(req: Request, verify: string -> Verdict)
    ensures NoUsableToken(req) ==>
      && Handle(req, verify) == Responded(CreateUnauthorizedResponse())
      && forall t :: !Presents(req, t)
    ensures !NoUsableToken(req) ==>
      && Presents(req, ExtractToken(req.authorization.value).value)
      && forall t :: Presents(req, t) ==> t == ExtractToken(req.authorization.value).value
  {
    UsableTokenPresented(req);
    if !NoUsableToken(req) {
      var t := ExtractToken(req.authorization.value).value;
      forall t' | Presents(req, t') ensures t' == t {
        PresentedTokenIsExtracted(req, t');
      }
    } else {
      NoTokenUnauthorized(req, verify, verify);
    }
  }

  /** 401 exactly when there is no usable token or the verifier rejects it. */
  lemma UnauthorizedIff(req: Request, verify: string -> Verdict)
    ensures Answers(Handle(req, verify), Unauthorized)
        <==> (NoUsableToken(req) || exists t :: Presents(req, t) && verify(t).Rejected?)
  {
    TokenCases(req, verify);
  }

  /** 400 exactly when a presented token is verified and `userId` is missing
      or empty. */
  lemma BadRequestIff(req: Request, verify: string -> Verdict)
    ensures Answers(Handle(req, verify), BadRequest)
        <==> (IsNullOrEmpty(req.userId) && exists t :: Presents(req, t) && verify(t).Verified?)
  {
    TokenCases(req, verify);
  }

  /** 200 exactly when a presented token is verified and `userId` is
      non-empty. */
  lemma OkIff(req: Request, verify: string -> Verdict)
    ensures Answers(Handle(req, verify), OK)
        <==> (!IsNullOrEmpty(req.userId) && exists t :: Presents(req, t) && verify(t).Verified?)
  {
    TokenCases(req, verify);
  }

  /** Every response is 200, 400 or 401 and is plain text. */
  lemma ResponsesArePlainText(req: Request, verify: string -> Verdict)
    ensures Handle(req, verify).Responded? ==>
      && Handle(req, verify).response.status in {200, 400, 401}
      && HeaderValue(Handle(req, verify).response.headers, "Content-Type") == Some("text/plain; charset=utf-8")
  {
  }
}
