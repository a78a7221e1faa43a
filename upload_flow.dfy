/**
 * The `upload` operation: log in, read the one artifact named by
 * `fileiri`, upload its rows as the blacklist CSV, ask the firewall to
 * apply the bulk list with the upload description, and log out.
 *
 * Every failure is caught and returned as `{"success": False, "error": ...}`,
 * so the operation never raises; the model's result is `Ok(report)` or
 * `Err(error)`. The session is closed only on success.
 */
module UploadFlow {
  import opened Common
  import opened Auth
  import opened Artifacts

  /** The operation's parameters. A missing `uploaddescription` is "". */
  datatype Params = Params(fileIri: Option<string>, description: string, loginAttempt: Param)

  /**
   * What the firewall and the artifact store answer: the token and login
   * replies per attempt, the artifact contents, and the upload, bulk and
   * logout replies. `pretty` is the pretty-printing of a response text
   * (`format_response_text`), whose JSON re-encoding is not part of this model.
   */
  datatype Firewall = Firewall(
    tokenReply: nat -> Reply<TokenJson>,
    loginReply: nat -> Reply<Body>,
    fetch: string -> Fetch,
    upload: Reply<Body>,
    bulk: Reply<Body>,
    logout: Reply<Body>,
    pretty: Body -> Body)

  /** `{"response_code": ..., "response": ...}` of the logout; no code when the request raised. */
  datatype LogoutDetail = LogoutDetail(responseCode: Option<int>, response: Body)

  /** The dictionary returned on success. */
  datatype Report = Report(
    loginDetail: Option<Body>,
    uploadDetail: ResponseDetail,
    bulkDetail: ResponseDetail,
    logoutDetail: Option<LogoutDetail>)

  /** The result, the requests made in order, and the number of sleeps between login attempts. */
  datatype Run = Run(result: Result<Report>, calls: seq<Call>, sleeps: nat)

  /** The detail record built from an answered request. */
  function DetailOf(reply: Reply<Body>, pretty: Body -> Body): ResponseDetail
    requires reply.Response?
  {
    ResponseDetail(reply.status, pretty(reply.text), reply.json)
  }

  /**
   * `upload_file` and the check after it: the detail record, accepted
   * exactly on status 200; an exception of the request propagates.
   */
  function UploadStep(reply: Reply<Body>, pretty: Body -> Body): (r: Result<ResponseDetail>)
    ensures r.Ok? <==> Accepted(reply)
    ensures r.Ok? ==> r.value == DetailOf(reply, pretty) && r.value.responseCode == 200
    ensures reply.Response? && !Accepted(reply) ==> r == Err(UploadRejected(DetailOf(reply, pretty)))
    ensures reply.TransportError? ==> r == Err(RequestRaised(reply.cause))
  {
    match reply
    case TransportError(cause) => Err(RequestRaised(cause))
    case Response(status, text, json) =>
      var detail := ResponseDetail(status, pretty(text), json);
      if status == 200 then Ok(detail) else Err(UploadRejected(detail))
  }

  /** `bulk` and the `response_code != 200` check after it. */
  function BulkStep(reply: Reply<Body>, pretty: Body -> Body): (r: Result<ResponseDetail>)
    ensures r.Ok? <==> Accepted(reply)
    ensures r.Ok? ==> r.value == DetailOf(reply, pretty) && r.value.responseCode == 200
    ensures reply.Response? && !Accepted(reply) ==> r == Err(BulkRejected(DetailOf(reply, pretty)))
    ensures reply.TransportError? ==> r == Err(RequestRaised(reply.cause))
  {
    match reply
    case TransportError(cause) => Err(RequestRaised(cause))
    case Response(status, text, json) =>
      var detail := ResponseDetail(status, pretty(text), json);
      if status == 200 then Ok(detail) else Err(BulkRejected(detail))
  }

  /**
   * `logout`: never fails. A 200 reply gives its JSON (its text when not
   * JSON), another status its text, and a request exception its message
   * with no code.
   */
  function LogoutOf(reply: Reply<Body>): (d: LogoutDetail)
    ensures d.responseCode.None? <==> reply.TransportError?
    ensures reply.Response? ==> d.responseCode == Some(reply.status)
    ensures reply.Response? && !Accepted(reply) ==> d.response == reply.text
    ensures Accepted(reply) && reply.json.Some? ==> d.response == reply.json.value
    ensures Accepted(reply) && reply.json.None? ==> d.response == reply.text
    ensures reply.TransportError? ==> d.response == reply.cause
  {
    match reply
    case TransportError(cause) => LogoutDetail(None, cause)
    case Response(status, text, json) =>
      if status == 200 then LogoutDetail(Some(status), json.GetOr(text)) else LogoutDetail(Some(status), text)
  }

  /** After the login: read the artifact, upload it, apply the bulk list and log out. */
  function UploadAndApply(p: Params, fw: Firewall, session: Session): (Result<Report>, seq<Call>) {
    var (rows, F) := SingleFileRows(p.fileIri, fw.fetch);
    if rows.Err? then (Err(rows.error), F)
    else
      var U := F + [Upload(rows.value)];
      match UploadStep(fw.upload, fw.pretty)
      case Err(e) => (Err(e), U)
      case Ok(uploadDetail) =>
        var B := U + [Bulk(p.description)];
        match BulkStep(fw.bulk, fw.pretty)
        case Err(e) => (Err(e), B)
        case Ok(bulkDetail) =>
          if session.token != "" then
            (Ok(Report(session.loginJson, uploadDetail, bulkDetail, Some(LogoutOf(fw.logout)))), B + [Logout(session.token)])
          else
            (Ok(Report(session.loginJson, uploadDetail, bulkDetail, None)), B)
  }

  /** The whole operation. */
  function UploadSpec(p: Params, fw: Firewall): Run {
    var auth := AuthSpec(ParseMaxAttempt(p.loginAttempt), fw.tokenReply, fw.loginReply);
    match auth.result
    case Err(e) => Run(Err(e), auth.calls, auth.sleeps)
    case Ok(session) =>
      var (r, calls) := UploadAndApply(p, fw, session);
      Run(r, auth.calls + calls, auth.sleeps)
  }

  /** `upload` itself, step by step. */
  method UploadBlacklist(p: Params, fw: Firewall) returns (result: Result<Report>, calls: seq<Call>, sleeps: nat)
    ensures Run(result, calls, sleeps) == UploadSpec(p, fw)
  {
    var session;
    session, calls, sleeps := Authenticate(ParseMaxAttempt(p.loginAttempt), fw.tokenReply, fw.loginReply);
    if session.Err? {
      return Err(session.error), calls, sleeps;
    }
    var token := session.value.token;

    var (rows, fileCalls) := SingleFileRows(p.fileIri, fw.fetch);
    calls := calls + fileCalls;
    if rows.Err? {
      return Err(rows.error), calls, sleeps;
    }

    calls := calls + [Upload(rows.value)];
    var uploaded := UploadStep(fw.upload, fw.pretty);
    if uploaded.Err? {
      return Err(uploaded.error), calls, sleeps;
    }

    calls := calls + [Bulk(p.description)];
    var bulked := BulkStep(fw.bulk, fw.pretty);
    if bulked.Err? {
      return Err(bulked.error), calls, sleeps;
    }

    var logoutDetail := None;
    if token != "" {
      calls := calls + [Logout(token)];
      logoutDetail := Some(LogoutOf(fw.logout));
    }
    result := Ok(Report(session.value.loginJson, uploaded.value, bulked.value, logoutDetail));
  }

  /** A present, non-empty `fileiri`. */
  predicate HasFileIri(p: Params) {
    p.fileIri.Some? && p.fileIri.value != ""
  }

  /** The login succeeds within the budget. */
  predicate LogsIn(p: Params, fw: Firewall) {
    exists k :: 1 <= k <= ParseMaxAttempt(p.loginAttempt) && LoggedInAt(fw.tokenReply, fw.loginReply, k)
  }

  /** The session a successful login yields. */
  function SessionOf(p: Params, fw: Firewall): (s: Session)
    requires LogsIn(p, fw)
    ensures s.token != ""
  {
    SessionAfter(ParseMaxAttempt(p.loginAttempt), fw.tokenReply, fw.loginReply)
  }

  /** The rows of the named artifact. */
  function FileRowsOf(p: Params, fw: Firewall): seq<Row>
    requires HasFileIri(p) && fw.fetch(p.fileIri.value).Fetched?
  {
    fw.fetch(p.fileIri.value).rows
  }

  /**
   * Once logged in with the artifact read and the upload accepted, the
   * trace after the login is the download, the upload of exactly the
   * artifact's rows and the bulk apply with the upload description, and the
   * logout with the session's token on success.
   */
  lemma AfterLogin(p: Params, fw: Firewall)
    requires LogsIn(p, fw) && HasFileIri(p) && fw.fetch(p.fileIri.value).Fetched? && Accepted(fw.upload)
    ensures var run := UploadSpec(p, fw);
      var auth := AuthSpec(ParseMaxAttempt(p.loginAttempt), fw.tokenReply, fw.loginReply);
      var prefix := auth.calls + [Download(p.fileIri.value), Upload(FileRowsOf(p, fw)), Bulk(p.description)];
      && (run.result.Ok? <==> Accepted(fw.bulk))
      && (run.result.Ok? ==> run.calls == prefix + [Logout(SessionOf(p, fw).token)])
      && (run.result.Err? ==> run.calls == prefix)
  {
    var max := ParseMaxAttempt(p.loginAttempt);
    AuthSucceedsIff(max, fw.tokenReply, fw.loginReply);
    var session := SessionOf(p, fw);
    var F := [Download(p.fileIri.value)];
    assert SingleFileRows(p.fileIri, fw.fetch) == (Ok(FileRowsOf(p, fw)), F);
  }

  /**
   * The operation succeeds exactly when the login succeeds within the
   * budget, `fileiri` is given, the artifact can be read, and both the
   * upload and the bulk apply are answered with 200.
   */
  lemma SucceedsIff(p: Params, fw: Firewall)
    ensures UploadSpec(p, fw).result.Ok? <==>
      && LogsIn(p, fw)
      && HasFileIri(p) && fw.fetch(p.fileIri.value).Fetched?
      && Accepted(fw.upload) && Accepted(fw.bulk)
  {
    var max := ParseMaxAttempt(p.loginAttempt);
    AuthSucceedsIff(max, fw.tokenReply, fw.loginReply);
    if LogsIn(p, fw) && HasFileIri(p) && fw.fetch(p.fileIri.value).Fetched? && Accepted(fw.upload) {
      AfterLogin(p, fw);
    }
  }

  /**
   * The logout request is made exactly on success, as the last request,
   * with the session's token, and its detail is always reported: the
   * `else None` branch cannot be taken because a successful login always
   * holds a non-empty token.
   */
  lemma LogoutExactlyOnSuccess(p: Params, fw: Firewall)
    ensures var run := UploadSpec(p, fw);
      (exists t :: Logout(t) in run.calls) <==> run.result.Ok?
    ensures var run := UploadSpec(p, fw);
      run.result.Ok? ==>
        && LogsIn(p, fw)
        && run.calls[|run.calls| - 1] == Logout(SessionOf(p, fw).token)
        && run.result.value.logoutDetail == Some(LogoutOf(fw.logout))
  {
    var run := UploadSpec(p, fw);
    var max := ParseMaxAttempt(p.loginAttempt);
    var auth := AuthSpec(max, fw.tokenReply, fw.loginReply);
    AuthSucceedsIff(max, fw.tokenReply, fw.loginReply);
    AuthRequestsOnly(max, fw.tokenReply, fw.loginReply);
    if LogsIn(p, fw) && HasFileIri(p) && fw.fetch(p.fileIri.value).Fetched? && Accepted(fw.upload) {
      AfterLogin(p, fw);
      var session := SessionOf(p, fw);
      if run.result.Ok? {
        assert Logout(session.token) in run.calls;
      } else {
        assert forall c :: c in run.calls ==> !c.Logout?;
      }
    } else {
      SucceedsIff(p, fw);
      NoLogoutOnFailure(p, fw);
    }
  }

  /** Short of an accepted upload, no logout request is made. */
  lemma NoLogoutOnFailure(p: Params, fw: Firewall)
    requires !(LogsIn(p, fw) && HasFileIri(p) && fw.fetch(p.fileIri.value).Fetched? && Accepted(fw.upload))
    ensures forall c :: c in UploadSpec(p, fw).calls ==> !c.Logout? && !c.Bulk?
  {
    var max := ParseMaxAttempt(p.loginAttempt);
    var auth := AuthSpec(max, fw.tokenReply, fw.loginReply);
    AuthSucceedsIff(max, fw.tokenReply, fw.loginReply);
    AuthRequestsOnly(max, fw.tokenReply, fw.loginReply);
  }

  /**
   * The bulk list is applied only after the artifact's rows were uploaded
   * and accepted: a bulk request comes after the upload of exactly those
   * rows, with the upload description.
   */
  lemma BulkFollowsAcceptedUpload(p: Params, fw: Firewall)
    ensures forall d :: Bulk(d) in UploadSpec(p, fw).calls ==>
      && d == p.description
      && LogsIn(p, fw) && HasFileIri(p) && fw.fetch(p.fileIri.value).Fetched? && Accepted(fw.upload)
      && Upload(FileRowsOf(p, fw)) in UploadSpec(p, fw).calls
  {
    var calls := UploadSpec(p, fw).calls;
    if LogsIn(p, fw) && HasFileIri(p) && fw.fetch(p.fileIri.value).Fetched? && Accepted(fw.upload) {
      AfterLogin(p, fw);
      AuthRequestsOnly(ParseMaxAttempt(p.loginAttempt), fw.tokenReply, fw.loginReply);
    } else {
      NoLogoutOnFailure(p, fw);
    }
  }

  /**
   * The download and the upload are gated: the artifact is downloaded only
   * after a successful login and only when `fileiri` is given, and the
   * upload is sent only when that artifact was read, with exactly its rows.
   * A failed login therefore sends no download, and an artifact that cannot
   * be read is not uploaded, the operation failing with the read error.
   */
  lemma UploadIsGated(p: Params, fw: Firewall)
    ensures forall i :: Download(i) in UploadSpec(p, fw).calls ==>
      LogsIn(p, fw) && HasFileIri(p) && i == p.fileIri.value
    ensures forall r :: Upload(r) in UploadSpec(p, fw).calls ==>
      && LogsIn(p, fw) && HasFileIri(p) && fw.fetch(p.fileIri.value).Fetched?
      && r == FileRowsOf(p, fw)
    ensures LogsIn(p, fw) && HasFileIri(p) && fw.fetch(p.fileIri.value).FetchFailed? ==>
      UploadSpec(p, fw).result == Err(ArtifactUnreadable(None, fw.fetch(p.fileIri.value).cause))
  {
    var max := ParseMaxAttempt(p.loginAttempt);
    var auth := AuthSpec(max, fw.tokenReply, fw.loginReply);
    AuthSucceedsIff(max, fw.tokenReply, fw.loginReply);
    AuthRequestsOnly(max, fw.tokenReply, fw.loginReply);
    if auth.result.Ok? {
      AfterLoginGate(p, fw, auth.result.value);
    }
  }

  /** The stage after the login downloads and uploads only the named artifact and its rows. */
  lemma AfterLoginGate(p: Params, fw: Firewall, session: Session)
    ensures forall i :: Download(i) in UploadAndApply(p, fw, session).1 ==> HasFileIri(p) && i == p.fileIri.value
    ensures forall r :: Upload(r) in UploadAndApply(p, fw, session).1 ==>
      HasFileIri(p) && fw.fetch(p.fileIri.value).Fetched? && r == FileRowsOf(p, fw)
    ensures HasFileIri(p) && fw.fetch(p.fileIri.value).FetchFailed? ==>
      UploadAndApply(p, fw, session).0 == Err(ArtifactUnreadable(None, fw.fetch(p.fileIri.value).cause))
  {
  }

  /**
   * Without a `fileiri` nothing is downloaded or uploaded, and once logged
   * in the operation fails with the missing-file error.
   */
  lemma MissingFileIriFails(p: Params, fw: Firewall)
    requires !HasFileIri(p)
    ensures var run := UploadSpec(p, fw);
      && run.result.Err?
      && (forall c :: c in run.calls ==> !c.Download? && !c.Upload?)
      && (LogsIn(p, fw) ==> run.result.error == NoFileIri)
  {
    var max := ParseMaxAttempt(p.loginAttempt);
    AuthSucceedsIff(max, fw.tokenReply, fw.loginReply);
    AuthRequestsOnly(max, fw.tokenReply, fw.loginReply);
  }
}
