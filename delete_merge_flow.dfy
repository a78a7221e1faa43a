/**
 * The `delete_merge` operation: replace this month's blacklist entries with
 * a merged upload. After the two parameter checks it logs in, merges the
 * rows of every artifact file, uploads them, searches the firewall's
 * blacklist entries, keeps those whose file name dates fall between the
 * first of the end date's month and the end date and whose description
 * contains the delete text, deletes them (highest index first) and finally
 * asks the firewall to apply the bulk list.
 *
 * Every failure inside the main block is caught and returned as
 * `{"success": False, "error": ...}`; only the two parameter checks raise
 * to the caller. The model keeps that distinction as `Raised` / `Returned`.
 */
module DeleteMergeFlow {
  import opened Common
  import opened Strings
  import opened Auth
  import opened DateFilter
  import opened Deletion
  import opened Artifacts

  /** The operation's parameters. A missing `deletedescription` / `mergedescription` is "". */
  datatype Params = Params(
    endDate: Option<string>,
    fileIris: seq<string>,
    deleteDescription: string,
    mergeDescription: string,
    loginAttempt: Param)

  /** The decoded search response: an object (whose `result` may be absent) or any other JSON value. */
  datatype SearchJson = SearchObject(result: Option<seq<Entry>>) | NotAnObject(value: Body)

  /** `response_json` of the search: the decoded JSON, or the body text when decoding failed. */
  datatype SearchBody = Parsed(json: SearchJson) | Raw(text: Body)

  /**
   * What the firewall and the artifact store answer: the token and login
   * replies per attempt, the artifact contents, the upload, search and bulk
   * replies, and the reply to the k-th DELETE request (from 0).
   */
  datatype Firewall = Firewall(
    tokenReply: nat -> Reply<TokenJson>,
    loginReply: nat -> Reply<Body>,
    fetch: string -> Fetch,
    upload: Reply<Body>,
    search: Reply<SearchJson>,
    delete: nat -> Reply<Body>,
    bulk: Reply<Body>)

  /** The dictionary returned on success. */
  datatype Report = Report(
    loginDetail: Option<Body>,
    responseJson: SearchBody,
    description: string,
    deleteResults: seq<DeleteRecord>,
    uploadResponse: Body,
    bulkResponse: Body)

  /** An exception that leaves the operation, or the dictionary it returns (`Ok` for success). */
  datatype Outcome = Raised(error: Error) | Returned(result: Result<Report>)

  /** The outcome, the requests made in order, and the number of sleeps between login attempts. */
  datatype Run = Run(outcome: Outcome, calls: seq<Call>, sleeps: nat)

  /**
   * `upload_file` and the check after it: a 200 reply gives its JSON, or
   * its text when that is not JSON; any other status is an upload failure.
   */
  function UploadOutcome(reply: Reply<Body>): (r: Result<Body>)
    ensures r.Ok? <==> Accepted(reply)
    ensures reply.Response? && reply.status != 200 ==> r == Err(UploadFailed(reply.text))
    ensures reply.TransportError? ==> r == Err(RequestRaised(reply.cause))
  {
    match reply
    case TransportError(cause) => Err(RequestRaised(cause))
    case Response(status, text, json) => if status == 200 then Ok(json.GetOr(text)) else Err(UploadFailed(text))
  }

  /** `call_bulk` and the check after it, with the same shape as the upload. */
  function BulkOutcome(reply: Reply<Body>): (r: Result<Body>)
    ensures r.Ok? <==> Accepted(reply)
    ensures reply.Response? && reply.status != 200 ==> r == Err(BulkFailed(reply.text))
    ensures reply.TransportError? ==> r == Err(RequestRaised(reply.cause))
  {
    match reply
    case TransportError(cause) => Err(RequestRaised(cause))
    case Response(status, text, json) => if status == 200 then Ok(json.GetOr(text)) else Err(BulkFailed(text))
  }

  /** `response_json` of an answered search. */
  function SearchBodyOf(reply: Reply<SearchJson>): (body: SearchBody)
    requires reply.Response?
    ensures body.Parsed? <==> reply.json.Some?
    ensures body.Parsed? ==> body.json == reply.json.value
    ensures body.Raw? ==> body.text == reply.text
  {
    match reply.json
    case Some(j) => Parsed(j)
    case None => Raw(reply.text)
  }

  /**
   * `raw_results`: the `result` list of an object response, and no entries
   * for a missing `result`, a non-object or a non-JSON body, whatever the
   * status code.
   */
  function RawResults(body: SearchBody): (entries: seq<Entry>)
    ensures entries != [] ==> body.Parsed? && body.json.SearchObject? && body.json.result == Some(entries)
    ensures body.Parsed? && body.json.SearchObject? && body.json.result.Some? ==> entries == body.json.result.value
  {
    match body
    case Parsed(SearchObject(Some(entries))) => entries
    case _ => []
  }

  /** The entries the search brought back. */
  function SearchResults(fw: Firewall): seq<Entry>
    requires fw.search.Response?
  {
    RawResults(SearchBodyOf(fw.search))
  }

  /** `[item["index"] for item in filtered_items]`. */
  function IndicesOf(entries: seq<Entry>): seq<int> {
    seq(|entries|, i requires 0 <= i < |entries| => entries[i].index)
  }

  /** The order in which the matching entries are deleted. */
  function DeleteOrder(results: seq<Entry>, end: string, deleteDescription: string): seq<int>
    requires |end| >= 6
  {
    NormalizeIndices(IndicesOf(Filtered(results, WindowStart(end), end, deleteDescription)))
  }

  /**
   * The main block, once both parameters are present: everything it does up
   * to its return or its first exception. It logs in, then goes on with
   * the merge.
   */
  function MainBlock(p: Params, endDate: string, fw: Firewall): Run {
    var auth := AuthSpec(ParseMaxAttempt(p.loginAttempt), fw.tokenReply, fw.loginReply);
    match auth.result
    case Err(e) => Run(Returned(Err(e)), auth.calls, auth.sleeps)
    case Ok(session) =>
      var (r, calls) := MergeAndReplace(p, endDate, fw, session.loginJson);
      Run(Returned(r), auth.calls + calls, auth.sleeps)
  }

  /** After the login: merge the artifacts, upload the rows, then replace the old entries. */
  function MergeAndReplace(p: Params, endDate: string, fw: Firewall, loginDetail: Option<Body>): (Result<Report>, seq<Call>) {
    var (merged, M) := MergeRun(p.fileIris, fw.fetch);
    if merged.Err? then (Err(merged.error), M)
    else if merged.value == [] then (Err(NoMergedData), M)
    else
      var U := M + [Upload(merged.value)];
      match UploadOutcome(fw.upload)
      case Err(e) => (Err(e), U)
      case Ok(uploadResponse) =>
        var (r, calls) := SearchDeleteApply(p, endDate, fw, loginDetail, uploadResponse);
        (r, U + calls)
  }

  /** After an accepted upload: search, filter, delete the selected entries and apply the bulk list. */
  function SearchDeleteApply(p: Params, endDate: string, fw: Firewall, loginDetail: Option<Body>, uploadResponse: Body)
    : (Result<Report>, seq<Call>)
  {
    if fw.search.TransportError? then (Err(RequestRaised(fw.search.cause)), [Search])
    else
      var body := SearchBodyOf(fw.search);
      match FilterSpec(RawResults(body), endDate, p.deleteDescription)
      case Err(e) => (Err(e), [Search])
      case Ok(filtered) =>
        var (deleted, D) := DeleteRun(NormalizeIndices(IndicesOf(filtered)), fw.delete);
        if deleted.Err? then (Err(deleted.error), [Search] + D)
        else
          var B := [Search] + D + [Bulk(p.mergeDescription)];
          match BulkOutcome(fw.bulk)
          case Err(e) => (Err(e), B)
          case Ok(bulkResponse) =>
            (Ok(Report(loginDetail, body, p.deleteDescription, deleted.value, uploadResponse, bulkResponse)), B)
  }

  /** The end date both parameter checks let through. */
  predicate ParamsPresent(p: Params) {
    p.endDate.Some? && p.endDate.value != "" && p.fileIris != []
  }

  /**
   * The whole operation. It raises exactly when `enddate` is missing or
   * empty (checked first) or `fileiris` is empty, and then before any
   * request; otherwise it always returns.
   */
  function DeleteMergeSpec(p: Params, fw: Firewall): (r: Run)
    ensures r.outcome.Raised? <==> !ParamsPresent(p)
    ensures r.outcome == Raised(MissingEndDate) <==> p.endDate.None? || p.endDate.value == ""
    ensures r.outcome == Raised(MissingFileIris) <==> p.endDate.Some? && p.endDate.value != "" && p.fileIris == []
    ensures r.outcome.Raised? ==> r.calls == [] && r.sleeps == 0
  {
    if p.endDate.None? || p.endDate.value == "" then Run(Raised(MissingEndDate), [], 0)
    else if p.fileIris == [] then Run(Raised(MissingFileIris), [], 0)
    else MainBlock(p, p.endDate.value, fw)
  }

  /** `delete_merge` itself: the parameter checks, the login, then the rest of the main block. */
  method DeleteMerge(p: Params, fw: Firewall) returns (outcome: Outcome, calls: seq<Call>, sleeps: nat)
    ensures Run(outcome, calls, sleeps) == DeleteMergeSpec(p, fw)
  {
    if p.endDate.None? || p.endDate.value == "" {
      return Raised(MissingEndDate), [], 0;
    }
    if p.fileIris == [] {
      return Raised(MissingFileIris), [], 0;
    }
    var session;
    session, calls, sleeps := Authenticate(ParseMaxAttempt(p.loginAttempt), fw.tokenReply, fw.loginReply);
    if session.Err? {
      return Returned(Err(session.error)), calls, sleeps;
    }
    var r, moreCalls := MergeUploadReplace(p, p.endDate.value, fw, session.value.loginJson);
    outcome, calls := Returned(r), calls + moreCalls;
  }

  /** The merge and the upload (`download_and_merge`, `upload_file`), then the replacement. */
  method MergeUploadReplace(p: Params, endDate: string, fw: Firewall, loginDetail: Option<Body>)
    returns (r: Result<Report>, calls: seq<Call>)
    ensures (r, calls) == MergeAndReplace(p, endDate, fw, loginDetail)
  {
    var merged;
    merged, calls := DownloadAndMerge(p.fileIris, fw.fetch);
    if merged.Err? {
      return Err(merged.error), calls;
    }
    if merged.value == [] {
      return Err(NoMergedData), calls;
    }
    calls := calls + [Upload(merged.value)];
    var uploaded := UploadOutcome(fw.upload);
    if uploaded.Err? {
      return Err(uploaded.error), calls;
    }
    var moreCalls;
    r, moreCalls := SearchFilterDelete(p, endDate, fw, loginDetail, uploaded.value);
    calls := calls + moreCalls;
  }

  /** `search_indices`, `filter_by_date_and_description`, `delete_indices` and `call_bulk`, and the report. */
  method SearchFilterDelete(p: Params, endDate: string, fw: Firewall, loginDetail: Option<Body>, uploadResponse: Body)
    returns (r: Result<Report>, calls: seq<Call>)
    ensures (r, calls) == SearchDeleteApply(p, endDate, fw, loginDetail, uploadResponse)
  {
    calls := [Search];
    if fw.search.TransportError? {
      return Err(RequestRaised(fw.search.cause)), calls;
    }
    var responseJson := SearchBodyOf(fw.search);
    var filtered := FilterByDateAndDescription(RawResults(responseJson), endDate, p.deleteDescription);
    if filtered.Err? {
      return Err(filtered.error), calls;
    }
    var deleted, deleteCalls := DeleteIndices(IndicesOf(filtered.value), fw.delete);
    calls := calls + deleteCalls;
    if deleted.Err? {
      return Err(deleted.error), calls;
    }
    calls := calls + [Bulk(p.mergeDescription)];
    var bulked := BulkOutcome(fw.bulk);
    if bulked.Err? {
      return Err(bulked.error), calls;
    }
    r := Ok(Report(loginDetail, responseJson, p.deleteDescription, deleted.value, uploadResponse, bulked.value));
  }

  /** Requests that change the firewall's blacklist: a DELETE or the bulk apply. */
  predicate Destructive(c: Call) {
    c.Delete? || c.Bulk?
  }

  predicate AllFetched(iris: seq<string>, fetch: string -> Fetch) {
    forall k :: 0 <= k < |iris| ==> fetch(iris[k]).Fetched?
  }

  /** The rows of all artifact files, in input order. */
  function MergedRows(p: Params, fw: Firewall): seq<Row>
    requires AllFetched(p.fileIris, fw.fetch)
  {
    Concat(RowsOfEach(p.fileIris, fw.fetch))
  }

  /**
   * Everything that must go right for the operation to reach its deletion
   * step: both parameters, a login within the budget, every artifact, a
   * non-empty merge, an accepted upload, an answered search and a usable end
   * date.
   */
  predicate ReachesDeletion(p: Params, fw: Firewall) {
    && ParamsPresent(p)
    && (exists k :: 1 <= k <= ParseMaxAttempt(p.loginAttempt) && LoggedInAt(fw.tokenReply, fw.loginReply, k))
    && AllFetched(p.fileIris, fw.fetch) && MergedRows(p, fw) != []
    && Accepted(fw.upload)
    && fw.search.Response?
    && NormalizeEndDate(p.endDate.value).Ok?
  }

  /** The normalised end date, once the deletion step is reached. */
  function EndOf(p: Params, fw: Firewall): (end: string)
    requires ReachesDeletion(p, fw)
    ensures |end| == 8 && AllDigits(end)
  {
    NormalizeEndDate(p.endDate.value).value
  }

  /** A search entry the filter selects for deletion. */
  predicate Selected(p: Params, fw: Firewall, e: Entry)
    requires ReachesDeletion(p, fw)
  {
    var end := EndOf(p, fw);
    Keep(e, WindowStart(end), end, p.deleteDescription)
  }

  /** The order of the DELETE requests, once the deletion step is reached. */
  function OrderOf(p: Params, fw: Firewall): seq<int>
    requires ReachesDeletion(p, fw)
  {
    DeleteOrder(SearchResults(fw), EndOf(p, fw), p.deleteDescription)
  }

  /** The requests after the search: the DELETEs in `order`, then the bulk apply if none raised. */
  function TailAfterSearch(order: seq<int>, delete: nat -> Reply<Body>, mergeDescription: string): seq<Call> {
    var (deleted, D) := DeleteRun(order, delete);
    D + if deleted.Ok? then [Bulk(mergeDescription)] else []
  }

  /** The requests after the search once the deletion step is reached. */
  function DeleteTail(p: Params, fw: Firewall): seq<Call>
    requires ReachesDeletion(p, fw)
  {
    TailAfterSearch(OrderOf(p, fw), fw.delete, p.mergeDescription)
  }

  /** With a search answer and a usable end date, the last stage deletes the selected entries in order, then applies. */
  lemma SearchDeleteApplyGoes(p: Params, endDate: string, fw: Firewall, loginDetail: Option<Body>, uploadResponse: Body)
    requires fw.search.Response? && NormalizeEndDate(endDate).Ok?
    ensures var order := DeleteOrder(SearchResults(fw), NormalizeEndDate(endDate).value, p.deleteDescription);
      var (r, calls) := SearchDeleteApply(p, endDate, fw, loginDetail, uploadResponse);
      var deleted := DeleteRun(order, fw.delete).0;
      && calls == [Search] + TailAfterSearch(order, fw.delete, p.mergeDescription)
      && (r.Ok? <==> deleted.Ok? && Accepted(fw.bulk))
      && (r.Ok? ==> r.value.deleteResults == deleted.value)
  {
    var end := NormalizeEndDate(endDate).value;
    assert FilterSpec(SearchResults(fw), endDate, p.deleteDescription)
      == Ok(Filtered(SearchResults(fw), WindowStart(end), end, p.deleteDescription));
  }

  /** Without a usable search answer and end date, the last stage sends only the search and fails. */
  lemma SearchDeleteApplyStops(p: Params, endDate: string, fw: Firewall, loginDetail: Option<Body>, uploadResponse: Body)
    requires !(fw.search.Response? && NormalizeEndDate(endDate).Ok?)
    ensures SearchDeleteApply(p, endDate, fw, loginDetail, uploadResponse).1 == [Search]
    ensures SearchDeleteApply(p, endDate, fw, loginDetail, uploadResponse).0.Err?
  {
    if fw.search.Response? {
      assert FilterSpec(RawResults(SearchBodyOf(fw.search)), endDate, p.deleteDescription).Err?;
    }
  }

  /** Unless every stage up to the end date succeeds, the merge-and-replace stage changes nothing on the firewall and fails. */
  lemma MergeAndReplaceStops(p: Params, endDate: string, fw: Firewall, loginDetail: Option<Body>)
    requires !(AllFetched(p.fileIris, fw.fetch) && MergedRows(p, fw) != [] && Accepted(fw.upload)
               && fw.search.Response? && NormalizeEndDate(endDate).Ok?)
    ensures forall c :: c in MergeAndReplace(p, endDate, fw, loginDetail).1 ==> !Destructive(c)
    ensures MergeAndReplace(p, endDate, fw, loginDetail).0.Err?
    ensures !AllFetched(p.fileIris, fw.fetch) || MergedRows(p, fw) == [] ==>
      forall c :: c in MergeAndReplace(p, endDate, fw, loginDetail).1 ==> !c.Upload?
  {
    MergeAndReplaceUploadGate(p, endDate, fw, loginDetail);
    var (merged, M) := MergeRun(p.fileIris, fw.fetch);
    MergeRunDownloadsOnly(p.fileIris, fw.fetch);
    MergeFailsIff(p.fileIris, fw.fetch);
    if merged.Ok? {
      MergeIsConcatenation(p.fileIris, fw.fetch);
      if merged.value != [] && Accepted(fw.upload) {
        var u := UploadOutcome(fw.upload).value;
        SearchDeleteApplyStops(p, endDate, fw, loginDetail, u);
        assert MergeAndReplace(p, endDate, fw, loginDetail).1 == M + [Upload(merged.value)] + [Search];
      }
    }
  }

  /** With every artifact read, a non-empty merge and an accepted upload, the search stage follows the upload of the merged rows. */
  lemma MergeAndReplaceGoes(p: Params, endDate: string, fw: Firewall, loginDetail: Option<Body>)
    requires AllFetched(p.fileIris, fw.fetch) && MergedRows(p, fw) != [] && Accepted(fw.upload)
    ensures var sda := SearchDeleteApply(p, endDate, fw, loginDetail, UploadOutcome(fw.upload).value);
      MergeAndReplace(p, endDate, fw, loginDetail)
        == (sda.0, MergeRun(p.fileIris, fw.fetch).1 + [Upload(MergedRows(p, fw))] + sda.1)
  {
    MergeIsConcatenation(p.fileIris, fw.fetch);
  }

  /** The search stage sends the search, then DELETE and bulk requests only. */
  lemma SearchDeleteApplyCalls(p: Params, endDate: string, fw: Firewall, loginDetail: Option<Body>, uploadResponse: Body)
    ensures forall c :: c in SearchDeleteApply(p, endDate, fw, loginDetail, uploadResponse).1 ==>
      c == Search || c.Delete? || c.Bulk?
  {
    if fw.search.Response? {
      var body := SearchBodyOf(fw.search);
      var filtered := FilterSpec(RawResults(body), endDate, p.deleteDescription);
      if filtered.Ok? {
        DeleteRunTargets(NormalizeIndices(IndicesOf(filtered.value)), fw.delete);
      }
    }
  }

  /**
   * The upload is gated on the merge: the stage uploads only when every
   * artifact was read and the merge is non-empty, and then exactly the
   * merged rows; an empty merge ends the stage with the no-data error right
   * after the downloads, and a failed download ends it with that download's
   * error.
   */
  lemma MergeAndReplaceUploadGate(p: Params, endDate: string, fw: Firewall, loginDetail: Option<Body>)
    ensures forall r :: Upload(r) in MergeAndReplace(p, endDate, fw, loginDetail).1 ==>
      AllFetched(p.fileIris, fw.fetch) && MergedRows(p, fw) != [] && r == MergedRows(p, fw)
    ensures AllFetched(p.fileIris, fw.fetch) && MergedRows(p, fw) == [] ==>
      MergeAndReplace(p, endDate, fw, loginDetail) == (Err(NoMergedData), MergeRun(p.fileIris, fw.fetch).1)
    ensures !AllFetched(p.fileIris, fw.fetch) ==>
      && MergeRun(p.fileIris, fw.fetch).0.Err?
      && MergeAndReplace(p, endDate, fw, loginDetail)
           == (Err(MergeRun(p.fileIris, fw.fetch).0.error), MergeRun(p.fileIris, fw.fetch).1)
  {
    var (merged, M) := MergeRun(p.fileIris, fw.fetch);
    MergeRunDownloadsOnly(p.fileIris, fw.fetch);
    MergeFailsIff(p.fileIris, fw.fetch);
    if merged.Ok? {
      MergeIsConcatenation(p.fileIris, fw.fetch);
      if merged.value != [] && Accepted(fw.upload) {
        SearchDeleteApplyCalls(p, endDate, fw, loginDetail, UploadOutcome(fw.upload).value);
      }
    }
  }

  /**
   * Across the whole operation the upload is sent only after both parameter
   * checks passed, the login succeeded within the budget, every artifact
   * was read and the merge gave rows, and it carries exactly the merged
   * rows.
   */
  lemma UploadIsGated(p: Params, fw: Firewall)
    ensures forall r :: Upload(r) in DeleteMergeSpec(p, fw).calls ==>
      && ParamsPresent(p)
      && (exists k :: 1 <= k <= ParseMaxAttempt(p.loginAttempt) && LoggedInAt(fw.tokenReply, fw.loginReply, k))
      && AllFetched(p.fileIris, fw.fetch) && MergedRows(p, fw) != [] && r == MergedRows(p, fw)
  {
    if ParamsPresent(p) {
      var max := ParseMaxAttempt(p.loginAttempt);
      var auth := AuthSpec(max, fw.tokenReply, fw.loginReply);
      AuthSucceedsIff(max, fw.tokenReply, fw.loginReply);
      AuthRequestsOnly(max, fw.tokenReply, fw.loginReply);
      if auth.result.Ok? {
        MergeAndReplaceUploadGate(p, p.endDate.value, fw, auth.result.value.loginJson);
      }
    }
  }

  /** After a successful login, artifacts that are all read but hold no rows end the operation with the no-data error and no upload. */
  lemma EmptyMergeFails(p: Params, fw: Firewall)
    requires ParamsPresent(p)
    requires exists k :: 1 <= k <= ParseMaxAttempt(p.loginAttempt) && LoggedInAt(fw.tokenReply, fw.loginReply, k)
    requires AllFetched(p.fileIris, fw.fetch) && MergedRows(p, fw) == []
    ensures DeleteMergeSpec(p, fw).outcome == Returned(Err(NoMergedData))
    ensures forall c :: c in DeleteMergeSpec(p, fw).calls ==> !c.Upload?
  {
    var max := ParseMaxAttempt(p.loginAttempt);
    AuthSucceedsIff(max, fw.tokenReply, fw.loginReply);
    MergeAndReplaceUploadGate(p, p.endDate.value, fw, SessionAfter(max, fw.tokenReply, fw.loginReply).loginJson);
    UploadIsGated(p, fw);
  }

  /** Short of the deletion step the operation fails and makes no DELETE or bulk request. */
  lemma StopsBeforeDeletion(p: Params, fw: Firewall)
    requires !ReachesDeletion(p, fw)
    ensures forall c :: c in DeleteMergeSpec(p, fw).calls ==> !Destructive(c)
    ensures !(DeleteMergeSpec(p, fw).outcome.Returned? && DeleteMergeSpec(p, fw).outcome.result.Ok?)
  {
    if ParamsPresent(p) {
      var max := ParseMaxAttempt(p.loginAttempt);
      var auth := AuthSpec(max, fw.tokenReply, fw.loginReply);
      AuthSucceedsIff(max, fw.tokenReply, fw.loginReply);
      AuthRequestsOnly(max, fw.tokenReply, fw.loginReply);
      if auth.result.Ok? {
        MergeAndReplaceStops(p, p.endDate.value, fw, auth.result.value.loginJson);
      }
    }
  }

  /**
   * The trace and the outcome once the deletion step is reached: the login
   * requests, then the downloads and the upload of the merged rows, then the
   * search, the DELETEs in order and, if none raised, the bulk apply;
   * success exactly when no DELETE raised and the bulk apply got 200, with
   * one delete record per request.
   */
  lemma DeletionStep(p: Params, fw: Firewall)
    requires ReachesDeletion(p, fw)
    ensures var run := DeleteMergeSpec(p, fw);
      var auth := AuthSpec(ParseMaxAttempt(p.loginAttempt), fw.tokenReply, fw.loginReply);
      run.calls == auth.calls + (MergeRun(p.fileIris, fw.fetch).1 + [Upload(MergedRows(p, fw))] + ([Search] + DeleteTail(p, fw)))
    ensures var run := DeleteMergeSpec(p, fw);
      var deleted := DeleteRun(OrderOf(p, fw), fw.delete).0;
      && run.outcome.Returned?
      && (run.outcome.result.Ok? <==> deleted.Ok? && Accepted(fw.bulk))
      && (run.outcome.result.Ok? ==> run.outcome.result.value.deleteResults == deleted.value)
  {
    var loginDetail := SessionAfter(ParseMaxAttempt(p.loginAttempt), fw.tokenReply, fw.loginReply).loginJson;
    SearchDeleteApplyGoes(p, p.endDate.value, fw, loginDetail, UploadOutcome(fw.upload).value);
    ReplaceStage(p, fw);
  }

  /** Once the deletion step is reached, the operation's run is the login, the merge and upload, and the last stage. */
  lemma ReplaceStage(p: Params, fw: Firewall)
    requires ReachesDeletion(p, fw)
    ensures var max := ParseMaxAttempt(p.loginAttempt);
      var auth := AuthSpec(max, fw.tokenReply, fw.loginReply);
      var sda := SearchDeleteApply(p, p.endDate.value, fw, SessionAfter(max, fw.tokenReply, fw.loginReply).loginJson,
                                   UploadOutcome(fw.upload).value);
      DeleteMergeSpec(p, fw)
        == Run(Returned(sda.0), auth.calls + (MergeRun(p.fileIris, fw.fetch).1 + [Upload(MergedRows(p, fw))] + sda.1), auth.sleeps)
  {
    var max := ParseMaxAttempt(p.loginAttempt);
    MergeAndReplaceGoes(p, p.endDate.value, fw, SessionAfter(max, fw.tokenReply, fw.loginReply).loginJson);
  }

  /**
   * The blacklist is changed only after the merged rows were uploaded and
   * accepted: a DELETE or bulk request is made only when the deletion step
   * is reached, and then the upload of the merged rows comes before every
   * such request.
   */
  lemma DestructiveRequestsFollowUpload(p: Params, fw: Firewall)
    ensures var calls := DeleteMergeSpec(p, fw).calls;
      (exists c :: c in calls && Destructive(c)) ==> ReachesDeletion(p, fw)
    ensures var calls := DeleteMergeSpec(p, fw).calls;
      ReachesDeletion(p, fw) ==>
        exists j :: 0 <= j < |calls| && calls[j] == Upload(MergedRows(p, fw)) &&
          forall i :: 0 <= i < j ==> !Destructive(calls[i])
  {
    var calls := DeleteMergeSpec(p, fw).calls;
    if ReachesDeletion(p, fw) {
      DeletionStep(p, fw);
      var max := ParseMaxAttempt(p.loginAttempt);
      var A := AuthSpec(max, fw.tokenReply, fw.loginReply).calls;
      var M := MergeRun(p.fileIris, fw.fetch).1;
      AuthRequestsOnly(max, fw.tokenReply, fw.loginReply);
      MergeRunDownloadsOnly(p.fileIris, fw.fetch);
      UploadComesFirst(A, M, Upload(MergedRows(p, fw)), [Search] + DeleteTail(p, fw));
    } else {
      StopsBeforeDeletion(p, fw);
    }
  }

  /** In a trace made of harmless calls, then `u`, then the rest, `u` sits after the harmless calls and no destructive call comes before it. */
  lemma UploadComesFirst(A: seq<Call>, M: seq<Call>, u: Call, rest: seq<Call>)
    requires forall c :: c in A + M ==> !Destructive(c)
    ensures var calls := A + (M + [u] + rest);
      && calls[|A| + |M|] == u
      && forall i :: 0 <= i < |A| + |M| ==> !Destructive(calls[i])
  {
    var calls := A + (M + [u] + rest);
    assert calls == (A + M) + [u] + rest;
    forall i | 0 <= i < |A| + |M|
      ensures !Destructive(calls[i])
    {
      assert calls[i] == (A + M)[i];
    }
  }

  /** Every DELETE request targets the index of a search entry the filter selected. */
  lemma DeletesOnlySelected(p: Params, fw: Firewall)
    ensures forall x :: Delete(x) in DeleteMergeSpec(p, fw).calls ==>
      ReachesDeletion(p, fw) && exists e :: e in SearchResults(fw) && e.index == x && Selected(p, fw, e)
  {
    var calls := DeleteMergeSpec(p, fw).calls;
    forall x | Delete(x) in calls
      ensures ReachesDeletion(p, fw) && exists e :: e in SearchResults(fw) && e.index == x && Selected(p, fw, e)
    {
      DestructiveRequestsFollowUpload(p, fw);
      assert Destructive(Delete(x));
      DeletesFromOrder(p, fw, x);
      OrderIsSelectedIndices(p, fw);
    }
  }

  /** Once the deletion step is reached, a DELETE request in the trace is for an index of the deletion order. */
  lemma DeletesFromOrder(p: Params, fw: Firewall, x: int)
    requires ReachesDeletion(p, fw) && Delete(x) in DeleteMergeSpec(p, fw).calls
    ensures x in OrderOf(p, fw)
  {
    DeletionStep(p, fw);
    var max := ParseMaxAttempt(p.loginAttempt);
    var A := AuthSpec(max, fw.tokenReply, fw.loginReply).calls;
    var M := MergeRun(p.fileIris, fw.fetch).1;
    AuthRequestsOnly(max, fw.tokenReply, fw.loginReply);
    MergeRunDownloadsOnly(p.fileIris, fw.fetch);
    DeleteRunTargets(OrderOf(p, fw), fw.delete);
    assert Delete(x) !in A && Delete(x) !in M + [Upload(MergedRows(p, fw))] + [Search];
    assert Delete(x) in DeleteTail(p, fw);
  }

  /** The indices to delete are exactly those of the selected search entries, each once, highest first. */
  lemma OrderIsSelectedIndices(p: Params, fw: Firewall)
    requires ReachesDeletion(p, fw)
    ensures StrictlyDescending(OrderOf(p, fw))
    ensures forall x :: x in OrderOf(p, fw) <==> exists e :: e in SearchResults(fw) && e.index == x && Selected(p, fw, e)
  {
    DeleteOrderIsMatchingIndices(SearchResults(fw), EndOf(p, fw), p.deleteDescription);
  }

  /**
   * The deletion order is the set of the indices of the search entries the
   * date window and the description select, each once, highest first.
   */
  lemma DeleteOrderIsMatchingIndices(results: seq<Entry>, end: string, deleteDescription: string)
    requires |end| >= 6
    ensures StrictlyDescending(DeleteOrder(results, end, deleteDescription))
    ensures forall x :: x in DeleteOrder(results, end, deleteDescription) <==>
      exists e :: e in results && e.index == x && Keep(e, WindowStart(end), end, deleteDescription)
  {
    var filtered := Filtered(results, WindowStart(end), end, deleteDescription);
    var order := DeleteOrder(results, end, deleteDescription);
    FilteredSound(results, WindowStart(end), end, deleteDescription);
    FilteredComplete(results, WindowStart(end), end, deleteDescription);
    forall x | x in order
      ensures exists e :: e in results && e.index == x && Keep(e, WindowStart(end), end, deleteDescription)
    {
      var k :| 0 <= k < |filtered| && filtered[k].index == x;
      assert filtered[k] in filtered;
    }
    forall x | exists e :: e in results && e.index == x && Keep(e, WindowStart(end), end, deleteDescription)
      ensures x in order
    {
      var e :| e in results && e.index == x && Keep(e, WindowStart(end), end, deleteDescription);
      assert e in filtered;
      var k :| 0 <= k < |filtered| && filtered[k] == e;
      assert IndicesOf(filtered)[k] == x;
    }
  }

  /**
   * On success every selected search entry got its DELETE request, and the
   * delete results hold one record per selected index, highest first.
   */
  lemma SuccessDeletesEverySelected(p: Params, fw: Firewall)
    requires DeleteMergeSpec(p, fw).outcome.Returned? && DeleteMergeSpec(p, fw).outcome.result.Ok?
    ensures ReachesDeletion(p, fw)
    ensures forall e :: e in SearchResults(fw) && Selected(p, fw, e) ==> Delete(e.index) in DeleteMergeSpec(p, fw).calls
    ensures var records := DeleteMergeSpec(p, fw).outcome.result.value.deleteResults;
      && |records| == |OrderOf(p, fw)|
      && (forall k :: 0 <= k < |records| ==> records[k].index == OrderOf(p, fw)[k])
  {
    if !ReachesDeletion(p, fw) {
      StopsBeforeDeletion(p, fw);
    }
    DeletionStep(p, fw);
    OrderIsSelectedIndices(p, fw);
    var order := OrderOf(p, fw);
    var D := DeleteRun(order, fw.delete);
    DeleteRunFailsIff(order, fw.delete);
    DeleteRunOnePerIndex(order, fw.delete);
    var calls := DeleteMergeSpec(p, fw).calls;
    forall e | e in SearchResults(fw) && Selected(p, fw, e)
      ensures Delete(e.index) in calls
    {
      assert e.index in order;
      var m :| 0 <= m < |order| && order[m] == e.index;
      assert D.1[m] in D.1;
      assert Delete(e.index) in DeleteTail(p, fw);
    }
  }

  /**
   * The operation succeeds exactly when the deletion step is reached, none
   * of its DELETE requests raises (whatever their status codes) and the bulk
   * apply is answered with 200.
   */
  lemma SucceedsIff(p: Params, fw: Firewall)
    ensures var outcome := DeleteMergeSpec(p, fw).outcome;
      outcome.Returned? && outcome.result.Ok? <==>
        && ReachesDeletion(p, fw)
        && (forall k :: 0 <= k < |OrderOf(p, fw)| ==> fw.delete(k).Response?)
        && Accepted(fw.bulk)
  {
    if ReachesDeletion(p, fw) {
      DeletionStep(p, fw);
      DeleteRunFailsIff(OrderOf(p, fw), fw.delete);
    } else {
      StopsBeforeDeletion(p, fw);
    }
  }

  /**
   * An end date that cannot be normalised is only noticed after the merged
   * rows were uploaded: the operation returns that error, the upload has
   * been sent, and nothing is deleted or applied.
   */
  lemma BadEndDateAfterUpload(p: Params, fw: Firewall)
    requires ParamsPresent(p)
    requires exists k :: 1 <= k <= ParseMaxAttempt(p.loginAttempt) && LoggedInAt(fw.tokenReply, fw.loginReply, k)
    requires AllFetched(p.fileIris, fw.fetch) && MergedRows(p, fw) != []
    requires Accepted(fw.upload) && fw.search.Response?
    requires NormalizeEndDate(p.endDate.value).Err?
    ensures var run := DeleteMergeSpec(p, fw);
      && run.outcome == Returned(Err(NormalizeEndDate(p.endDate.value).error))
      && Upload(MergedRows(p, fw)) in run.calls
      && forall c :: c in run.calls ==> !Destructive(c)
  {
    var max := ParseMaxAttempt(p.loginAttempt);
    var auth := AuthSpec(max, fw.tokenReply, fw.loginReply);
    AuthSucceedsIff(max, fw.tokenReply, fw.loginReply);
    AuthRequestsOnly(max, fw.tokenReply, fw.loginReply);
    MergeRunDownloadsOnly(p.fileIris, fw.fetch);
    var endDate := p.endDate.value;
    var loginDetail := auth.result.value.loginJson;
    var u := UploadOutcome(fw.upload).value;
    MergeAndReplaceGoes(p, endDate, fw, loginDetail);
    SearchDeleteApplyStops(p, endDate, fw, loginDetail, u);
    assert FilterSpec(SearchResults(fw), endDate, p.deleteDescription) == Err(NormalizeEndDate(endDate).error);
  }

  /**
   * An end date whose day is "00" (say "20240100") is accepted, but its
   * window starts on the first and ends before it: no entry is selected
   * and nothing is deleted.
   */
  lemma DayZeroSelectsNothing(p: Params, fw: Firewall)
    requires ReachesDeletion(p, fw) && EndOf(p, fw)[6..] == "00"
    ensures forall e :: !Selected(p, fw, e)
    ensures OrderOf(p, fw) == []
  {
    var end := EndOf(p, fw);
    var results := SearchResults(fw);
    forall e
      ensures !Keep(e, WindowStart(end), end, p.deleteDescription) && !Selected(p, fw, e)
    {
      var date := FirstDateRun(TextOr(e.fileName));
      if date.Some? {
        WindowIsMonthToDate(date.value, end);
      }
    }
    FilteredNoneKept(results, WindowStart(end), end, p.deleteDescription);
    assert IndicesOf([]) == [];
  }
}
