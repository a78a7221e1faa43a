/**
 * Reading blacklist rows from artifact files. The download and the CSV
 * parse are one oracle, `fetch`, from an artifact reference to its rows or
 * the cause of the failure.
 *
 * - delete_merge.py: `get_file_content(file_iri)` and `download_and_merge`,
 *   which joins the rows of several files in input order;
 * - upload.py: `get_file_content()`, which first insists on a `fileiri`.
 */
module Artifacts {
  import opened Common

  /** The outcome of downloading one artifact and parsing it as CSV. */
  datatype Fetch = Fetched(rows: seq<Row>) | FetchFailed(cause: string)

  /** delete_merge.py `get_file_content`: the rows, or an error naming the artifact and the cause. */
  function FileRows(iri: string, fetch: string -> Fetch): (r: Result<seq<Row>>)
    ensures r.Ok? <==> fetch(iri).Fetched?
    ensures r.Ok? ==> r.value == fetch(iri).rows
    ensures r.Err? ==> r.error == ArtifactUnreadable(Some(iri), fetch(iri).cause)
  {
    match fetch(iri)
    case Fetched(rows) => Ok(rows)
    case FetchFailed(cause) => Err(ArtifactUnreadable(Some(iri), cause))
  }

  /**
   * What merging `iris` does: the rows so far and the downloads made, one
   * per artifact in order, stopping at the first that fails.
   */
  function MergeRun(iris: seq<string>, fetch: string -> Fetch): (Result<seq<Row>>, seq<Call>) {
    if iris == [] then (Ok([]), [])
    else
      var k := |iris| - 1;
      var (r, calls) := MergeRun(iris[..k], fetch);
      if r.Err? then (r, calls)
      else
        match FileRows(iris[k], fetch)
        case Err(e) => (Err(e), calls + [Download(iris[k])])
        case Ok(rows) => (Ok(r.value + rows), calls + [Download(iris[k])])
  }

  method DownloadAndMerge(iris: seq<string>, fetch: string -> Fetch)
    returns (r: Result<seq<Row>>, calls: seq<Call>)
    ensures (r, calls) == MergeRun(iris, fetch)
  {
    var mergedRows := [];
    calls := [];
    for k := 0 to |iris|
      invariant (Ok(mergedRows), calls) == MergeRun(iris[..k], fetch)
    {
      assert iris[..k + 1][..k] == iris[..k];
      calls := calls + [Download(iris[k])];
      var rows := FileRows(iris[k], fetch);
      if rows.Err? {
        r := Err(rows.error);
        MergeRunStopsAtError(iris, fetch, k + 1);
        return;
      }
      mergedRows := mergedRows + rows.value;
    }
    assert iris[..|iris|] == iris;
    r := Ok(mergedRows);
  }

  /** Once a download has failed, later artifacts change nothing. */
  lemma {:induction false} MergeRunStopsAtError(iris: seq<string>, fetch: string -> Fetch, n: nat)
    requires n <= |iris| && MergeRun(iris[..n], fetch).0.Err?
    ensures MergeRun(iris, fetch) == MergeRun(iris[..n], fetch)
    decreases |iris| - n
  {
    if n < |iris| {
      var m := |iris| - 1;
      assert iris[..m][..n] == iris[..n];
      MergeRunStopsAtError(iris[..m], fetch, n);
    } else {
      assert iris[..n] == iris;
    }
  }

  /** Merging makes nothing but downloads, each of one of the given artifacts. */
  lemma {:induction false} MergeRunDownloadsOnly(iris: seq<string>, fetch: string -> Fetch)
    ensures forall c :: c in MergeRun(iris, fetch).1 ==> c.Download? && c.iri in iris
  {
    if iris != [] {
      MergeRunDownloadsOnly(iris[..|iris| - 1], fetch);
    }
  }

  /** The concatenation of a list of row lists, first to last. */
  function Concat(parts: seq<seq<Row>>): seq<Row> {
    if parts == [] then [] else parts[0] + Concat(parts[1..])
  }

  lemma {:induction false} ConcatSnoc(parts: seq<seq<Row>>, last: seq<Row>)
    ensures Concat(parts + [last]) == Concat(parts) + last
  {
    if parts != [] {
      assert (parts + [last])[1..] == parts[1..] + [last];
      ConcatSnoc(parts[1..], last);
    } else {
      assert [last][1..] == [];
    }
  }

  /** The rows of each artifact, in input order (meaningful when every download succeeds). */
  function RowsOfEach(iris: seq<string>, fetch: string -> Fetch): seq<seq<Row>>
    requires forall k :: 0 <= k < |iris| ==> fetch(iris[k]).Fetched?
  {
    seq(|iris|, k requires 0 <= k < |iris| => fetch(iris[k]).rows)
  }

  /**
   * When every download succeeds, the merge is each file's rows joined in
   * input order, and there is exactly one download per artifact, in order.
   */
  lemma {:induction false} MergeIsConcatenation(iris: seq<string>, fetch: string -> Fetch)
    requires forall k :: 0 <= k < |iris| ==> fetch(iris[k]).Fetched?
    ensures var (r, calls) := MergeRun(iris, fetch);
      && r == Ok(Concat(RowsOfEach(iris, fetch)))
      && |calls| == |iris|
      && forall k :: 0 <= k < |iris| ==> calls[k] == Download(iris[k])
  {
    if iris != [] {
      var k := |iris| - 1;
      MergeIsConcatenation(iris[..k], fetch);
      assert RowsOfEach(iris, fetch) == RowsOfEach(iris[..k], fetch) + [fetch(iris[k]).rows];
      ConcatSnoc(RowsOfEach(iris[..k], fetch), fetch(iris[k]).rows);
    }
  }

  /** The merge fails exactly when some download fails. */
  lemma {:induction false} MergeFailsIff(iris: seq<string>, fetch: string -> Fetch)
    ensures MergeRun(iris, fetch).0.Err? <==> exists k :: 0 <= k < |iris| && fetch(iris[k]).FetchFailed?
  {
    if iris != [] {
      var k := |iris| - 1;
      MergeFailsIff(iris[..k], fetch);
      if exists j :: 0 <= j < k && fetch(iris[..k][j]).FetchFailed? {
        var j :| 0 <= j < k && fetch(iris[..k][j]).FetchFailed?;
        assert iris[j] == iris[..k][j];
      }
      if exists j :: 0 <= j < |iris| && fetch(iris[j]).FetchFailed? {
        var j :| 0 <= j < |iris| && fetch(iris[j]).FetchFailed?;
        if j < k {
          assert iris[..k][j] == iris[j];
        }
      }
    }
  }

  /** The two files of rows [a, b], [c, d] and [e, f] merge to three rows in file order. */
  lemma MergeExample(fetch: string -> Fetch)
    requires fetch("file1") == Fetched([["a", "b"], ["c", "d"]])
    requires fetch("file2") == Fetched([["e", "f"]])
    ensures MergeRun(["file1", "file2"], fetch).0 == Ok([["a", "b"], ["c", "d"], ["e", "f"]])
  {
    var first: seq<Row> := [["a", "b"], ["c", "d"]];
    var one: seq<string> := ["file1"];
    var iris: seq<string> := one + ["file2"];
    assert iris == ["file1", "file2"];
    assert iris[..1] == one && iris[1] == "file2";
    assert one[..0] == [] && one[0] == "file1";
    assert FileRows("file1", fetch) == Ok(first);
    assert [] + first == first;
    assert MergeRun(one, fetch).0 == Ok(first);
    assert FileRows("file2", fetch) == Ok([["e", "f"]]);
    assert first + [["e", "f"]] == [["a", "b"], ["c", "d"], ["e", "f"]];
  }

  /**
   * upload.py `get_file_content`: a missing or empty `fileiri` fails before
   * any download; otherwise one download, whose failure is reported
   * without the artifact's name.
   */
  function SingleFileRows(fileIri: Option<string>, fetch: string -> Fetch): (out: (Result<seq<Row>>, seq<Call>))
    ensures fileIri.None? || fileIri.value == "" ==> out == (Err(NoFileIri), [])
    ensures fileIri.Some? && fileIri.value != "" ==> out.1 == [Download(fileIri.value)]
    ensures out.0.Ok? <==> fileIri.Some? && fileIri.value != "" && fetch(fileIri.value).Fetched?
    ensures out.0.Ok? ==> out.0.value == fetch(fileIri.value).rows
    ensures fileIri.Some? && fileIri.value != "" && fetch(fileIri.value).FetchFailed? ==>
      out.0 == Err(ArtifactUnreadable(None, fetch(fileIri.value).cause))
  {
    match fileIri
    case None => (Err(NoFileIri), [])
    case Some(iri) =>
      if iri == "" then (Err(NoFileIri), [])
      else
        match fetch(iri)
        case Fetched(rows) => (Ok(rows), [Download(iri)])
        case FetchFailed(cause) => (Err(ArtifactUnreadable(None, cause)), [Download(iri)])
  }
}
