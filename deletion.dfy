/**
 * `delete_indices` of the delete/merge flow: the indices to delete are
 * de-duplicated and sorted strictly descending (`sorted({int(i) ...},
 * reverse=True)`), then one DELETE request is sent per index, in that
 * order, and one result record is collected per request whatever its
 * status. An exception raised by a request is not caught here.
 */
module Deletion {
  import opened Common

  /** The record kept for one DELETE request. */
  datatype DeleteRecord = DeleteRecord(index: int, statusCode: int, response: Body)

  predicate StrictlyDescending(s: seq<int>) {
    forall i, j :: 0 <= i < j < |s| ==> s[i] > s[j]
  }

  /** x added to a strictly descending sequence, keeping it strictly descending. */
  function InsertDescending(x: int, s: seq<int>): (r: seq<int>)
    requires StrictlyDescending(s)
    ensures StrictlyDescending(r)
    ensures forall y :: y in r <==> y == x || y in s
  {
    if s == [] then [x]
    else if x > s[0] then [x] + s
    else if x == s[0] then s
    else
      var rest := InsertDescending(x, s[1..]);
      assert s == [s[0]] + s[1..];
      assert forall i :: 0 <= i < |rest| ==> rest[i] < s[0] by {
        forall i | 0 <= i < |rest|
          ensures rest[i] < s[0]
        {
          assert rest[i] in rest;
        }
      }
      [s[0]] + rest
  }

  /** The set of the indices, in strictly descending order. */
  function NormalizeIndices(indices: seq<int>): (r: seq<int>)
    ensures StrictlyDescending(r)
    ensures forall y :: y in r <==> y in indices
  {
    if indices == [] then []
    else InsertDescending(indices[|indices| - 1], NormalizeIndices(indices[..|indices| - 1]))
  }

  /**
   * A strictly descending sequence is determined by its elements, so
   * NormalizeIndices is the one sequence `sorted(set(...), reverse=True)` gives.
   */
  lemma {:induction false} DescendingIsUnique(a: seq<int>, b: seq<int>)
    requires StrictlyDescending(a) && StrictlyDescending(b)
    requires forall y :: y in a <==> y in b
    ensures a == b
  {
    SameElementsSameEmptiness(a, b);
    if a != [] {
      // the heads are both the largest element
      HeadAndTail(a);
      HeadAndTail(b);
      assert a[0] in a && b[0] in b;
      assert a[0] == b[0];
      DescendingIsUnique(a[1..], b[1..]);
      assert a == [a[0]] + a[1..] && b == [b[0]] + b[1..];
    }
  }

  lemma SameElementsSameEmptiness(a: seq<int>, b: seq<int>)
    requires forall y :: y in a <==> y in b
    ensures a == [] <==> b == []
  {
    if |a| > 0 {
      var x := a[0];
      assert x in a ==> x in b;
    }
    if |b| > 0 {
      var x := b[0];
      assert x in b ==> x in a;
    }
  }

  /** The head of a strictly descending sequence is its largest element, and the tail holds the rest. */
  lemma HeadAndTail(s: seq<int>)
    requires StrictlyDescending(s) && s != []
    ensures forall y :: y in s ==> y <= s[0]
    ensures forall y :: y in s[1..] <==> y in s && y != s[0]
  {
    forall y | y in s ensures y <= s[0] {
      var i :| 0 <= i < |s| && s[i] == y;
    }
    forall y ensures y in s[1..] <==> y in s && y != s[0] {
      if y in s && y != s[0] {
        var i :| 0 <= i < |s| && s[i] == y;
        assert s[1..][i - 1] == y;
      }
      if y in s[1..] {
        var i :| 0 <= i < |s| - 1 && s[1..][i] == y;
        assert s[i + 1] == y;
      }
    }
  }

  /** Duplicates in the input do not change the requests: [5, 5, 3, 10] gives [10, 5, 3]. */
  lemma NormalizeExample()
    ensures NormalizeIndices([5, 5, 3, 10]) == [10, 5, 3]
  {
    var r := NormalizeIndices([5, 5, 3, 10]);
    assert forall y :: y in r <==> y in [10, 5, 3];
    DescendingIsUnique(r, [10, 5, 3]);
  }

  /**
   * What deleting `order` does: the result records and the requests made,
   * one per index in order, stopping at the first request that raises.
   * Request k (from 0) gets `reply(k)`.
   */
  function DeleteRun(order: seq<int>, reply: nat -> Reply<Body>): (Result<seq<DeleteRecord>>, seq<Call>) {
    if order == [] then (Ok([]), [])
    else
      var k := |order| - 1;
      var (r, calls) := DeleteRun(order[..k], reply);
      if r.Err? then (r, calls)
      else
        match reply(k)
        case TransportError(cause) => (Err(RequestRaised(cause)), calls + [Delete(order[k])])
        case Response(status, text, json) =>
          (Ok(r.value + [DeleteRecord(order[k], status, json.GetOr(text))]), calls + [Delete(order[k])])
  }

  method DeleteIndices(indices: seq<int>, reply: nat -> Reply<Body>)
    returns (r: Result<seq<DeleteRecord>>, calls: seq<Call>)
    ensures (r, calls) == DeleteRun(NormalizeIndices(indices), reply)
  {
    var normalized := NormalizeIndices(indices);
    var responses := [];
    calls := [];
    for k := 0 to |normalized|
      invariant (Ok(responses), calls) == DeleteRun(normalized[..k], reply)
    {
      assert normalized[..k + 1][..k] == normalized[..k];
      var idx := normalized[k];
      calls := calls + [Delete(idx)];
      match reply(k)
      case TransportError(cause) =>
        r := Err(RequestRaised(cause));
        assert (r, calls) == DeleteRun(normalized[..k + 1], reply);
        DeleteRunStopsAtError(normalized, reply, k + 1);
        return;
      case Response(status, text, json) =>
        responses := responses + [DeleteRecord(idx, status, json.GetOr(text))];
    }
    assert normalized[..|normalized|] == normalized;
    r := Ok(responses);
  }

  /** Once a request has raised, later indices change nothing. */
  lemma {:induction false} DeleteRunStopsAtError(order: seq<int>, reply: nat -> Reply<Body>, n: nat)
    requires n <= |order| && DeleteRun(order[..n], reply).0.Err?
    ensures DeleteRun(order, reply) == DeleteRun(order[..n], reply)
    decreases |order| - n
  {
    if n < |order| {
      var m := |order| - 1;
      assert order[..m][..n] == order[..n];
      DeleteRunStopsAtError(order[..m], reply, n);
    } else {
      assert order[..n] == order;
    }
  }

  /**
   * When no request raises, there is exactly one request and one record per
   * index, in order, whatever the status codes.
   */
  lemma {:induction false} DeleteRunOnePerIndex(order: seq<int>, reply: nat -> Reply<Body>)
    requires forall k :: 0 <= k < |order| ==> reply(k).Response?
    ensures var (r, calls) := DeleteRun(order, reply);
      && r.Ok? && |r.value| == |order| && |calls| == |order|
      && forall k :: 0 <= k < |order| ==>
           calls[k] == Delete(order[k]) &&
           r.value[k] == DeleteRecord(order[k], reply(k).status, reply(k).json.GetOr(reply(k).text))
  {
    if order != [] {
      DeleteRunOnePerIndex(order[..|order| - 1], reply);
    }
  }

  /**
   * A request that raises ends the deletions: the requests are those of the
   * indices up to and including it, and the error is its exception.
   */
  lemma {:induction false} DeleteRunFirstError(order: seq<int>, reply: nat -> Reply<Body>, j: nat)
    requires j < |order| && reply(j).TransportError?
    requires forall k :: 0 <= k < j ==> reply(k).Response?
    ensures var (r, calls) := DeleteRun(order, reply);
      && r == Err(RequestRaised(reply(j).cause))
      && |calls| == j + 1
      && forall k :: 0 <= k <= j ==> calls[k] == Delete(order[k])
  {
    var prefix := order[..j + 1];
    assert prefix[..j] == order[..j];
    DeleteRunOnePerIndex(order[..j], reply);
    DeleteRunStopsAtError(order, reply, j + 1);
  }

  /** Deleting sends nothing but DELETE requests, each for one of the given indices. */
  lemma {:induction false} DeleteRunTargets(order: seq<int>, reply: nat -> Reply<Body>)
    ensures forall c :: c in DeleteRun(order, reply).1 ==> c.Delete? && c.index in order
  {
    if order != [] {
      DeleteRunTargets(order[..|order| - 1], reply);
    }
  }

  /** The deletions fail exactly when one of the requests for the given indices raises. */
  lemma {:induction false} DeleteRunFailsIff(order: seq<int>, reply: nat -> Reply<Body>)
    ensures DeleteRun(order, reply).0.Err? <==> exists k :: 0 <= k < |order| && reply(k).TransportError?
  {
    if order != [] {
      DeleteRunFailsIff(order[..|order| - 1], reply);
    }
  }
}
