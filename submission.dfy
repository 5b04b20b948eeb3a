/** The live-feedback submission handler: find the assignment named by the
    notebook's marker, schedule a grading job when an autograder is stored for
    it, and store the grading result, one row per user and assignment.

    The stored autograders are a map from assignment id to zip bytes; the
    result table is a sequence of rows in which no (user, assignment) pair
    occurs twice. Decoding the request body and parsing it as JSON are
    library code: the handler receives their outcome, the notebook's cell
    sources or `None` when the body is not valid UTF-8 JSON. */
module Submission {
  import opened Common
  import opened LiveMarker
  import Misc

  datatype ResultRow = ResultRow(user: string, assignment: string, data: string)

  /** The keyword arguments of the `process_notebook` call handed to the executor. */
  datatype GradingJob = GradingJob(autograderZip: seq<byte>, notebook: seq<byte>, id: string, userHash: string)

  predicate HasKey(row: ResultRow, user: string, assignment: string)
  {
    row.user == user && row.assignment == assignment
  }

  /** The uniqueness constraint on (user, assignment) of the result table. */
  ghost predicate UniqueKeys(rows: seq<ResultRow>)
  {
    forall i, j :: 0 <= i < j < |rows| ==> !HasKey(rows[j], rows[i].user, rows[i].assignment)
  }

  /** The data stored for (user, assignment): the first row with that key. */
  function Lookup(rows: seq<ResultRow>, user: string, assignment: string): Option<string>
  {
    if rows == [] then None
    else if HasKey(rows[0], user, assignment) then Some(rows[0].data)
    else Lookup(rows[1..], user, assignment)
  }

  /** The number of rows stored for (user, assignment). */
  function CountRows(rows: seq<ResultRow>, user: string, assignment: string): nat
  {
    if rows == [] then 0
    else (if HasKey(rows[0], user, assignment) then 1 else 0) + CountRows(rows[1..], user, assignment)
  }

  lemma {:induction false} LookupNone(rows: seq<ResultRow>, user: string, assignment: string)
    ensures Lookup(rows, user, assignment).None? <==> forall i :: 0 <= i < |rows| ==> !HasKey(rows[i], user, assignment)
    ensures Lookup(rows, user, assignment).None? ==> CountRows(rows, user, assignment) == 0
  {
    if rows != [] {
      LookupNone(rows[1..], user, assignment);
      assert forall i :: 1 <= i < |rows| ==> rows[i] == rows[1..][i - 1];
    }
  }

  lemma UniqueKeysTail(rows: seq<ResultRow>)
    requires UniqueKeys(rows) && rows != []
    ensures UniqueKeys(rows[1..])
    ensures forall i :: 0 <= i < |rows[1..]| ==> !HasKey(rows[1..][i], rows[0].user, rows[0].assignment)
  {
  }

  /** With unique keys, a stored result lives in exactly one row, and a
      missing one in none. */
  lemma {:induction false} OneRowPerKey(rows: seq<ResultRow>, user: string, assignment: string)
    requires UniqueKeys(rows)
    ensures CountRows(rows, user, assignment) == if Lookup(rows, user, assignment).Some? then 1 else 0
  {
    if rows != [] {
      UniqueKeysTail(rows);
      OneRowPerKey(rows[1..], user, assignment);
      if HasKey(rows[0], user, assignment) {
        LookupNone(rows[1..], user, assignment);
      }
    }
  }

  /** Overwriting the data of the row that holds a key changes the lookup of
      that key and of no other. */
  lemma {:induction false} LookupAfterUpdate(rows: seq<ResultRow>, i: nat, data: string, user: string, assignment: string)
    requires UniqueKeys(rows) && i < |rows|
    ensures var updated := rows[i := ResultRow(rows[i].user, rows[i].assignment, data)];
            Lookup(updated, user, assignment) ==
              if HasKey(rows[i], user, assignment) then Some(data) else Lookup(rows, user, assignment)
  {
    var updated := rows[i := ResultRow(rows[i].user, rows[i].assignment, data)];
    if i == 0 {
      if !HasKey(rows[0], user, assignment) {
        assert updated[1..] == rows[1..];
      }
    } else {
      UniqueKeysTail(rows);
      assert updated[1..] == rows[1..][i - 1 := ResultRow(rows[i].user, rows[i].assignment, data)];
      assert rows[1..][i - 1] == rows[i];
      LookupAfterUpdate(rows[1..], i - 1, data, user, assignment);
      if HasKey(rows[0], user, assignment) && HasKey(rows[i], user, assignment) {
        assert false;
      }
    }
  }

  /** Appending a row with a new key adds that key and changes nothing else. */
  lemma {:induction false} LookupAfterAppend(rows: seq<ResultRow>, row: ResultRow, user: string, assignment: string)
    requires Lookup(rows, row.user, row.assignment).None?
    ensures Lookup(rows + [row], user, assignment) ==
              if HasKey(row, user, assignment) && Lookup(rows, user, assignment).None? then Some(row.data)
              else Lookup(rows, user, assignment)
  {
    if rows == [] {
      assert rows + [row] == [row];
    } else {
      assert (rows + [row])[1..] == rows[1..] + [row];
      LookupAfterAppend(rows[1..], row, user, assignment);
    }
  }

  /** `_get_autograding_zip`: the id of the first marker line and the stored
      autograder zip for it; `(None, None)` when there is no marker line or no
      autograder is stored under the id. */
  function GetAutogradingZip(autograderZips: map<string, seq<byte>>, cells: seq<string>): (r: (Option<string>, Option<seq<byte>>))
    ensures r.0.Some? <==> r.1.Some?
    ensures r.0.Some? <==> SelectLiveId(cells).Some? && SelectLiveId(cells).value in autograderZips
    ensures r.0.Some? ==> r.0 == SelectLiveId(cells) && r.1 == Some(autograderZips[r.0.value])
  {
    match SelectLiveId(cells)
    case None => (None, None)
    case Some(id) => if id in autograderZips then (Some(id), Some(autograderZips[id])) else (None, None)
  }

  /** A notebook without a marker line never finds an autograder. */
  lemma NoMarkerNoAutograder(autograderZips: map<string, seq<byte>>, cells: seq<string>)
    requires NoMarker(cells)
    ensures GetAutogradingZip(autograderZips, cells) == (None, None)
  {
    LiveIdsEmpty(cells);
  }

  class FeedbackSubmissionHandler {
    /** The stored autograder zips, by assignment id. */
    var autograderZips: map<string, seq<byte>>
    /** The result table. */
    var results: seq<ResultRow>
    /** The jobs handed to the grading executor, in submission order. */
    var submitted: seq<GradingJob>
    /** The status of the current response. */
    var status: int

    ghost predicate Valid()
      reads this
    {
      UniqueKeys(results)
    }

    constructor (autograderZips: map<string, seq<byte>>, results: seq<ResultRow>)
      requires UniqueKeys(results)
      ensures Valid()
      ensures this.autograderZips == autograderZips && this.results == results
      ensures submitted == [] && status == 200
    {
      this.autograderZips := autograderZips;
      this.results := results;
      submitted := [];
      status := 200;
    }

    /** `post`: a body that does not parse answers 400 and schedules nothing;
        otherwise exactly one grading job is scheduled when an autograder is
        found for the notebook's marker, and none when it is not, and the
        response keeps its status. */
    method Post(body: seq<byte>, parsed: Option<seq<string>>, sha256: string -> string, user: User)
      requires Valid()
      modifies this`status, this`submitted
      ensures Valid()
      ensures parsed.None? ==> status == 400 && submitted == old(submitted)
      ensures parsed.Some? ==> status == old(status)
      ensures parsed.Some? ==>
                var found := GetAutogradingZip(autograderZips, parsed.value);
                submitted == if found.1.Some?
                             then old(submitted) + [GradingJob(found.1.value, body, found.0.value, Misc.GetUserHash(sha256, user))]
                             else old(submitted)
    {
      if parsed.None? {
        status := 400;
        return;
      }
      var found := GetAutogradingZip(autograderZips, parsed.value);
      if found.1.None? {
        return;
      }
      var userHash := Misc.GetUserHash(sha256, user);
      submitted := submitted + [GradingJob(found.1.value, body, found.0.value, userHash)];
    }

    /** The end of `process_notebook`: a grading run that produced a result
        table (as CSV) is stored for the job's user and assignment; a run that
        raised is only logged and stores nothing. */
    method ProcessNotebook(job: GradingJob, graded: Option<string>)
      requires Valid()
      modifies this`results
      ensures Valid()
      ensures graded.None? ==> results == old(results)
      ensures graded.Some? ==> Lookup(results, job.userHash, job.id) == Some(graded.value)
      ensures forall u, a :: !(u == job.userHash && a == job.id) ==> Lookup(results, u, a) == old(Lookup(results, u, a))
    {
      if graded.Some? {
        AddOrUpdateResults(job.userHash, job.id, graded.value);
      }
    }

    /** `add_or_update_results`: overwrite the data of the row stored for
        (user, assignment), or add a row when there is none. Afterwards there
        is exactly one row for the pair, holding the new data, and every other
        pair's result is what it was. */
    method AddOrUpdateResults(user: string, assignment: string, data: string)
      requires Valid()
      modifies this`results
      ensures Valid()
      ensures Lookup(results, user, assignment) == Some(data)
      ensures CountRows(results, user, assignment) == 1
      ensures forall u, a :: !(u == user && a == assignment) ==> Lookup(results, u, a) == old(Lookup(results, u, a))
      ensures |results| == if old(Lookup(results, user, assignment)).Some? then old(|results|) else old(|results|) + 1
    {
      var i := 0;
      while i < |results| && !HasKey(results[i], user, assignment)
        invariant 0 <= i <= |results|
        invariant forall k :: 0 <= k < i ==> !HasKey(results[k], user, assignment)
      {
        i := i + 1;
      }
      LookupNone(results, user, assignment);
      if i < |results| {
        var updated := results[i := ResultRow(results[i].user, results[i].assignment, data)];
        forall u, a ensures Lookup(updated, u, a) == if HasKey(results[i], u, a) then Some(data) else Lookup(results, u, a) {
          LookupAfterUpdate(results, i, data, u, a);
        }
        assert UniqueKeys(updated) by {
          forall p, q | 0 <= p < q < |updated| ensures !HasKey(updated[q], updated[p].user, updated[p].assignment) {
            assert HasKey(updated[q], updated[p].user, updated[p].assignment) ==
                   HasKey(results[q], results[p].user, results[p].assignment);
          }
        }
        results := updated;
      } else {
        var row := ResultRow(user, assignment, data);
        forall u, a ensures Lookup(results + [row], u, a) ==
            if HasKey(row, u, a) && Lookup(results, u, a).None? then Some(data) else Lookup(results, u, a) {
          LookupAfterAppend(results, row, u, a);
        }
        assert UniqueKeys(results + [row]) by {
          var s := results + [row];
          forall p, q | 0 <= p < q < |s| ensures !HasKey(s[q], s[p].user, s[p].assignment) {
            if q == |results| {
              assert s[p] == results[p];
            }
          }
        }
        results := results + [row];
      }
      OneRowPerKey(results, user, assignment);
    }
  }
}
