/**
  The two tables of src/db/schema.js, the queries and statements the route
  handlers run against them, and an in-memory store holding them.
  Timestamps are epoch milliseconds; `serial` keys come from a per-table counter.
 */
module Schema {
  import opened JsValue

  /** A row of `responses`: one survey submission per device. */
  datatype ResponseRow = ResponseRow(
    id: nat,
    deviceId: string,
    language: Json,
    createdAt: int,
    completedAt: int)

  /** A row of `answers`: one question's reply, owned by a response. */
  datatype AnswerRow = AnswerRow(
    id: nat,
    responseId: nat,
    questionKey: Json,
    answerContent: seq<Json>,
    answeredTime: real,
    createdAt: int)

  /** The column values a handler supplies for a new answer row. */
  datatype AnswerValues = AnswerValues(
    responseId: nat,
    questionKey: Json,
    answerContent: seq<Json>,
    answeredTime: real)

  /** Both tables and the next value of each `serial` sequence. */
  datatype Tables = Tables(
    responses: seq<ResponseRow>,
    answers: seq<AnswerRow>,
    nextResponseId: nat,
    nextAnswerId: nat)

  function ResponseIds(rows: seq<ResponseRow>): set<nat> {
    set i | 0 <= i < |rows| :: rows[i].id
  }

  /** Primary keys of `responses`: distinct and below the sequence's next value. */
  ghost predicate ResponseKeys(rows: seq<ResponseRow>, next: nat) {
    && (forall i :: 0 <= i < |rows| ==> rows[i].id < next)
    && (forall i, j :: 0 <= i < j < |rows| ==> rows[i].id != rows[j].id)
  }

  /** Primary keys of `answers`: distinct and below the sequence's next value. */
  ghost predicate AnswerKeys(answers: seq<AnswerRow>, next: nat) {
    && (forall k :: 0 <= k < |answers| ==> answers[k].id < next)
    && (forall k, l :: 0 <= k < l < |answers| ==> answers[k].id != answers[l].id)
  }

  /** The foreign key `answers.response_id` references a stored response. */
  ghost predicate References(answers: seq<AnswerRow>, rows: seq<ResponseRow>) {
    forall k :: 0 <= k < |answers| ==> answers[k].responseId in ResponseIds(rows)
  }

  /** What the database itself guarantees: primary keys and the foreign key. */
  ghost predicate WellFormed(t: Tables) {
    && ResponseKeys(t.responses, t.nextResponseId)
    && AnswerKeys(t.answers, t.nextAnswerId)
    && References(t.answers, t.responses)
  }

  /** At most one response per device: kept by the submit handler, not declared in the schema. */
  ghost predicate DevicesUnique(rows: seq<ResponseRow>) {
    forall i, j :: 0 <= i < j < |rows| ==> rows[i].deviceId != rows[j].deviceId
  }

  ghost predicate Consistent(t: Tables) {
    WellFormed(t) && DevicesUnique(t.responses)
  }

  /** `SELECT * FROM responses WHERE device_id = d LIMIT 1`, scanning in table order. */
  function SelectByDevice(rows: seq<ResponseRow>, d: string): (found: seq<ResponseRow>)
    ensures |found| <= 1
    ensures found == [] <==> forall i :: 0 <= i < |rows| ==> rows[i].deviceId != d
    ensures found != [] ==> exists i :: 0 <= i < |rows| && found[0] == rows[i] && rows[i].deviceId == d
  {
    if rows == [] then []
    else if rows[0].deviceId == d then [rows[0]]
    else
      var rest := SelectByDevice(rows[1..], d);
      assert forall i :: 1 <= i < |rows| ==> rows[i] == rows[1..][i - 1];
      rest
  }

  /** `UPDATE responses SET language, completed_at WHERE device_id = d`: every matching row changes. */
  function UpdateByDevice(rows: seq<ResponseRow>, d: string, language: Json, completedAt: int): (r: seq<ResponseRow>)
    ensures |r| == |rows|
    ensures forall i :: 0 <= i < |rows| ==>
      r[i] == if rows[i].deviceId == d then rows[i].(language := language, completedAt := completedAt) else rows[i]
  {
    if rows == [] then []
    else
      var head := if rows[0].deviceId == d then rows[0].(language := language, completedAt := completedAt) else rows[0];
      [head] + UpdateByDevice(rows[1..], d, language, completedAt)
  }

  /** The rows with device `d`, in table order: what `RETURNING` hands back after the update. */
  function RowsOfDevice(rows: seq<ResponseRow>, d: string): (r: seq<ResponseRow>)
    ensures r == [] <==> forall i :: 0 <= i < |rows| ==> rows[i].deviceId != d
  {
    if rows == [] then []
    else
      var rest := RowsOfDevice(rows[1..], d);
      assert forall i :: 1 <= i < |rows| ==> rows[i] == rows[1..][i - 1];
      if rows[0].deviceId == d then [rows[0]] + rest else rest
  }

  /** `DELETE FROM answers WHERE response_id = id`: the surviving rows, in table order. */
  function DeleteByResponse(answers: seq<AnswerRow>, id: nat): (r: seq<AnswerRow>)
    ensures |r| <= |answers|
  {
    if answers == [] then []
    else
      var rest := DeleteByResponse(answers[1..], id);
      if answers[0].responseId == id then rest else [answers[0]] + rest
  }

  /** `SELECT * FROM answers WHERE response_id = id`, in table order. */
  function AnswersOf(answers: seq<AnswerRow>, id: nat): seq<AnswerRow>
  {
    if answers == [] then []
    else
      var rest := AnswersOf(answers[1..], id);
      if answers[0].responseId == id then [answers[0]] + rest else rest
  }

  /** The rows `INSERT INTO answers VALUES ...` creates: consecutive ids, `created_at` defaulted. */
  function NewAnswerRows(values: seq<AnswerValues>, firstId: nat, now: int): (rows: seq<AnswerRow>)
    ensures |rows| == |values|
    ensures forall k :: 0 <= k < |rows| ==> firstId <= rows[k].id < firstId + |values|
    ensures forall k, l :: 0 <= k < l < |rows| ==> rows[k].id < rows[l].id
    ensures forall k :: 0 <= k < |rows| ==>
      && rows[k].responseId == values[k].responseId
      && rows[k].questionKey == values[k].questionKey
      && rows[k].answerContent == values[k].answerContent
      && rows[k].answeredTime == values[k].answeredTime
      && rows[k].createdAt == now
  {
    seq(|values|, k requires 0 <= k < |values| =>
      AnswerRow(firstId + k, values[k].responseId, values[k].questionKey,
                values[k].answerContent, values[k].answeredTime, now))
  }

  /**
    The database: the two tables and their id sequences. Each method is one SQL
    statement as the ORM issues it inside the submit transaction.
   */
  class Store {
    var responses: seq<ResponseRow>
    var answers: seq<AnswerRow>
    var nextResponseId: nat
    var nextAnswerId: nat

    function Snapshot(): Tables
      reads this
    {
      Tables(responses, answers, nextResponseId, nextAnswerId)
    }

    /** Freshly created tables; `serial` starts at 1. */
    constructor ()
      ensures Snapshot() == Tables([], [], 1, 1)
      ensures Consistent(Snapshot())
    {
      responses, answers := [], [];
      nextResponseId, nextAnswerId := 1, 1;
    }

    /** `SELECT * FROM responses WHERE device_id = d LIMIT 1`; reads the table and changes nothing. */
    method SelectResponses(d: string) returns (found: seq<ResponseRow>)
      ensures |found| <= 1
      ensures found == [] <==> forall i :: 0 <= i < |responses| ==> responses[i].deviceId != d
      ensures found == SelectByDevice(responses, d)
    {
      found := SelectByDevice(responses, d);
    }

    /** `UPDATE responses SET language, completed_at WHERE device_id = d RETURNING *` */
    method UpdateResponses(d: string, language: Json, completedAt: int) returns (updated: seq<ResponseRow>)
      modifies this
      ensures responses == UpdateByDevice(old(responses), d, language, completedAt)
      ensures updated == RowsOfDevice(responses, d)
      ensures answers == old(answers)
      ensures nextResponseId == old(nextResponseId) && nextAnswerId == old(nextAnswerId)
    {
      responses := UpdateByDevice(responses, d, language, completedAt);
      updated := RowsOfDevice(responses, d);
    }

    /** `INSERT INTO responses (device_id, language, completed_at) RETURNING *`; `created_at` defaults to now. */
    method InsertResponse(d: string, language: Json, now: int) returns (row: ResponseRow)
      modifies this
      ensures row == ResponseRow(old(nextResponseId), d, language, now, now)
      ensures responses == old(responses) + [row]
      ensures nextResponseId == old(nextResponseId) + 1
      ensures answers == old(answers) && nextAnswerId == old(nextAnswerId)
    {
      row := ResponseRow(nextResponseId, d, language, now, now);
      responses := responses + [row];
      nextResponseId := nextResponseId + 1;
    }

    /** `DELETE FROM answers WHERE response_id = id` */
    method DeleteAnswers(id: nat)
      modifies this
      ensures answers == DeleteByResponse(old(answers), id)
      ensures responses == old(responses)
      ensures nextResponseId == old(nextResponseId) && nextAnswerId == old(nextAnswerId)
    {
      answers := DeleteByResponse(answers, id);
    }

    /** `INSERT INTO answers VALUES ...` for a batch of rows; `created_at` defaults to now. */
    method InsertAnswers(values: seq<AnswerValues>, now: int)
      modifies this
      ensures answers == old(answers) + NewAnswerRows(values, old(nextAnswerId), now)
      ensures nextAnswerId == old(nextAnswerId) + |values|
      ensures responses == old(responses) && nextResponseId == old(nextResponseId)
    {
      answers := answers + NewAnswerRows(values, nextAnswerId, now);
      nextAnswerId := nextAnswerId + |values|;
    }
  }

  /** The delete removes exactly the rows of response `id`. */
  lemma {:induction false} DeleteByResponseMembers(answers: seq<AnswerRow>, id: nat)
    ensures forall a :: a in DeleteByResponse(answers, id) <==> a in answers && a.responseId != id
  {
    if answers != [] {
      DeleteByResponseMembers(answers[1..], id);
      assert answers == [answers[0]] + answers[1..];
    }
  }

  /** The rows `RETURNING` hands back are exactly the stored rows of the device. */
  lemma {:induction false} RowsOfDeviceMembers(rows: seq<ResponseRow>, d: string)
    ensures forall x :: x in RowsOfDevice(rows, d) <==> x in rows && x.deviceId == d
  {
    if rows != [] {
      RowsOfDeviceMembers(rows[1..], d);
      assert rows == [rows[0]] + rows[1..];
    }
  }

  /** The select returns exactly the rows of response `id`. */
  lemma {:induction false} AnswersOfMembers(answers: seq<AnswerRow>, id: nat)
    ensures forall a :: a in AnswersOf(answers, id) <==> a in answers && a.responseId == id
  {
    if answers != [] {
      AnswersOfMembers(answers[1..], id);
      assert answers == [answers[0]] + answers[1..];
    }
  }

  /** Selecting answers distributes over appending rows. */
  lemma {:induction false} AnswersOfAppend(a: seq<AnswerRow>, b: seq<AnswerRow>, id: nat)
    ensures AnswersOf(a + b, id) == AnswersOf(a, id) + AnswersOf(b, id)
  {
    if a == [] {
      assert a + b == b;
    } else {
      assert (a + b)[0] == a[0] && (a + b)[1..] == a[1..] + b;
      AnswersOfAppend(a[1..], b, id);
    }
  }

  /** Deleting the answers of one response leaves it none and leaves every other response's answers as they were. */
  lemma {:induction false} AnswersAfterDelete(answers: seq<AnswerRow>, id: nat, other: nat)
    ensures AnswersOf(DeleteByResponse(answers, id), id) == []
    ensures other != id ==> AnswersOf(DeleteByResponse(answers, id), other) == AnswersOf(answers, other)
  {
    if answers != [] {
      AnswersAfterDelete(answers[1..], id, other);
    }
  }

  /** Inserted rows all belong to the response named in their values. */
  lemma {:induction false} AnswersOfNewRows(values: seq<AnswerValues>, firstId: nat, now: int, id: nat)
    requires forall k :: 0 <= k < |values| ==> values[k].responseId == id
    ensures AnswersOf(NewAnswerRows(values, firstId, now), id) == NewAnswerRows(values, firstId, now)
    ensures forall other :: other != id ==> AnswersOf(NewAnswerRows(values, firstId, now), other) == []
  {
    if values != [] {
      var rows := NewAnswerRows(values, firstId, now);
      assert rows[1..] == NewAnswerRows(values[1..], firstId + 1, now);
      AnswersOfNewRows(values[1..], firstId + 1, now, id);
    }
  }

  /** Rows that survive a delete keep their keys. */
  lemma {:induction false} DeleteKeepsKeys(answers: seq<AnswerRow>, id: nat, next: nat)
    requires AnswerKeys(answers, next)
    ensures AnswerKeys(DeleteByResponse(answers, id), next)
  {
    if answers != [] {
      var tail := answers[1..];
      KeysOfTail(answers, next);
      DeleteKeepsKeys(tail, id, next);
      var rest := DeleteByResponse(tail, id);
      if answers[0].responseId != id {
        DeleteByResponseMembers(tail, id);
        forall x | x in rest ensures x.id != answers[0].id {
          var j :| 0 <= j < |tail| && tail[j] == x;
          assert answers[j + 1] == x;
        }
        KeysOfCons(answers[0], rest, next);
      }
    }
  }

  lemma KeysOfTail(answers: seq<AnswerRow>, next: nat)
    requires answers != [] && AnswerKeys(answers, next)
    ensures AnswerKeys(answers[1..], next)
  {
    var tail := answers[1..];
    forall k, l | 0 <= k < l < |tail| ensures tail[k].id != tail[l].id {
      assert tail[k] == answers[k + 1] && tail[l] == answers[l + 1];
    }
  }

  lemma KeysOfCons(x: AnswerRow, rest: seq<AnswerRow>, next: nat)
    requires x.id < next && AnswerKeys(rest, next)
    requires forall y :: y in rest ==> y.id != x.id
    ensures AnswerKeys([x] + rest, next)
  {
    var r := [x] + rest;
    forall k, l | 0 <= k < l < |r| ensures r[k].id != r[l].id {
      assert r[l] == rest[l - 1];
      if k > 0 {
        assert r[k] == rest[k - 1];
      }
    }
  }

  /** Appending freshly numbered rows keeps the keys, with the sequence advanced past them. */
  lemma AppendKeepsKeys(kept: seq<AnswerRow>, values: seq<AnswerValues>, next: nat, now: int)
    requires AnswerKeys(kept, next)
    ensures AnswerKeys(kept + NewAnswerRows(values, next, now), next + |values|)
  {
  }
}
