/**
  The `/submit-response` handler of src/routes/submit.js: parse failure, the
  ordered validation chain, and the transaction that upserts the device's
  response and replaces its answers. The clock is the parameter `now`.
 */
module SubmitRoute {
  import opened Wrappers
  import opened JsValue
  import opened Validator
  import opened ApiResponse
  import opened Schema

  const BadFormat := "无效的请求格式，请确保发送正确的JSON数据"
  const MissingDeviceId := "缺少设备ID"
  const InvalidDeviceId := "无效的设备ID"
  const MissingLanguage := "缺少语言设置"
  const InvalidAnswers := "无效的答案数据"
  const MissingQuestionKey := "缺少问题标识"
  const MissingAnswer := "缺少答案内容"
  const AnswerNotArray := "答案内容必须是数组格式"
  const MissingAnsweredTime := "缺少答题时间"
  const AnsweredTimeNotNumber := "答题时间必须是毫秒时间戳"
  const SubmitFailed := "提交答卷失败"

  /**
    Why a request is turned away: a validation message (status 400), or a
    TypeError from reading a property of null, which the outer catch turns
    into the generic failure (status 500).
   */
  datatype Failure = Rejected(message: string) | Crashed

  // ---------------------------------------------------------------------------
  // Validation of the answer entries (the `for (const answer of answerList)` loop)
  // ---------------------------------------------------------------------------

  /** What an answer entry needs in order to pass every check of the loop. */
  predicate EntryOk(answer: Json) {
    && answer.Object?
    && Truthy(Prop(answer, "questionKey"))
    && Prop(answer, "answer").Array?
    && Prop(answer, "answeredTime").Number?
    && Prop(answer, "answeredTime").n != 0.0
  }

  /** The checks of one entry, in source order; the first that fails decides. */
  function EntryFailure(answer: Json): (f: Option<Failure>)
    ensures f == None <==> EntryOk(answer)
    ensures f == Some(Crashed) <==> Nullish(answer)
  {
    if Nullish(answer) then Some(Crashed)
    else if !Truthy(Prop(answer, "questionKey")) then Some(Rejected(MissingQuestionKey))
    else if !Truthy(Prop(answer, "answer")) then Some(Rejected(MissingAnswer))
    else if !IsArray(Prop(answer, "answer")) then Some(Rejected(AnswerNotArray))
    else if !Truthy(Prop(answer, "answeredTime")) then Some(Rejected(MissingAnsweredTime))
    else if TypeOf(Prop(answer, "answeredTime")) != "number" then Some(Rejected(AnsweredTimeNotNumber))
    else None
  }

  /** The failure of the first entry that fails, if any. */
  function FirstFailure(answerList: seq<Json>): (f: Option<Failure>)
    ensures f == None <==> forall i :: 0 <= i < |answerList| ==> EntryOk(answerList[i])
  {
    if answerList == [] then None
    else if EntryFailure(answerList[0]).Some? then EntryFailure(answerList[0])
    else
      assert forall i :: 1 <= i < |answerList| ==> answerList[i] == answerList[1..][i - 1];
      FirstFailure(answerList[1..])
  }

  /** A reported failure is that of some entry, and every entry before it passed. */
  lemma {:induction false} FirstFailureIsFirst(answerList: seq<Json>)
    ensures FirstFailure(answerList) != None ==>
      exists i :: 0 <= i < |answerList| && FirstFailure(answerList) == EntryFailure(answerList[i])
        && forall j :: 0 <= j < i ==> EntryOk(answerList[j])
  {
    if answerList != [] && EntryFailure(answerList[0]) == None {
      FirstFailureIsFirst(answerList[1..]);
      if FirstFailure(answerList) != None {
        var i :| 0 <= i < |answerList[1..]| && FirstFailure(answerList[1..]) == EntryFailure(answerList[1..][i])
          && forall j :: 0 <= j < i ==> EntryOk(answerList[1..][j]);
        assert FirstFailure(answerList) == EntryFailure(answerList[i + 1]);
        assert forall j :: 0 <= j < i + 1 ==> EntryOk(answerList[j]) by {
          forall j | 0 <= j < i + 1 ensures EntryOk(answerList[j]) {
            if j > 0 { assert answerList[j] == answerList[1..][j - 1]; }
          }
        }
      }
    }
  }

  /** The validation loop over the submitted answers, returning at the first failing check. */
  method CheckAnswers(answerList: seq<Json>) returns (failure: Option<Failure>)
    ensures failure == FirstFailure(answerList)
    ensures failure == None <==> forall i :: 0 <= i < |answerList| ==> EntryOk(answerList[i])
  {
    for i := 0 to |answerList|
      invariant FirstFailure(answerList) == FirstFailure(answerList[i..])
    {
      assert answerList[i..][0] == answerList[i] && answerList[i..][1..] == answerList[i + 1..];
      var answer := answerList[i];
      if Nullish(answer) {
        return Some(Crashed);
      }
      if !Truthy(Prop(answer, "questionKey")) {
        return Some(Rejected(MissingQuestionKey));
      }
      if !Truthy(Prop(answer, "answer")) {
        return Some(Rejected(MissingAnswer));
      }
      if !IsArray(Prop(answer, "answer")) {
        return Some(Rejected(AnswerNotArray));
      }
      if !Truthy(Prop(answer, "answeredTime")) {
        return Some(Rejected(MissingAnsweredTime));
      }
      if TypeOf(Prop(answer, "answeredTime")) != "number" {
        return Some(Rejected(AnsweredTimeNotNumber));
      }
    }
    assert answerList[|answerList|..] == [];
    return None;
  }

  // ---------------------------------------------------------------------------
  // The whole validation chain
  // ---------------------------------------------------------------------------

  /** The outcome of validation: the fields the transaction uses, or the failure. */
  datatype Verdict =
    | Accepted(deviceId: string, language: Json, answerList: seq<Json>)
    | Refused(failure: Failure)

  /** A body that passes every check. */
  predicate AcceptableBody(body: Json) {
    && body.Object?
    && Prop(body, "deviceId").Str? && Prop(body, "deviceId").s != ""
    && Truthy(Prop(body, "language"))
    && Prop(body, "answers").Array? && |Prop(body, "answers").items| > 0
    && forall i :: 0 <= i < |Prop(body, "answers").items| ==> EntryOk(Prop(body, "answers").items[i])
  }

  /**
    The checks in source order. Destructuring a null body throws; `language`
    is only tested for truthiness.
   */
  function Validate(body: Json): (v: Verdict)
    ensures v.Accepted? <==> AcceptableBody(body)
    ensures v.Accepted? ==>
      && Prop(body, "deviceId") == Str(v.deviceId) && v.deviceId != ""
      && v.language == Prop(body, "language") && Truthy(v.language)
      && Prop(body, "answers") == Array(v.answerList) && v.answerList != []
      && forall i :: 0 <= i < |v.answerList| ==> EntryOk(v.answerList[i])
  {
    if Nullish(body) then Refused(Crashed)
    else
      var deviceId := Prop(body, "deviceId");
      var language := Prop(body, "language");
      var answerList := Prop(body, "answers");
      if !Truthy(deviceId) then Refused(Rejected(MissingDeviceId))
      else if !ValidateDeviceId(deviceId) then Refused(Rejected(InvalidDeviceId))
      else if !Truthy(language) then Refused(Rejected(MissingLanguage))
      else if !IsArray(answerList) || |answerList.items| == 0 then Refused(Rejected(InvalidAnswers))
      else
        match FirstFailure(answerList.items)
        case Some(f) => Refused(f)
        case None => Accepted(deviceId.s, language, answerList.items)
  }

  /** The checks of the body before the loop, each assuming those before it passed. */
  predicate DeviceIdPresent(body: Json) {
    !Nullish(body) && Truthy(Prop(body, "deviceId"))
  }

  predicate DeviceIdValid(body: Json) {
    DeviceIdPresent(body) && ValidateDeviceId(Prop(body, "deviceId"))
  }

  predicate LanguagePresent(body: Json) {
    DeviceIdValid(body) && Truthy(Prop(body, "language"))
  }

  predicate AnswersListed(body: Json) {
    LanguagePresent(body) && IsArray(Prop(body, "answers")) && |Prop(body, "answers").items| > 0
  }

  /** Each message is produced exactly when every earlier check passed and its own check failed. */
  lemma ValidationOrder(body: Json)
    ensures Validate(body) == Refused(Rejected(MissingDeviceId)) <==> !Nullish(body) && !DeviceIdPresent(body)
    ensures Validate(body) == Refused(Rejected(InvalidDeviceId)) <==> DeviceIdPresent(body) && !DeviceIdValid(body)
    ensures Validate(body) == Refused(Rejected(MissingLanguage)) <==> DeviceIdValid(body) && !LanguagePresent(body)
    ensures Validate(body) == Refused(Rejected(InvalidAnswers)) <==> LanguagePresent(body) && !AnswersListed(body)
    ensures AnswersListed(body) ==>
      Validate(body) == (match FirstFailure(Prop(body, "answers").items)
                         case Some(f) => Refused(f)
                         case None => Accepted(Prop(body, "deviceId").s, Prop(body, "language"), Prop(body, "answers").items))
  {
    FirstFailureMessages(if !Nullish(body) && Prop(body, "answers").Array? then Prop(body, "answers").items else []);
  }

  /** The loop only ever reports the five entry messages, or the crash. */
  lemma {:induction false} FirstFailureMessages(answerList: seq<Json>)
    ensures FirstFailure(answerList) in {None, Some(Crashed), Some(Rejected(MissingQuestionKey)),
      Some(Rejected(MissingAnswer)), Some(Rejected(AnswerNotArray)), Some(Rejected(MissingAnsweredTime)),
      Some(Rejected(AnsweredTimeNotNumber))}
  {
    if answerList != [] {
      FirstFailureMessages(answerList[1..]);
    }
  }

  /** Within an entry the five checks also run in order; truthiness makes `[]` pass and `0` count as missing. */
  lemma EntryCheckOrder(answer: Json)
    requires !Nullish(answer)
    ensures EntryFailure(answer) == Some(Rejected(MissingQuestionKey)) <==> !Truthy(Prop(answer, "questionKey"))
    ensures EntryFailure(answer) == Some(Rejected(MissingAnswer)) <==>
      Truthy(Prop(answer, "questionKey")) && !Truthy(Prop(answer, "answer"))
    ensures EntryFailure(answer) == Some(Rejected(AnswerNotArray)) <==>
      Truthy(Prop(answer, "questionKey")) && Truthy(Prop(answer, "answer")) && !IsArray(Prop(answer, "answer"))
    ensures EntryFailure(answer) == Some(Rejected(MissingAnsweredTime)) <==>
      Truthy(Prop(answer, "questionKey")) && IsArray(Prop(answer, "answer")) && !Truthy(Prop(answer, "answeredTime"))
    ensures EntryFailure(answer) == Some(Rejected(AnsweredTimeNotNumber)) <==>
      Truthy(Prop(answer, "questionKey")) && IsArray(Prop(answer, "answer"))
      && Truthy(Prop(answer, "answeredTime")) && !Prop(answer, "answeredTime").Number?
  {
  }

  // ---------------------------------------------------------------------------
  // The transaction
  // ---------------------------------------------------------------------------

  /** The values `answerList.map(...)` builds from one validated entry. */
  function ValuesOf(answer: Json, responseId: nat): (v: AnswerValues)
    requires EntryOk(answer)
    ensures v.responseId == responseId && v.questionKey == Prop(answer, "questionKey")
    ensures Array(v.answerContent) == Prop(answer, "answer")
    ensures Number(v.answeredTime) == Prop(answer, "answeredTime")
  {
    AnswerValues(responseId, Prop(answer, "questionKey"), Prop(answer, "answer").items, Prop(answer, "answeredTime").n)
  }

  /** `answerList.map(...)`: one row of values per entry, all owned by `responseId`. */
  function AnswerValuesOf(answerList: seq<Json>, responseId: nat): (values: seq<AnswerValues>)
    requires forall i :: 0 <= i < |answerList| ==> EntryOk(answerList[i])
    ensures |values| == |answerList|
    ensures forall k :: 0 <= k < |values| ==>
      && EntryOk(answerList[k])
      && values[k].responseId == responseId
      && values[k].questionKey == Prop(answerList[k], "questionKey")
      && Array(values[k].answerContent) == Prop(answerList[k], "answer")
  {
    seq(|answerList|, k requires 0 <= k < |answerList| => ValuesOf(answerList[k], responseId))
  }

  /** `rows` records the entries of `answerList`, in order, for response `responseId`. */
  ghost predicate Records(rows: seq<AnswerRow>, answerList: seq<Json>, responseId: nat) {
    && |rows| == |answerList|
    && forall k :: 0 <= k < |rows| ==>
      && EntryOk(answerList[k])
      && rows[k].responseId == responseId
      && rows[k].questionKey == Prop(answerList[k], "questionKey")
      && Array(rows[k].answerContent) == Prop(answerList[k], "answer")
      && rows[k].answeredTime == Prop(answerList[k], "answeredTime").n
  }

  /** The `responses` half of the transaction: the table, its sequence, the returned row, and whether it existed. */
  datatype Upserted = Upserted(responses: seq<ResponseRow>, nextResponseId: nat, response: ResponseRow, existed: bool)

  /**
    Look the device up; if found, update its row(s) and return the first
    updated row, otherwise insert a new row and return it.
   */
  function Upsert(responses: seq<ResponseRow>, nextResponseId: nat, deviceId: string, language: Json, now: int): (u: Upserted)
    ensures u.existed <==> exists i :: 0 <= i < |responses| && responses[i].deviceId == deviceId
    ensures u.response.deviceId == deviceId && u.response.language == language && u.response.completedAt == now
    ensures u.existed ==> |u.responses| == |responses| && u.nextResponseId == nextResponseId
    ensures !u.existed ==>
      && u.response.id == nextResponseId
      && u.responses == responses + [u.response]
      && u.nextResponseId == nextResponseId + 1
  {
    if |SelectByDevice(responses, deviceId)| > 0 then
      var updated := UpdateByDevice(responses, deviceId, language, now);
      var returned := RowsOfDevice(updated, deviceId);
      UpdatedRowReturned(responses, deviceId, language, now);
      Upserted(updated, nextResponseId, returned[0], true)
    else
      var response := ResponseRow(nextResponseId, deviceId, language, now, now);
      Upserted(responses + [response], nextResponseId + 1, response, false)
  }

  /** After the update of a stored device, `RETURNING` yields a row of that device carrying the new values. */
  lemma {:induction false} UpdatedRowReturned(responses: seq<ResponseRow>, deviceId: string, language: Json, now: int)
    requires exists i :: 0 <= i < |responses| && responses[i].deviceId == deviceId
    ensures var returned := RowsOfDevice(UpdateByDevice(responses, deviceId, language, now), deviceId);
      && returned != []
      && returned[0].deviceId == deviceId && returned[0].language == language && returned[0].completedAt == now
  {
    var updated := UpdateByDevice(responses, deviceId, language, now);
    if responses[0].deviceId != deviceId {
      var i :| 0 <= i < |responses| && responses[i].deviceId == deviceId;
      assert responses[1..][i - 1].deviceId == deviceId;
      UpdatedRowReturned(responses[1..], deviceId, language, now);
      assert updated[1..] == UpdateByDevice(responses[1..], deviceId, language, now);
    }
  }

  /** The tables after the transaction, and the response row it returns. */
  datatype Committed = Committed(tables: Tables, response: ResponseRow)

  /** The upsert, then (for an existing row) the delete of its answers, then the insert of the new ones. */
  function Commit(t: Tables, deviceId: string, language: Json, answerList: seq<Json>, now: int): (c: Committed)
    requires forall i :: 0 <= i < |answerList| ==> EntryOk(answerList[i])
    ensures c.response.deviceId == deviceId && c.response.language == language && c.response.completedAt == now
    ensures c.tables.nextAnswerId == t.nextAnswerId + |answerList|
    ensures (exists i :: 0 <= i < |t.responses| && t.responses[i].deviceId == deviceId) ==>
      |c.tables.responses| == |t.responses| && c.tables.nextResponseId == t.nextResponseId
    ensures (forall i :: 0 <= i < |t.responses| ==> t.responses[i].deviceId != deviceId) ==>
      c.tables.responses == t.responses + [c.response] && c.response.id == t.nextResponseId
  {
    var u := Upsert(t.responses, t.nextResponseId, deviceId, language, now);
    var values := AnswerValuesOf(answerList, u.response.id);
    var kept := if u.existed then DeleteByResponse(t.answers, u.response.id) else t.answers;
    Committed(Tables(u.responses, kept + NewAnswerRows(values, t.nextAnswerId, now), u.nextResponseId, t.nextAnswerId + |values|),
              u.response)
  }

  /** HTTP status, reply body and the tables afterwards. */
  datatype Handled = Handled(status: int, reply: Envelope<ResponseRow>, tables: Tables)

  /** A refused request: the envelope's code repeats the HTTP status, and the tables are untouched. */
  function Refusal(f: Failure, t: Tables): (h: Handled)
    ensures h.tables == t && h.reply.data == None && h.reply.code == h.status
    ensures f.Rejected? ==> h.status == 400 && h.reply.message == f.message
    ensures f.Crashed? ==> h.status == 500 && h.reply.message == SubmitFailed
  {
    match f
    case Rejected(message) => Handled(400, Error(message, 400), t)
    case Crashed => Handled(500, Error(SubmitFailed, 500), t)
  }

  /** The whole handler; `None` is a body that did not parse as JSON. */
  function Handle(t: Tables, body: Option<Json>, now: int): (h: Handled)
    ensures h.status == 200 <==> body.Some? && AcceptableBody(body.value)
    ensures h.status != 200 ==> h.tables == t && h.reply.data == None && (h.status == 400 || h.status == 500)
    ensures h.status == 500 <==> body.Some? && Validate(body.value) == Refused(Crashed)
    ensures body.None? ==> h == Handled(400, Error(BadFormat, 400), t)
    ensures body.Some? && Validate(body.value).Refused? && Validate(body.value).failure.Rejected? ==>
      h.reply == Error(Validate(body.value).failure.message, 400)
  {
    match body
    case None => Handled(400, Error(BadFormat, 400), t)
    case Some(b) =>
      match Validate(b)
      case Refused(f) => Refusal(f, t)
      case Accepted(deviceId, language, answerList) =>
        var c := Commit(t, deviceId, language, answerList, now);
        Handled(200, Success(Some(c.response)), c.tables)
  }

  /** The checks of lines 22-55 as the handler runs them, returning at the first that fails. */
  method ValidateBody(body: Json) returns (v: Verdict)
    ensures v == Validate(body)
  {
    if Nullish(body) {
      return Refused(Crashed);
    }
    var deviceId, language, answerList := Prop(body, "deviceId"), Prop(body, "language"), Prop(body, "answers");
    if !Truthy(deviceId) {
      return Refused(Rejected(MissingDeviceId));
    }
    if !ValidateDeviceId(deviceId) {
      return Refused(Rejected(InvalidDeviceId));
    }
    if !Truthy(language) {
      return Refused(Rejected(MissingLanguage));
    }
    if !IsArray(answerList) || |answerList.items| == 0 {
      return Refused(Rejected(InvalidAnswers));
    }
    var failure := CheckAnswers(answerList.items);
    if failure.Some? {
      return Refused(failure.value);
    }
    return Accepted(deviceId.s, language, answerList.items);
  }

  /** The route handler, run as one sequential step against the store. */
  method Submit(store: Store, body: Option<Json>, now: int) returns (status: int, reply: Envelope<ResponseRow>)
    modifies store
    ensures Handled(status, reply, store.Snapshot()) == Handle(old(store.Snapshot()), body, now)
    ensures Consistent(old(store.Snapshot())) ==> Consistent(store.Snapshot())
  {
    ghost var t := store.Snapshot();
    if body.None? {
      return 400, Error(BadFormat, 400);
    }
    var verdict := ValidateBody(body.value);
    match verdict {
      case Refused(Rejected(message)) =>
        return 400, Error(message, 400);
      case Refused(Crashed) =>
        return 500, Error(SubmitFailed, 500);
      case Accepted(deviceId, language, answerList) =>
        var response := Transaction(store, deviceId, language, answerList, now);
        status, reply := 200, Success(Some(response));
        if Consistent(t) {
          CommitConsistent(t, deviceId, language, answerList, now);
        }
    }
  }

  /** `db.transaction(...)`: the upsert, the delete and the inserts, as one sequential step. */
  method Transaction(store: Store, deviceId: string, language: Json, answerList: seq<Json>, now: int)
    returns (response: ResponseRow)
    requires forall i :: 0 <= i < |answerList| ==> EntryOk(answerList[i])
    modifies store
    ensures Committed(store.Snapshot(), response) == Commit(old(store.Snapshot()), deviceId, language, answerList, now)
  {
    ghost var t := store.Snapshot();
    ghost var u := Upsert(t.responses, t.nextResponseId, deviceId, language, now);
    var existing := store.SelectResponses(deviceId);
    if |existing| > 0 {
      var updated := store.UpdateResponses(deviceId, language, now);
      response := updated[0];
      store.DeleteAnswers(response.id);
    } else {
      response := store.InsertResponse(deviceId, language, now);
    }
    assert store.responses == u.responses && store.nextResponseId == u.nextResponseId && response == u.response;
    var values := AnswerValuesOf(answerList, response.id);
    store.InsertAnswers(values, now);
  }

  // ---------------------------------------------------------------------------
  // Properties of the transaction
  // ---------------------------------------------------------------------------

  /** A new device gets exactly one new row with a fresh id, the given fields and both timestamps `now`. */
  lemma UpsertInserts(responses: seq<ResponseRow>, next: nat, deviceId: string, language: Json, now: int)
    requires ResponseKeys(responses, next)
    requires forall i :: 0 <= i < |responses| ==> responses[i].deviceId != deviceId
    ensures var u := Upsert(responses, next, deviceId, language, now);
      && !u.existed
      && u.response == ResponseRow(next, deviceId, language, now, now)
      && u.response.id !in ResponseIds(responses)
      && u.responses == responses + [u.response]
  {
  }

  /** A known device keeps its row and id; only `language` and `completedAt` change, and no row is added. */
  lemma UpsertUpdates(responses: seq<ResponseRow>, next: nat, deviceId: string, language: Json, now: int, i: nat)
    requires DevicesUnique(responses)
    requires i < |responses| && responses[i].deviceId == deviceId
    ensures var u := Upsert(responses, next, deviceId, language, now);
      && u.existed
      && u.response == responses[i].(language := language, completedAt := now)
      && u.responses == responses[i := u.response]
      && u.nextResponseId == next
  {
    var updated := UpdateByDevice(responses, deviceId, language, now);
    assert updated == responses[i := responses[i].(language := language, completedAt := now)];
    RowsOfUniqueDevice(updated, deviceId, i);
  }

  /** With devices unique, the rows of a device are just its one row. */
  lemma {:induction false} RowsOfUniqueDevice(rows: seq<ResponseRow>, d: string, i: nat)
    requires DevicesUnique(rows)
    requires i < |rows| && rows[i].deviceId == d
    ensures RowsOfDevice(rows, d) == [rows[i]]
  {
    if i == 0 {
      assert forall k :: 0 <= k < |rows[1..]| ==> rows[1..][k].deviceId != d by {
        forall k | 0 <= k < |rows[1..]| ensures rows[1..][k].deviceId != d {
          assert rows[1..][k] == rows[k + 1];
        }
      }
    } else {
      RowsOfUniqueDevice(rows[1..], d, i - 1);
    }
  }

  /** The upsert keeps the keys and at most one response per device, and only adds ids. */
  lemma UpsertConsistent(responses: seq<ResponseRow>, next: nat, deviceId: string, language: Json, now: int)
    requires ResponseKeys(responses, next) && DevicesUnique(responses)
    ensures var u := Upsert(responses, next, deviceId, language, now);
      && ResponseKeys(u.responses, u.nextResponseId)
      && DevicesUnique(u.responses)
      && ResponseIds(responses) <= ResponseIds(u.responses)
      && u.response.id in ResponseIds(u.responses)
  {
    var u := Upsert(responses, next, deviceId, language, now);
    if |SelectByDevice(responses, deviceId)| > 0 {
      var i :| 0 <= i < |responses| && responses[i].deviceId == deviceId;
      UpsertUpdates(responses, next, deviceId, language, now, i);
      ReplaceRowKeepsKeys(responses, next, i, u.response);
    } else {
      UpsertInserts(responses, next, deviceId, language, now);
      AppendRowKeepsKeys(responses, next, u.response);
    }
  }

  /** Overwriting a row with one of the same id and device keeps keys, devices and the id set. */
  lemma ReplaceRowKeepsKeys(rows: seq<ResponseRow>, next: nat, i: nat, row: ResponseRow)
    requires ResponseKeys(rows, next) && DevicesUnique(rows)
    requires i < |rows| && row.id == rows[i].id && row.deviceId == rows[i].deviceId
    ensures ResponseKeys(rows[i := row], next) && DevicesUnique(rows[i := row])
    ensures ResponseIds(rows[i := row]) == ResponseIds(rows)
  {
    var r := rows[i := row];
    assert forall k :: 0 <= k < |rows| ==> r[k].id == rows[k].id && r[k].deviceId == rows[k].deviceId;
  }

  /** Appending a row with the next id and a new device keeps keys and devices unique. */
  lemma AppendRowKeepsKeys(rows: seq<ResponseRow>, next: nat, row: ResponseRow)
    requires ResponseKeys(rows, next) && DevicesUnique(rows)
    requires row.id == next && forall i :: 0 <= i < |rows| ==> rows[i].deviceId != row.deviceId
    ensures ResponseKeys(rows + [row], next + 1) && DevicesUnique(rows + [row])
    ensures ResponseIds(rows + [row]) == ResponseIds(rows) + {row.id}
  {
    var r := rows + [row];
    assert r[|rows|] == row;
    assert forall k :: 0 <= k < |rows| ==> r[k] == rows[k];
  }

  /** Replacing the answers of a stored response keeps the keys and the foreign key. */
  lemma ReplaceConsistent(answers: seq<AnswerRow>, next: nat, before: seq<ResponseRow>, after: seq<ResponseRow>,
                          id: nat, delete: bool, values: seq<AnswerValues>, now: int)
    requires AnswerKeys(answers, next) && References(answers, before)
    requires ResponseIds(before) <= ResponseIds(after) && id in ResponseIds(after)
    requires forall k :: 0 <= k < |values| ==> values[k].responseId == id
    ensures var kept := if delete then DeleteByResponse(answers, id) else answers;
      && AnswerKeys(kept + NewAnswerRows(values, next, now), next + |values|)
      && References(kept + NewAnswerRows(values, next, now), after)
  {
    var kept := if delete then DeleteByResponse(answers, id) else answers;
    var inserted := NewAnswerRows(values, next, now);
    if delete {
      DeleteKeepsKeys(answers, id, next);
      DeleteByResponseMembers(answers, id);
    }
    AppendKeepsKeys(kept, values, next, now);
    var r := kept + inserted;
    forall k | 0 <= k < |r| ensures r[k].responseId in ResponseIds(after) {
      if k < |kept| {
        assert r[k] == kept[k] && kept[k] in answers;
      } else {
        assert r[k] == inserted[k - |kept|];
      }
    }
  }

  /** The transaction keeps the keys, the references and at most one response per device. */
  lemma CommitConsistent(t: Tables, deviceId: string, language: Json, answerList: seq<Json>, now: int)
    requires Consistent(t)
    requires forall i :: 0 <= i < |answerList| ==> EntryOk(answerList[i])
    ensures Consistent(Commit(t, deviceId, language, answerList, now).tables)
  {
    var u := Upsert(t.responses, t.nextResponseId, deviceId, language, now);
    UpsertConsistent(t.responses, t.nextResponseId, deviceId, language, now);
    var values := AnswerValuesOf(answerList, u.response.id);
    ReplaceConsistent(t.answers, t.nextAnswerId, t.responses, u.responses, u.response.id, u.existed, values, now);
  }

  /** After the transaction the returned response's answers are exactly the submitted entries, in order. */
  lemma CommitReplacesAnswers(t: Tables, deviceId: string, language: Json, answerList: seq<Json>, now: int)
    requires WellFormed(t)
    requires forall i :: 0 <= i < |answerList| ==> EntryOk(answerList[i])
    ensures var c := Commit(t, deviceId, language, answerList, now);
      Records(AnswersOf(c.tables.answers, c.response.id), answerList, c.response.id)
  {
    var u := Upsert(t.responses, t.nextResponseId, deviceId, language, now);
    var id := u.response.id;
    var values := AnswerValuesOf(answerList, id);
    var inserted := NewAnswerRows(values, t.nextAnswerId, now);
    AnswersOfNewRows(values, t.nextAnswerId, now, id);
    if u.existed {
      AnswersAfterDelete(t.answers, id, id);
      AnswersOfAppend(DeleteByResponse(t.answers, id), inserted, id);
    } else {
      UpsertInserts(t.responses, t.nextResponseId, deviceId, language, now);
      NoAnswersOf(t.answers, id);
      AnswersOfAppend(t.answers, inserted, id);
    }
    assert AnswersOf(Commit(t, deviceId, language, answerList, now).tables.answers, id) == inserted;
    InsertedRecords(answerList, id, t.nextAnswerId, now);
  }

  /** The rows the insert creates record the validated entries, in order. */
  lemma InsertedRecords(answerList: seq<Json>, id: nat, firstId: nat, now: int)
    requires forall i :: 0 <= i < |answerList| ==> EntryOk(answerList[i])
    ensures Records(NewAnswerRows(AnswerValuesOf(answerList, id), firstId, now), answerList, id)
  {
    var values := AnswerValuesOf(answerList, id);
    var rows := NewAnswerRows(values, firstId, now);
    forall k | 0 <= k < |rows|
      ensures rows[k].answeredTime == Prop(answerList[k], "answeredTime").n
    {
      assert values[k] == ValuesOf(answerList[k], id);
    }
  }

  /** A response id that no answer references selects no answers. */
  lemma {:induction false} NoAnswersOf(answers: seq<AnswerRow>, id: nat)
    requires forall k :: 0 <= k < |answers| ==> answers[k].responseId != id
    ensures AnswersOf(answers, id) == []
  {
    if answers != [] {
      assert answers[0].responseId != id;
      NoAnswersOf(answers[1..], id);
    }
  }

  /** Rows of other devices and answers of other responses are left as they were. */
  lemma CommitLeavesOthers(t: Tables, deviceId: string, language: Json, answerList: seq<Json>, now: int)
    requires forall i :: 0 <= i < |answerList| ==> EntryOk(answerList[i])
    ensures var c := Commit(t, deviceId, language, answerList, now);
      && |t.responses| <= |c.tables.responses|
      && (forall i :: 0 <= i < |t.responses| && t.responses[i].deviceId != deviceId ==>
            c.tables.responses[i] == t.responses[i])
      && (forall id :: id != c.response.id ==> AnswersOf(c.tables.answers, id) == AnswersOf(t.answers, id))
  {
    var u := Upsert(t.responses, t.nextResponseId, deviceId, language, now);
    var values := AnswerValuesOf(answerList, u.response.id);
    var inserted := NewAnswerRows(values, t.nextAnswerId, now);
    AnswersOfNewRows(values, t.nextAnswerId, now, u.response.id);
    forall id | id != u.response.id
      ensures AnswersOf(Commit(t, deviceId, language, answerList, now).tables.answers, id) == AnswersOf(t.answers, id)
    {
      if u.existed {
        AnswersAfterDelete(t.answers, u.response.id, id);
        AnswersOfAppend(DeleteByResponse(t.answers, u.response.id), inserted, id);
      } else {
        AnswersOfAppend(t.answers, inserted, id);
      }
    }
  }

  /** An accepted body commits and replies 200 with the upserted row, which carries the device, language and `now`. */
  lemma HandleAccepted(t: Tables, body: Json, now: int)
    requires Validate(body).Accepted?
    ensures var v := Validate(body);
      var c := Commit(t, v.deviceId, v.language, v.answerList, now);
      && Handle(t, Some(body), now) == Handled(200, Success(Some(c.response)), c.tables)
      && c.response.deviceId == v.deviceId && c.response.language == v.language && c.response.completedAt == now
      && c.response in c.tables.responses
  {
    var v := Validate(body);
    var u := Upsert(t.responses, t.nextResponseId, v.deviceId, v.language, now);
    if u.existed {
      var returned := RowsOfDevice(UpdateByDevice(t.responses, v.deviceId, v.language, now), v.deviceId);
      RowsOfDeviceMembers(UpdateByDevice(t.responses, v.deviceId, v.language, now), v.deviceId);
      assert returned[0] in returned;
    } else {
      assert u.responses[|t.responses|] == u.response;
    }
  }

  /** Every request, accepted or not, leaves consistent tables consistent. */
  lemma HandleConsistent(t: Tables, body: Option<Json>, now: int)
    requires Consistent(t)
    ensures Consistent(Handle(t, body, now).tables)
  {
    if body.Some? && Validate(body.value).Accepted? {
      var v := Validate(body.value);
      CommitConsistent(t, v.deviceId, v.language, v.answerList, now);
    }
  }

  /**
    Submitting twice for one device keeps a single response with the same id
    and leaves exactly the second submission's answers under it.
   */
  lemma ResubmitReplaces(t: Tables, first: Json, second: Json, now1: int, now2: int)
    requires Consistent(t)
    requires Validate(first).Accepted? && Validate(second).Accepted?
    requires Validate(first).deviceId == Validate(second).deviceId
    ensures var h1 := Handle(t, Some(first), now1);
      var h2 := Handle(h1.tables, Some(second), now2);
      && h1.status == 200 && h2.status == 200
      && h2.reply.data.Some? && h1.reply.data.Some?
      && h2.reply.data.value.id == h1.reply.data.value.id
      && |h2.tables.responses| == |h1.tables.responses|
      && Records(AnswersOf(h2.tables.answers, h2.reply.data.value.id), Validate(second).answerList, h2.reply.data.value.id)
  {
    var v1, v2 := Validate(first), Validate(second);
    var d := v1.deviceId;
    var c1 := Commit(t, d, v1.language, v1.answerList, now1);
    HandleAccepted(t, first, now1);
    CommitConsistent(t, d, v1.language, v1.answerList, now1);
    var t1 := c1.tables;
    var j :| 0 <= j < |t1.responses| && t1.responses[j] == c1.response;
    UpsertUpdates(t1.responses, t1.nextResponseId, d, v2.language, now2, j);
    HandleAccepted(t1, second, now2);
    CommitReplacesAnswers(t1, d, v2.language, v2.answerList, now2);
  }

  // ---------------------------------------------------------------------------
  // Concrete consequences of JavaScript truthiness
  // ---------------------------------------------------------------------------

  /** An entry of the documented shape: `{questionKey, answer, answeredTime}`. */
  function Entry(questionKey: Json, answer: Json, answeredTime: Json): Json {
    Object(map["questionKey" := questionKey, "answer" := answer, "answeredTime" := answeredTime])
  }

  /** A body of the documented shape: `{deviceId, language, answers}`. */
  function Body(deviceId: Json, language: Json, answers: Json): Json {
    Object(map["deviceId" := deviceId, "language" := language, "answers" := answers])
  }

  /** An empty answer array passes; an `answeredTime` of 0 is reported missing; a string time is rejected. */
  lemma TruthinessOfEntries()
    ensures EntryFailure(Entry(Str("q1"), Array([]), Number(1700000000000.0))) == None
    ensures EntryFailure(Entry(Str("q1"), Array([Str("yes")]), Number(0.0))) == Some(Rejected(MissingAnsweredTime))
    ensures EntryFailure(Entry(Str("q1"), Array([Str("yes")]), Str("1700000000000"))) == Some(Rejected(AnsweredTimeNotNumber))
    ensures EntryFailure(Entry(Str("q1"), Str("yes"), Number(1.0))) == Some(Rejected(AnswerNotArray))
    ensures EntryFailure(Null) == Some(Crashed)
  {
  }

  /** Any truthy language is accepted and stored, even one `validateLanguage` refuses. */
  lemma LanguageOnlyNeedsTruthiness(t: Tables, language: Json, now: int)
    requires Truthy(language)
    ensures var body := Body(Str("dev1"), language, Array([Entry(Str("q1"), Array([Str("yes")]), Number(1700000000000.0))]));
      var h := Handle(t, Some(body), now);
      h.status == 200 && h.reply.data.Some? && h.reply.data.value.language == language
    ensures !ValidateLanguage(Str("fr")) && Truthy(Str("fr"))
  {
    var entry := Entry(Str("q1"), Array([Str("yes")]), Number(1700000000000.0));
    var body := Body(Str("dev1"), language, Array([entry]));
    assert EntryOk(entry);
    assert AcceptableBody(body);
    HandleAccepted(t, body, now);
  }
}
