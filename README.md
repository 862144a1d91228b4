# Survey response backend: a Dafny model of the submit and check-device paths

This project models the core of a small survey backend. Clients first ask
`/check-device` whether a device has already submitted. They then post their
answers to `/submit-response`. That handler:

- validates the body with an ordered chain of checks that stops at the first failure;
- then runs one transaction that upserts the device's row in `responses` and replaces
  that response's rows in `answers`.

Modules, one per source file:

- `JsValue` (json.dfy): the JavaScript values a parsed request body can hold, plus
  `undefined`. It defines truthiness (`!x`), `typeof`, `Array.isArray` and property
  reads. Reading a property of `null` or `undefined` is a precondition; each handler
  checks it first and models the resulting `TypeError` as a crash.
- `Validator` (src/utils/validator.js): `validateDeviceId`, `validateLanguage`,
  `validateAnswerContent`.
- `ApiResponse` (src/utils/response.js) and `DistApiResponse` (dist/utils/response.js):
  the `{ code, message, data }` envelope builders and their default arguments.
- `Schema` (src/db/schema.js): the `responses` and `answers` rows, the pure `Tables`
  value, and a `Store` class holding both tables and their `serial` counters.
  `Store` has one method per SQL statement the transaction issues: the read-only
  select by device, update-returning, insert-response, delete-answers and insert-answers. It also defines the pure query
  functions those statements are specified by, and the database invariants: primary
  keys and the `response_id` foreign key.
- `SubmitRoute` (src/routes/submit.js):
  - the answer-checking loop `CheckAnswers`, proved equal to `FirstFailure`;
  - `ValidateBody`, proved equal to the pure chain `Validate`;
  - `Transaction`, proved equal to the pure `Commit`;
  - the handler `Submit`, proved equal to the pure `Handle`, which gives the HTTP
    status, the envelope and the tables afterwards;
  - lemmas about `Handle` and `Commit`.
- `CheckRoute` (src/routes/check.js): `CheckDevice`, a read-only function of the
  tables and the request body, and how it composes with a submission.

The request body is `Option<Json>`. `None` means `c.req.json()` threw. The clock
`new Date()` is the parameter `now`.

Behaviour of the code worth knowing:

- `validateLanguage` is never called. `language` is only checked for truthiness
  (src/routes/submit.js:29-31), so any truthy value is stored.
- Each `answeredTime` must be a non-zero number (src/routes/submit.js:48-54). It is
  stored as given.
- `/check-device` answers an invalid id with the error envelope, code 1, and HTTP
  status 200 (src/routes/check.js:15-17).

## Model

| member | source | states |
|---|---|---|
| Validator.ValidateDeviceId | src/utils/validator.js:2-7 | true exactly when the value is a non-empty string; false for null, undefined, "", numbers, booleans, arrays and objects |
| Validator.Includes | src/utils/validator.js:12 | `list.includes(v)` on strings is true exactly when `v` is a string equal to some element |
| Validator.ValidateLanguage | src/utils/validator.js:10-13 | true exactly when the value is "zh", "en" or "ja" |
| Validator.ValidateAnswerContent | src/utils/validator.js:16-21 | true exactly for arrays and objects (empty ones too); false for null, undefined, strings, numbers and booleans |
| Validator.EmptyArrayIsAnswerContent | src/utils/validator.js:17-20 | `[]` is accepted; null, a string and a number are refused |
| ApiResponse.Success | src/utils/response.js:2-8 | code 0, the given message, the given data unchanged |
| ApiResponse.Error | src/utils/response.js:11-17 | the given code and message, data null |
| ApiResponse.Defaults | src/utils/response.js:2-17 | with no arguments: success gives data null and "success"; error gives code 1 and "error" |
| ApiResponse.CodeSeparates | src/utils/response.js:2-17 | an error built with any code other than 0 differs from every success envelope in its code |
| DistApiResponse.DistSuccess | dist/utils/response.js:2-8 | code 200, the given message, the given data unchanged |
| DistApiResponse.DistError | dist/utils/response.js:11-17 | the status becomes the code, with the given message and data null |
| DistApiResponse.DistDefaults | dist/utils/response.js:2-17 | with no arguments: success gives data null and "success"; error gives code 500 and "error" |
| DistApiResponse.DistDiffersOnlyInCode | dist/utils/response.js:2-17 | the variant builds the same envelopes as src/utils/response.js except for the success code (200) and the default error code (500) |
| Schema.SelectByDevice | src/routes/submit.js:60-64 | the limit-1 select returns at most one row; it is empty exactly when no stored row has the device id; otherwise it is a stored row with that id |
| Schema.UpdateByDevice | src/routes/submit.js:69-76 | the update keeps the table's length; every row with the device id gets the new language and completedAt; every other row is unchanged |
| Schema.RowsOfDevice | src/routes/submit.js:76 | the rows `returning()` yields are empty exactly when no row has the device id |
| Schema.RowsOfDeviceMembers | src/routes/submit.js:69-76 | the returned rows are exactly the stored rows with the device id |
| Schema.DeleteByResponse | src/routes/submit.js:79-81 | the delete never grows the table |
| Schema.DeleteByResponseMembers | src/routes/submit.js:79-81 | the rows left are exactly the stored answers whose responseId differs from the deleted id |
| Schema.AnswersOfMembers | src/db/schema.js:15 | selecting answers by responseId returns exactly the stored answers of that response |
| Schema.AnswersOfAppend | src/routes/submit.js:102 | appending rows appends their answers of each response after the existing ones |
| Schema.AnswersAfterDelete | src/routes/submit.js:79-81 | after the delete the response has no answers, and every other response keeps exactly its answers |
| Schema.AnswersOfNewRows | src/routes/submit.js:95-102 | inserted rows all belong to the response they were built for, and to no other |
| Schema.DeleteKeepsKeys | src/routes/submit.js:79-81 | the delete keeps answer ids distinct and below the sequence value |
| Schema.AppendKeepsKeys | src/routes/submit.js:102 | inserting serially numbered rows keeps answer ids distinct, with the sequence advanced past them |
| Schema.Store.constructor | src/db/schema.js:4-20 | the store starts with both tables empty and both sequences at 1, which is consistent |
| Schema.Store.UpdateResponses | src/routes/submit.js:69-76 | the responses table becomes the update of the old one; the returned rows are those with the device id; nothing else changes |
| Schema.Store.InsertResponse | src/routes/submit.js:84-91 | exactly one row is appended, with the next id, the device, the language and created/completed at `now`; the sequence advances by one |
| Schema.Store.DeleteAnswers | src/routes/submit.js:79-81 | the answers table becomes the old one without the response's rows; nothing else changes |
| Schema.Store.InsertAnswers | src/routes/submit.js:102 | the new rows are appended with consecutive ids; the answer sequence advances by their number |
| SubmitRoute.EntryFailure | src/routes/submit.js:38-55 | an entry passes exactly when it is an object with a truthy questionKey, an array answer and a non-zero number answeredTime; a null entry crashes |
| SubmitRoute.FirstFailure | src/routes/submit.js:38-55 | no failure is reported exactly when every entry passes |
| SubmitRoute.FirstFailureIsFirst | src/routes/submit.js:38-55 | a reported failure is that of some entry, and every entry before it passed |
| SubmitRoute.CheckAnswers | src/routes/submit.js:38-55 | the loop returns the first entry's failure, and none exactly when every entry passes |
| SubmitRoute.Validate | src/routes/submit.js:19-55 | a body is accepted exactly when all checks pass; the accepted fields are the body's deviceId (a non-empty string), its truthy language and its non-empty, all-valid answers |
| SubmitRoute.ValidationOrder | src/routes/submit.js:22-55 | each body-level message appears exactly when every earlier check passed and its own check failed; past those, the first failing entry decides |
| SubmitRoute.EntryCheckOrder | src/routes/submit.js:39-54 | within an entry, each of the five messages appears exactly when the checks before it passed and its own check failed |
| SubmitRoute.ValidateBody | src/routes/submit.js:19-55 | the early-return chain computes exactly the validation verdict |
| SubmitRoute.Handle | src/routes/submit.js:10-111 | status 200 exactly for acceptable bodies; every other outcome is 400 or 500 with data null and leaves both tables unchanged; 500 exactly when a null body or null entry makes a property read throw; an unparsable body gets 400 with the invalid-format message; a rejected body gets 400 with the message of the first failing check |
| SubmitRoute.Refusal | src/routes/submit.js:22-54 | a refused request leaves the tables unchanged and replies with data null and the envelope code equal to the HTTP status: 400 with the check's message, or 500 with "提交答卷失败" when a property read threw |
| SubmitRoute.Submit | src/routes/submit.js:10-112 | the handler's status, reply and new tables are those of `Handle`; consistent tables stay consistent |
| SubmitRoute.Transaction | src/routes/submit.js:58-105 | the statements leave the tables and return the row that `Commit` describes |
| Schema.Store.SelectResponses | src/routes/submit.js:60-64 | the select changes nothing and returns at most one row; it is empty exactly when no stored row has the device id |
| Schema.NewAnswerRows | src/routes/submit.js:102 | the bulk insert makes one row per value; the serial ids are strictly increasing and lie in `[first, first + count)`; each row carries its value's responseId, questionKey, content and time, created at `now` |
| SubmitRoute.ValuesOf | src/routes/submit.js:95-100 | a validated entry maps to the response id, its questionKey, its answer array's items (which rebuild the submitted array) and its answeredTime |
| SubmitRoute.AnswerValuesOf | src/routes/submit.js:95-100 | `answerList.map` gives one value per entry, in order, each owned by the response and carrying the entry's questionKey and answer |
| SubmitRoute.Upsert | src/routes/submit.js:60-92 | the device existed exactly when some stored row has its id; the returned row carries the device, the new language and completedAt `now`; an existing device adds no row; a new one appends exactly the returned row, with the next id |
| SubmitRoute.Commit | src/routes/submit.js:58-105 | the returned row carries the device, the language and completedAt `now`; the answer sequence advances by the number of entries; an existing device keeps the response count and sequence; a new device appends exactly the returned row with the next id |
| SubmitRoute.UpdatedRowReturned | src/routes/submit.js:69-76 | when the device is stored, `[response] = ... returning()` gets a row of that device carrying the new language and completedAt |
| SubmitRoute.InsertedRecords | src/routes/submit.js:95-102 | the inserted rows record the validated entries in order: same count, response id, questionKey, answer and answeredTime |
| SubmitRoute.UpsertInserts | src/routes/submit.js:82-91 | for an unknown device, exactly one row is appended, with a fresh id, the device, the language and both timestamps `now` |
| SubmitRoute.UpsertUpdates | src/routes/submit.js:67-76 | for a known device, its row keeps id and createdAt; only language and completedAt change; no row is added |
| SubmitRoute.UpsertConsistent | src/routes/submit.js:60-92 | the upsert keeps response keys and at most one response per device; it only adds ids, and the returned row's id is stored (`HandleAccepted` proves the row itself is stored) |
| SubmitRoute.ReplaceConsistent | src/routes/submit.js:78-102 | the delete then the insert keep answer keys, and every answer references a stored response |
| SubmitRoute.CommitConsistent | src/routes/submit.js:58-105 | the transaction preserves the keys, the foreign key and at most one response per device |
| SubmitRoute.CommitReplacesAnswers | src/routes/submit.js:78-102 | afterwards the returned response's answers are exactly the submitted entries in order (same count, questionKey, answer and answeredTime), not old plus new |
| SubmitRoute.CommitLeavesOthers | src/routes/submit.js:60-104 | rows of other devices keep their place and value, and every other response keeps exactly its answers |
| SubmitRoute.HandleAccepted | src/routes/submit.js:58-107 | an accepted body replies 200 with the upserted row, which is stored and carries the device, the language and completedAt `now` |
| SubmitRoute.HandleConsistent | src/routes/submit.js:10-112 | every request, accepted or not, leaves consistent tables consistent |
| SubmitRoute.ResubmitReplaces | src/routes/submit.js:60-104 | a second accepted submission for the same device reuses the response id, adds no response row, and leaves exactly the second list of answers |
| SubmitRoute.TruthinessOfEntries | src/routes/submit.js:42-53 | an empty answer array passes; answeredTime 0 is "missing"; a string time is "not a number"; a string answer is "not an array"; a null entry crashes |
| SubmitRoute.LanguageOnlyNeedsTruthiness | src/routes/submit.js:29-31 | any truthy language is accepted and stored, even "fr", which `validateLanguage` refuses |
| CheckRoute.CheckDevice | src/routes/check.js:10-33 | an unparsable or null body gives "检查设备失败" with code 1; an invalid id gives "无效的设备ID" with code 1; otherwise code 0 with `hasSubmitted` true exactly when some stored response has that device id |
| CheckRoute.CheckBeforeSubmit | src/routes/check.js:20-28 | a device with no stored response is reported as not submitted |
| CheckRoute.CheckAfterSubmit | src/routes/check.js:20-28 | after an accepted submission, the device is reported as submitted |

## Left out

- HTTP framing, routing, CORS, the 404 and error handlers, and the API documentation page. They have no logic of their own. `Submit` returns the status it passes to `c.json`; `CheckDevice` always answers with HTTP 200, so the model returns only its envelope.
- Storage failures and their catch paths (src/routes/submit.js:108-111, src/routes/check.js:29-31). A real transaction would roll back. Only the catch caused by a `TypeError` on a null body or a null entry is modelled.
- The database clients, the connection pool, environment configuration and the admin scripts (init, reset, connection tests). They are foreign library calls and file or SQL I/O.
- Column types and limits. Values are stored as given: a truthy non-string `language` or `questionKey` is not coerced to varchar, and lengths are not checked.
- The conversion of `answeredTime` into the timestamp column. The model stores the submitted number.
- The clock. `now` is a parameter. The database default for `created_at` and the handler's `new Date()` for `completed_at` get the same value, though they are two different clocks in the running system.
- Concurrency. Two concurrent submissions for one device could both insert a row. The model runs each submission as one sequential step, so this race is not represented.
- The order of `RETURNING` rows. The update changes every row with the device id, and the model returns the first in table order. With one response per device, that row is unique.
- JSON parsing. The body arrives already parsed, or as a parse failure. Duplicate keys and prototype-named keys are not modelled, and numbers are exact reals rather than doubles.
- Validator.ValidateLanguage: the model includes it, but neither route calls it, so it has no effect on the routes' behaviour.
