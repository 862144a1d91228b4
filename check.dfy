/**
  The `/check-device` handler of src/routes/check.js: validate the device id,
  run one read-only existence query, wrap the answer with `success`. The
  handler always answers with HTTP status 200; only the envelope's code differs.
 */
module CheckRoute {
  import opened Wrappers
  import opened JsValue
  import opened Validator
  import opened ApiResponse
  import opened Schema
  import SubmitRoute

  const CheckFailed := "检查设备失败"

  /** The `data` of a successful reply: `{ hasSubmitted }`. */
  datatype Checked = Checked(hasSubmitted: bool)

  /**
    A body that does not parse, or parses to null, makes the destructuring throw,
    and the catch answers with the generic failure. An invalid id is refused
    before any query runs. Both errors carry the default code.
   */
  function CheckDevice(t: Tables, body: Option<Json>): (reply: Envelope<Checked>)
    ensures body.None? || Nullish(body.value) ==> reply == Envelope(DefaultErrorCode, CheckFailed, None)
    ensures body.Some? && !Nullish(body.value) && !ValidateDeviceId(Prop(body.value, "deviceId")) ==>
      reply == Envelope(DefaultErrorCode, SubmitRoute.InvalidDeviceId, None)
    ensures reply.code == SuccessCode <==>
      body.Some? && !Nullish(body.value) && Prop(body.value, "deviceId").Str? && Prop(body.value, "deviceId").s != ""
    ensures reply.code == SuccessCode ==>
      && reply.message == "success"
      && reply.data == Some(Checked(exists i :: 0 <= i < |t.responses| && Str(t.responses[i].deviceId) == Prop(body.value, "deviceId")))
  {
    match body
    case None => Error(CheckFailed)
    case Some(b) =>
      if Nullish(b) then Error(CheckFailed)
      else
        var deviceId := Prop(b, "deviceId");
        if !ValidateDeviceId(deviceId) then Error(SubmitRoute.InvalidDeviceId)
        else
          var existingResponse := SelectByDevice(t.responses, deviceId.s);
          Success(Some(Checked(|existingResponse| > 0)))
  }

  /** The request body `{ deviceId }`. */
  function DeviceBody(deviceId: string): Json {
    Object(map["deviceId" := Str(deviceId)])
  }

  /** A device with no stored response is reported as not submitted. */
  lemma CheckBeforeSubmit(t: Tables, deviceId: string)
    requires deviceId != ""
    requires forall i :: 0 <= i < |t.responses| ==> t.responses[i].deviceId != deviceId
    ensures CheckDevice(t, Some(DeviceBody(deviceId))) == Success(Some(Checked(false)))
  {
  }

  /** After an accepted submission the device is reported as submitted. */
  lemma CheckAfterSubmit(t: Tables, body: Json, now: int)
    requires SubmitRoute.Validate(body).Accepted?
    ensures var after := SubmitRoute.Handle(t, Some(body), now).tables;
      CheckDevice(after, Some(DeviceBody(SubmitRoute.Validate(body).deviceId))) == Success(Some(Checked(true)))
  {
    var v := SubmitRoute.Validate(body);
    SubmitRoute.HandleAccepted(t, body, now);
    var c := SubmitRoute.Commit(t, v.deviceId, v.language, v.answerList, now);
    var i :| 0 <= i < |c.tables.responses| && c.tables.responses[i] == c.response;
    assert Str(c.tables.responses[i].deviceId) == Prop(DeviceBody(v.deviceId), "deviceId");
  }
}
