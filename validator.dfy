/** The field validators of src/utils/validator.js. */
module Validator {
  import opened JsValue

  /** `validateDeviceId`: false for a falsy value or a non-string. */
  function ValidateDeviceId(deviceId: Json): (ok: bool)
    ensures ok <==> deviceId.Str? && deviceId.s != ""
  {
    !(!Truthy(deviceId) || TypeOf(deviceId) != "string")
  }

  /** The languages `validateLanguage` accepts, in the order the source lists them. */
  const ValidLanguages: seq<string> := ["zh", "en", "ja"]

  /** `list.includes(v)` for a list of strings: strict equality, so only a string can match. */
  function Includes(list: seq<string>, v: Json): (found: bool)
    ensures found <==> exists i :: 0 <= i < |list| && v == Str(list[i])
  {
    if list == [] then false
    else v == Str(list[0]) || Includes(list[1..], v)
  }

  /** `validateLanguage` */
  function ValidateLanguage(language: Json): (ok: bool)
    ensures ok <==> language == Str("zh") || language == Str("en") || language == Str("ja")
  {
    Includes(ValidLanguages, language)
  }

  /** `validateAnswerContent`: a truthy value whose `typeof` is "object". */
  function ValidateAnswerContent(content: Json): (ok: bool)
    ensures ok <==> content.Array? || content.Object?
  {
    !(!Truthy(content) || TypeOf(content) != "object")
  }

  /** An empty array is accepted as answer content, because arrays are truthy. */
  lemma EmptyArrayIsAnswerContent()
    ensures ValidateAnswerContent(Array([]))
    ensures !ValidateAnswerContent(Null) && !ValidateAnswerContent(Str("A"))
    ensures !ValidateAnswerContent(Number(1.0))
  {
  }
}
