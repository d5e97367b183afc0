/** Values shared by the backend handlers and the frontend view: optional request
    fields, the JSON responses the handlers send, and the JavaScript truthiness
    tests the handlers apply to request data. */
module Http {

  /** A request field that may be absent (`undefined` or `null` in the request). */
  datatype Option<+T> = None | Some(value: T)

  /** What a handler answers: a success status with its JSON body, or an error
      status with the `{ message }` body every handler uses for its failures. */
  datatype Response<+T> = Success(status: nat, value: T) | Failure(status: nat, message: string)

  const InternalError := "Internal server error."

  /** JavaScript truthiness of a string field: absent and `""` are falsy. */
  predicate Filled(s: Option<string>)
    ensures !Filled(s) <==> s == None || s == Some("")
  {
    s.Some? && s.value != ""
  }

  /** JavaScript truthiness of a numeric identity: absent and `0` are falsy. */
  predicate TruthyId(id: Option<int>)
    ensures !TruthyId(id) <==> id == None || id == Some(0)
  {
    id.Some? && id.value != 0
  }
}
