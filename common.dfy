/** Values shared by every handler of the store: optional request fields,
    JavaScript truthiness, table rows and the outcome a handler answers with. */
module Common {

  datatype Option<+T> = None | Some(value: T)

  /** `!x` in JavaScript is false for a missing field and for 0. */
  predicate TruthyInt(x: Option<int>) {
    x.Some? && x.value != 0
  }

  /** `!s` in JavaScript is false for a missing field and for the empty string. */
  predicate TruthyText(s: Option<string>) {
    s.Some? && s.value != ""
  }

  /** A table row: its primary key and its columns. */
  datatype Row<+V> = Row(id: int, value: V)

  /** Which table a 404 is about. */
  datatype Entity = CustomerEntity | PizzaEntity | OrderEntity

  /** Why a request was rejected with 400; each reason is a distinct message in the source. */
  datatype Reason = MissingFields | NotPositive | BadSize | BadEmail | BadStatus

  datatype Failure =
    | BadRequest(reason: Reason)
    | NotFound(entity: Entity)
    | Conflict

  /** What a handler answers: a record with 201 or 200, or an error status. */
  datatype Outcome<+T> = Created(value: T) | Ok(value: T) | Fail(failure: Failure)
  {
    function StatusCode(): (code: int)
      ensures Created? <==> code == 201
      ensures Ok? <==> code == 200
      ensures Fail? <==> code >= 400
      ensures Fail? && failure.BadRequest? ==> code == 400
      ensures Fail? && failure.NotFound? ==> code == 404
      ensures Fail? && failure.Conflict? ==> code == 409
    {
      match this
      case Created(_) => 201
      case Ok(_) => 200
      case Fail(BadRequest(_)) => 400
      case Fail(NotFound(_)) => 404
      case Fail(Conflict) => 409
    }
  }
}
