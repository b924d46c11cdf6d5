/** Identifiers, optional values and HTTP outcomes shared by every module of the model. */
module Common {

  /** Primary keys of the User, Recipe and Ingredient tables. */
  type UserId = nat
  type RecipeId = nat
  type IngredientId = nat

  datatype Option<T> = None | Some(value: T) {
    function GetOr(default: T): T {
      match this
      case Some(v) => v
      case None => default
    }
  }

  /** The status codes the views answer with: 201, 204, 400 and 404. */
  datatype Status = Created | NoContent | BadRequest | NotFound

  /** A response: its status and the detail message the client sees ("" when the body is empty
      or is a serialized object). */
  datatype Response = Response(status: Status, detail: string)

  /** Either a value or the error response that ends the request
      (a raised ValidationError, NotFound or Http404). */
  datatype Result<T> = Success(value: T) | Failure(response: Response)
}
