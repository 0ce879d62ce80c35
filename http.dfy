/**
 * The action results the controllers return. Each constructor stands for the
 * HTTP status the framework maps it to; transport details are not modelled.
 */
module Http {

  datatype Response<T> =
    | Ok(value: T)                   // 200, Ok(...) or a plain returned value
    | Created(value: T)              // 201, CreatedAtAction(...)
    | NoContent                      // 204
    | BadRequest(message: string)    // 400
    | Unauthorized(message: string)  // 401
    | NotFound                       // 404
    | Conflict(message: string)      // 409

}
