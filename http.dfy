/**
  The JSON envelope every route answers with: `{ success, message?, ...payload }`
  together with its HTTP status code. A missing `message` is the empty string.
*/
module Http {

  datatype Reply<+T> =
    | Success(status: nat, message: string, body: T)   // success: true
    | Failure(status: nat, message: string)            // success: false

  /** `res.json(...)` without an explicit status. */
  const OK: nat := 200
  const CREATED: nat := 201
  const BAD_REQUEST: nat := 400
  const UNAUTHORIZED: nat := 401
  const NOT_FOUND: nat := 404
  const SERVER_ERROR: nat := 500

  const SERVER_ERROR_MESSAGE: string := "Server error"
}
