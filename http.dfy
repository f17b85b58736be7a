/** What a request handler decides before it touches the database: either it goes on to call a
    stored procedure (or run a query) with the given arguments, or it answers the request at
    once with an HTTP status code and a message. */
module Http {

  datatype Decision<+A> = Ok(args: A) | Err(status: nat, message: string)

  const BadRequest: nat := 400
  const Forbidden: nat := 403
  const NotFound: nat := 404
  const Conflict: nat := 409
  const ServerError: nat := 500
}
