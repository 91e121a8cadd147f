/** What the Flask layer hands to, and takes back from, a route. */
module Http {
  /** The parsed `Authorization: Basic` header (`request.authorization`). */
  datatype Credentials = Credentials(username: string, password: string)

  /**
   * A route's reply: 401 with an empty body, 400 with an error message, an
   * exception the route does not catch (500), or 200 with its payload.
   */
  datatype Response<+T, +E> = Unauthorized | BadRequest(error: E) | ServerError | Ok(value: T)
}
