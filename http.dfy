/**
 * What the services see of the web framework: the exceptions they throw
 * (each becomes an HTTP status), the JWT payload that authentication puts on
 * the request, and the request object itself, on which middleware, guards and
 * interceptors read and write.
 */
module Http {
  import opened Wrappers
  import Store

  /**
   * The framework's HTTP exceptions, by status, with their message.
   * `Fault` is any other error (a database error, a `TypeError`, a JSON
   * `SyntaxError`, a TypeORM `TransactionNotStartedError`): it is not an
   * HTTP exception. The application's filters turn a TypeORM
   * `QueryFailedError` into a 400 response (its message says a duplicate key
   * when the database reports one, a database error otherwise) and replace
   * the message of a `Forbidden`; every other `Fault` reaches the client as
   * a 500 response. The filters' response bodies are not modelled.
   */
  datatype Exception =
    | BadRequest(message: string)
    | Unauthorized(message: string)
    | Forbidden(message: string)
    | NotFound(message: string)
    | InternalServerError(message: string)
    | Fault(name: string)

  type Outcome<T> = Result<T, Exception>

  /**
   * A JWT payload as the token library returns it: every claim may be
   * missing. `role` is the numeric `Role` enum value; `exp` is the expiry in
   * epoch seconds.
   */
  datatype Payload = Payload(sub: Option<int>, role: Option<int>, tokenType: Option<string>, exp: Option<int>)

  /**
   * The per-request object. `queryRunner` and `isTransactionSuccess` are the
   * properties the transaction interceptor attaches; `user` is set by the
   * bearer-token middleware; `httpMethod` (`req.method`), `path` and the `Authorization` header
   * come from the client.
   */
  class Request {
    const httpMethod: string
    const path: string
    const authorization: Option<string>
    var user: Option<Payload>
    var queryRunner: Store.QueryRunner?
    var isTransactionSuccess: bool

    constructor (httpMethod: string, path: string, authorization: Option<string>)
      ensures this.httpMethod == httpMethod && this.path == path && this.authorization == authorization
      ensures user == None && queryRunner == null && !isTransactionSuccess
    {
      this.httpMethod := httpMethod;
      this.path := path;
      this.authorization := authorization;
      user := None;
      queryRunner := null;
      isTransactionSuccess := false;
    }
  }
}
