/** The `@QueryRunner()` parameter decorator: the request's transaction handle. */
module QueryRunnerDecorator {
  import opened Wrappers
  import Store
  import Http

  const MissingRunnerMessage := "Query Runner 객체를 찾을 수 없습니다."

  /**
   * The runner the transaction interceptor put on the request; a missing
   * request or runner is a server-side mistake (500).
   */
  function GetQueryRunner(req: Http.Request?): (r: Http.Outcome<Store.QueryRunner>)
    reads req
    ensures r.Ok? <==> req != null && req.queryRunner != null
    ensures r.Ok? ==> r.value == req.queryRunner
    ensures r.Err? ==> r.error == Http.InternalServerError(MissingRunnerMessage)
  {
    if req == null || req.queryRunner == null then Err(Http.InternalServerError(MissingRunnerMessage))
    else Ok(req.queryRunner)
  }
}
