/**
 * What the route handlers share: the error responses they return (an HTTP
 * status and the JSON `error` text) and the reading of the `grade` query
 * parameter.
 */
module Http {
  import opened Wrappers

  datatype ApiError = ApiError(status: int, message: string)

  const BadRequest := 400
  const Unauthorized := 401
  const Conflict := 409
  const ServerError := 500

  /**
   * `grade && grade !== 'all'`: the grade a query filters on, if any. A
   * missing parameter, an empty one and `all` all mean every grade.
   */
  function GradeFilter(grade: Option<string>): (g: Option<string>)
    ensures g.Some? <==> grade.Some? && grade.value != "" && grade.value != "all"
    ensures g.Some? ==> g == grade
  {
    if grade.Some? && grade.value != "" && grade.value != "all" then grade else None
  }
}
