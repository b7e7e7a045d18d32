/** What an ASP.NET controller action hands back: a 200 with a body, a
    problem result, or an exception the action does not catch. */
module Web {
  import opened Wrappers
  import opened Domain

  const BadRequest := 400

  datatype Reply<+T> =
    | Ok(body: T)
    | Problem(title: string, detail: string, statusCode: int)
    | Thrown(error: Exception)

  /** `try { return Ok(...) } catch (ArgumentException ex) { return Problem(...) }`:
      an argument exception, including an `ArgumentNullException`, becomes
      a "Bad Input" problem naming the exception type and message; any other
      exception escapes. */
  function CatchBadInput<T>(r: Result<T, Exception>): (reply: Reply<T>)
    ensures r.Success? <==> reply.Ok?
    ensures r.Success? ==> reply.body == r.value
    ensures reply.Problem? <==> r.Failure? && r.error.IsArgumentException()
    ensures reply.Problem? ==> reply.statusCode == BadRequest && reply.title == "Bad Input"
    ensures reply.Problem? ==> reply.detail == r.error.TypeName() + ": " + r.error.Message()
    ensures reply.Thrown? ==> r == Failure(reply.error)
  {
    match r
    case Success(v) => Ok(v)
    case Failure(e) =>
      if e.IsArgumentException() then Problem("Bad Input", e.TypeName() + ": " + e.Message(), BadRequest)
      else Thrown(e)
  }

  /** What a caller reads in the detail, for every exception the action can
      meet: the type name, ": ", the caller's message and, when a parameter
      is named, its trailing "(Parameter '...')". Exceptions that are not
      argument exceptions escape unchanged. */
  lemma BadInputDetail<T>(e: Exception)
    ensures e.ArgumentException? && e.paramName.None? ==>
      CatchBadInput<T>(Failure(e)) == Problem("Bad Input", "ArgumentException: " + e.message, BadRequest)
    ensures e.ArgumentException? && e.paramName.Some? ==>
      CatchBadInput<T>(Failure(e)) ==
        Problem("Bad Input", "ArgumentException: " + e.message + " (Parameter '" + e.paramName.value + "')", BadRequest)
    ensures e.ArgumentNullException? ==>
      var reply := CatchBadInput<T>(Failure(e));
      var head := "ArgumentNullException: ";
      var tail := "(Parameter '" + e.nullParam + "')";
      && reply.Problem? && reply.statusCode == BadRequest
      && |head| + |tail| <= |reply.detail|
      && reply.detail[..|head|] == head
      && reply.detail[|reply.detail| - |tail|..] == tail
    ensures !e.IsArgumentException() ==> CatchBadInput<T>(Failure(e)) == Thrown(e)
  {
  }
}
