/** What a live fragment throws: a DOMException with code 8 (NotFoundError)
    or 9 (NotSupportedError), and, from the constructor only, the TypeError
    that the JavaScript runtime raises when it reads a property of a null
    parent. */
module Exceptions {
  import opened Dom

  datatype Error = NotFoundError | NotSupportedError | TypeError
  {
    predicate IsDomException()
    {
      NotFoundError? || NotSupportedError?
    }

    /** The DOMException code. */
    function Code(): int
      requires IsDomException()
    {
      if NotFoundError? then 8 else 9
    }

    /** The DOMException name. */
    function Name(): string
      requires IsDomException()
    {
      if NotFoundError? then "NotFoundError" else "NotSupportedError"
    }
  }

  /** The table of codes the fragment knows: 8 and 9, each with its name. */
  function ExceptionFor(code: int): (e: Option<Error>)
    ensures e.Some? <==> code == 8 || code == 9
    ensures e.Some? ==> e.value.IsDomException() && e.value.Code() == code
    ensures code == 8 ==> e.Some? && e.value.Name() == "NotFoundError"
    ensures code == 9 ==> e.Some? && e.value.Name() == "NotSupportedError"
  {
    if code == 8 then Some(NotFoundError)
    else if code == 9 then Some(NotSupportedError)
    else None
  }

  datatype Result<T> = Ok(value: T) | Err(error: Error)
}
