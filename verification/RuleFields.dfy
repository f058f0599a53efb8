/** The fields of a bucket-rule request that hold numbers, and the errors a request can get. */
module RuleFields {
  import opened Common

  /** A number in a request: missing, not a number, or a number. */
  datatype Num = Absent | NotInt | Int(n: int)

  datatype Error = InvalidArgument | MalformedXML | InvalidRequest

  datatype Result<T> = Ok(value: T) | Err(error: Error)

  function PositiveInt(v: Num): Result<nat> {
    if v.Int? && v.n > 0 then Ok(v.n) else Err(InvalidArgument)
  }

  function OptionalInt(v: Num): Result<Option<nat>> {
    if v.Absent? then Ok(None)
    else
      match PositiveInt(v)
      case Ok(n) => Ok(Some(n))
      case Err(e) => Err(e)
  }
}
