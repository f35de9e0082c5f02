/** The JSON values the scripts read out of API responses, with Python's
    `str(...)` and `int(...)` applied to them. */
module Json {
  import opened Py
  import opened Decimal

  datatype Scalar = Str(s: string) | Int(i: int) | Bool(b: bool) | Null

  /** A JSON object as `json` decodes it: an asset, a source search entry. */
  type Entity = map<string, Scalar>

  /** `str(v)` */
  function StrOf(v: Scalar): string {
    match v
    case Str(s) => s
    case Int(i) => IntToString(i)
    case Bool(b) => if b then "True" else "False"
    case Null => "None"
  }

  /** `int(v)`: strings are parsed, booleans count as 0 or 1, `None` is a
      `TypeError`. */
  function IntOf(v: Scalar): Result<int> {
    match v
    case Str(s) => if ParseInt(s).Some? then Ok(ParseInt(s).value) else Raise(ValueError)
    case Int(i) => Ok(i)
    case Bool(b) => Ok(if b then 1 else 0)
    case Null => Raise(TypeError)
  }

  /** An integer that went through `str` reads back through `int`. */
  lemma IntOfStrOf(i: int)
    ensures IntOf(Str(StrOf(Int(i)))) == Ok(i)
  {
    ParseIntToString(i);
  }
}
