/** The Python values the client's methods receive and the exceptions they raise. */
module Values {
  import opened Calendar

  /** An argument as the client sees it: a `datetime`, a `str`, `None`, or
      anything else (an `int`, a `date`, ...), kept only by its printed form. */
  datatype Value =
    | DateTimeVal(d: DateTime)
    | StrVal(s: string)
    | NoneVal
    | OtherVal(repr: string)

  /** Why Python refused to bind a call's arguments to a signature. */
  datatype CallError =
    | UnexpectedKeyword(keyword: string)
    | MultipleValues(keyword: string)
    | TooManyPositional(accepted: nat, given: nat)
    | MissingArguments(missing: seq<string>)

  datatype Error =
    | MissingKey(key: string)                                  // KeyError
    | UnboundName                                              // UnboundLocalError on `name`
    | UnknownParameter(param: string, valid: seq<string>)      // ValueError of get_param_info
    | NotDateOrString(arg: Value)                              // TypeError of the date helper
    | InvalidDate(text: string)                                // ValueError of strptime
    | FormatNotString(arg: Value)                              // TypeError of response_format
    | InvalidFormat(fmt: string, accepted: seq<string>)        // ValueError of response_format
    | BadCall(reason: CallError)                               // TypeError of argument binding

  datatype ExceptionClass = TypeError | ValueError | KeyError | UnboundLocalError

  /** The Python exception class each error is raised as. */
  function ClassOf(e: Error): ExceptionClass {
    match e
    case MissingKey(_) => KeyError
    case UnboundName => UnboundLocalError
    case UnknownParameter(_, _) => ValueError
    case NotDateOrString(_) => TypeError
    case InvalidDate(_) => ValueError
    case FormatNotString(_) => TypeError
    case InvalidFormat(_, _) => ValueError
    case BadCall(_) => TypeError
  }
}
