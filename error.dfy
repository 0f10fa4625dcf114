/** The error type of the core crate and its `Result` alias. */
module Errors {

  /** The closed set of failures the core reports. */
  datatype Error =
    | EmptyPattern
      /** Regex compilation failed; carries the engine's diagnostic. */
    | Regex(diagnostic: string)
    | InvalidSpan
      /** An ad-hoc error holding its own message. */
    | Custom(message: string)
  {
    /** The `Display` text of the error. */
    function ToString(): string {
      match this
      case EmptyPattern => "empty pattern"
      case Regex(_) => "regex error"
      case InvalidSpan => "invalid span"
      case Custom(message) => message
    }
  }

  /** The core's `Result<T>`; `:-` plays the part of Rust's `?`. */
  datatype Result<+T> = Ok(value: T) | Err(error: Error) {
    predicate IsFailure() {
      Err?
    }

    function PropagateFailure<U>(): Result<U>
      requires Err?
    {
      Err(error)
    }

    function Extract(): T
      requires Ok?
    {
      value
    }
  }

  /** Any foreign error value, seen through its `Display` text. */
  datatype ForeignError = ForeignError(description: string) {
    function ToString(): string {
      description
    }
  }

  /** `Error::custom(val)`. */
  function MakeCustom(val: string): (e: Error)
    ensures e.Custom? && e.ToString() == val
  {
    Custom(val)
  }

  /** `Error::custom_from_err(err)`: keeps only the foreign error's text. */
  function CustomFromErr(err: ForeignError): (e: Error)
    ensures e.Custom? && e.ToString() == err.ToString()
  {
    Custom(err.ToString())
  }

  /** The `From<String>`, `From<&String>` and `From<&str>` conversions. */
  function FromText(val: string): (e: Error)
    ensures e.Custom? && e.ToString() == val
  {
    Custom(val)
  }

  /** The three fixed variants display distinct texts, none of which depends on a payload. */
  lemma FixedDisplays(e: Error, d1: string, d2: string)
    ensures EmptyPattern.ToString() == "empty pattern"
    ensures Regex(d1).ToString() == Regex(d2).ToString() == "regex error"
    ensures InvalidSpan.ToString() == "invalid span"
    ensures !e.Custom? && e.ToString() == "empty pattern" ==> e == EmptyPattern
    ensures !e.Custom? && e.ToString() == "invalid span" ==> e == InvalidSpan
    ensures !e.Custom? && e.ToString() == "regex error" ==> e.Regex?
  {
  }

  /** The unit tests of the error module, stated on the model. */
  lemma ErrorModuleTests()
    ensures MakeCustom("something went wrong").Custom?
    ensures MakeCustom("something went wrong").ToString() == "something went wrong"
    ensures CustomFromErr(ForeignError("io error")).Custom?
    ensures CustomFromErr(ForeignError("io error")).ToString() == "io error"
    ensures FromText("string error").Custom? && FromText("string error").ToString() == "string error"
    ensures FromText("str error").Custom? && FromText("str error").ToString() == "str error"
  {
  }
}
