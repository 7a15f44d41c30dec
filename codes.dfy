/** The client's result codes (the class constants of `LanZouCloud`) and the uncaught Python
    exceptions that some operations can raise. */
module Codes {

  datatype Code =
    | Failed | Success | IdError | PasswordError | LackPassword | ZipError
    | MkdirError | UrlInvalid | FileCancelled | PathError | NetworkError
  {
    /** The integer the source returns for this code. */
    function Value(): (v: int)
      ensures -1 <= v <= 9
      ensures v == 0 <==> this == Success
    {
      match this
      case Failed => -1
      case Success => 0
      case IdError => 1
      case PasswordError => 2
      case LackPassword => 3
      case ZipError => 4
      case MkdirError => 5
      case UrlInvalid => 6
      case FileCancelled => 7
      case PathError => 8
      case NetworkError => 9
    }
  }

  /** An exception the source does not catch: it escapes to the caller instead of a result code. */
  datatype Fault =
    | IndexOutOfRange     // IndexError: `fn_list[-2]` of a name without a separator, `file_list[0]` of an empty list
    | NotAnInteger        // ValueError raised by `int(...)`
    | NoResponseObject    // AttributeError: `.text` / `.headers` read from a request that returned None
    | MissingKey          // KeyError: a field absent from a server reply, or a redirect without `Location`
    | DateOutOfRange      // OverflowError: a `timedelta` or a date outside what Python's `datetime` holds

  datatype Outcome<T> = Done(value: T) | Raised(fault: Fault)

  /** The values of a loop that has already produced `xs`, put in front of what the rest of it
      produces; an exception raised later still escapes. */
  function Prepend<T>(xs: seq<T>, o: Outcome<seq<T>>): (r: Outcome<seq<T>>)
    ensures r.Raised? <==> o.Raised?
  {
    match o
    case Done(v) => Done(xs + v)
    case Raised(f) => Raised(f)
  }

  lemma PrependNothing<T>(o: Outcome<seq<T>>)
    ensures Prepend([], o) == o
  {
    if o.Done? {
      assert [] + o.value == o.value;
    }
  }

  lemma PrependTwice<T>(xs: seq<T>, ys: seq<T>, o: Outcome<seq<T>>)
    ensures Prepend(xs, Prepend(ys, o)) == Prepend(xs + ys, o)
  {
    if o.Done? {
      assert xs + (ys + o.value) == (xs + ys) + o.value;
    }
  }

  lemma CodeValuesDistinct(a: Code, b: Code)
    requires a.Value() == b.Value()
    ensures a == b
  {
  }
}
