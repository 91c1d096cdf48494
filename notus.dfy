/** The Notus notification the specifications report configuration errors to. */
module Notus {

  /** An accumulator of error messages, added to in place and never cleared. */
  class Notification {
    var errors: seq<string>

    constructor ()
      ensures errors == []
    {
      errors := [];
    }

    predicate HasErrors(): (r: bool)
      reads this
      ensures r <==> |errors| > 0
    {
      errors != []
    }

    predicate IncludesError(message: string): (r: bool)
      reads this
      ensures r <==> exists i :: 0 <= i < |errors| && errors[i] == message
    {
      message in errors
    }

    method AddError(message: string)
      modifies this
      ensures errors == old(errors) + [message]
    {
      errors := errors + [message];
    }
  }
}
