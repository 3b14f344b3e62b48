/** `ErrorHandler`: an in-memory log of the page's script errors and unhandled rejections. */
module ErrorLog {
  import opened Chars

  datatype ErrorKind = ScriptError | UnhandledRejection

  /** One logged record; the fields an event does not supply are `None`. */
  datatype ErrorEntry = ErrorEntry(
    kind: ErrorKind, message: string, filename: Option<string>, line: Option<int>,
    column: Option<int>, stack: Option<string>, timestamp: string)

  class ErrorHandler {
    var errors: seq<ErrorEntry>

    /** A fresh handler starts with an empty log. */
    constructor ()
      ensures errors == []
    {
      errors := [];
    }

    /** `logError`: appends exactly one entry after all earlier ones. */
    method LogError(e: ErrorEntry)
      modifies this
      ensures errors == old(errors) + [e]
      ensures |errors| == |old(errors)| + 1 && errors[..|old(errors)|] == old(errors)
    {
      errors := errors + [e];
    }

    /** `getErrors`: the entries logged since the last clear, oldest first. */
    method GetErrors() returns (r: seq<ErrorEntry>)
      ensures r == errors
    {
      r := errors;
    }

    /** `clearErrors`: the log is empty afterwards. */
    method ClearErrors()
      modifies this
      ensures errors == []
    {
      errors := [];
    }
  }

  /** Logging two entries keeps them in the order they were logged. */
  method LogTwiceKeepsOrder(h: ErrorHandler, a: ErrorEntry, b: ErrorEntry) returns (r: seq<ErrorEntry>)
    modifies h
    ensures r == old(h.errors) + [a, b]
  {
    h.LogError(a);
    h.LogError(b);
    r := h.GetErrors();
  }
}
