/** The closed set of outcomes of loading and saving a mesh, the table of their
    messages, and the two small outcome records `parse_error` and `write_error`. */
module Errors {

  /** The error kinds, in declaration order; `None` is success. */
  datatype ErrorCode =
    | None
    | FileNotFound
    | FileAlreadyExists
    | UnknownIoError
    | UnsupportedFormat
    | InvalidData
    | InvalidFilepath

  /** The enumerator's underlying value (`static_cast<std::size_t>`). */
  function Ordinal(c: ErrorCode): (n: nat)
    ensures n < |Messages|
    ensures c == None <==> n == 0
  {
    match c
    case None => 0
    case FileNotFound => 1
    case FileAlreadyExists => 2
    case UnknownIoError => 3
    case UnsupportedFormat => 4
    case InvalidData => 5
    case InvalidFilepath => 6
  }

  /** The enumerator with a given underlying value, when there is one. */
  function FromOrdinal(n: nat): (c: ErrorCode)
    requires n < |Messages|
    ensures Ordinal(c) == n
  {
    [None, FileNotFound, FileAlreadyExists, UnknownIoError, UnsupportedFormat, InvalidData, InvalidFilepath][n]
  }

  /** The message table, indexed by ordinal. */
  const Messages: seq<string> := [
    "None",
    "The file or directory does not exist",
    "The specified file already exists",
    "An unknown I/O error occurred",
    "The file format is not supported",
    "Read data is invalid, the file might be corrupted",
    "The provided filepath is not valid"
  ]

  /** `format_error`: the table entry at the code's ordinal. */
  function FormatError(c: ErrorCode): (m: string)
    ensures m == Messages[Ordinal(c)]
    ensures m == "None" <==> c == None
  {
    Messages[Ordinal(c)]
  }

  /** Every code has its own message, so a message identifies its code. */
  lemma {:induction false} FormatErrorInjective(c1: ErrorCode, c2: ErrorCode)
    ensures FormatError(c1) == FormatError(c2) ==> c1 == c2
  {
    if FormatError(c1) == FormatError(c2) {
      var i, j := Ordinal(c1), Ordinal(c2);
      assert Messages[i] == Messages[j];
      assert FromOrdinal(i) == c1 && FromOrdinal(j) == c2;
    }
  }

  /** Outcome of a load. A default-constructed value has code `None`. */
  datatype ParseError = ParseError(code: ErrorCode) {

    /** `explicit operator bool`: true exactly when something went wrong. */
    predicate IsError()
      ensures IsError() <==> Message() != "None"
    {
      code != None
    }

    /** `operator!`, the negation of the conversion to bool. */
    predicate Not()
      ensures Not() <==> code == None
    {
      !IsError()
    }

    /** `operator==`: compares the codes, which is all there is to compare. */
    predicate Equals(other: ParseError)
      ensures Equals(other) <==> this == other
    {
      code == other.code
    }

    /** `operator!=`. */
    predicate NotEquals(other: ParseError)
      ensures NotEquals(other) <==> code != other.code
    {
      !Equals(other)
    }

    /** `operator=(error_code)`: the same record with its code replaced. */
    function Assign(c: ErrorCode): (r: ParseError)
      ensures r.code == c
      ensures r.IsError() <==> c != None
    {
      this.(code := c)
    }

    /** `message()`. */
    function Message(): (m: string)
      ensures m == Messages[Ordinal(code)]
    {
      FormatError(code)
    }
  }

  /** `parse_error{}`. */
  function DefaultParseError(): (e: ParseError)
    ensures e.code == None && !e.IsError() && e.Message() == "None"
  {
    ParseError(None)
  }

  /** Outcome of a save; the same shape as `ParseError`. */
  datatype WriteError = WriteError(code: ErrorCode) {

    predicate IsError()
      ensures IsError() <==> Message() != "None"
    {
      code != None
    }

    predicate Not()
      ensures Not() <==> code == None
    {
      !IsError()
    }

    predicate Equals(other: WriteError)
      ensures Equals(other) <==> this == other
    {
      code == other.code
    }

    predicate NotEquals(other: WriteError)
      ensures NotEquals(other) <==> code != other.code
    {
      !Equals(other)
    }

    function Assign(c: ErrorCode): (r: WriteError)
      ensures r.code == c
      ensures r.IsError() <==> c != None
    {
      this.(code := c)
    }

    function Message(): (m: string)
      ensures m == Messages[Ordinal(code)]
    {
      FormatError(code)
    }
  }

  /** `write_error{}`. */
  function DefaultWriteError(): (e: WriteError)
    ensures e.code == None && !e.IsError() && e.Message() == "None"
  {
    WriteError(None)
  }
}
