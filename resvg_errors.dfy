/** Result codes of the resvg engine, the table that turns them into messages,
    the exception that carries them and the check that raises it
    (foo_svg_services/main.cpp, lines 21-46). */
module ResvgErrors {

  /** The source stores codes as `int32_t`. */
  type Int32 = x: int | -0x8000_0000 <= x < 0x8000_0000

  /** A result code returned by the engine. The numeric values of the named
      `RESVG_*` constants are not visible, so each named constant is its own
      constructor and `Unnamed` stands for any other 32-bit code: a well-formed
      `Unnamed(raw)` has a `raw` different from the value of every named
      constant (those values are not part of this model, so this is not
      checked). */
  datatype ResvgCode =
    | Ok                    // RESVG_OK
    | NotAnUtf8Str          // RESVG_ERROR_NOT_AN_UTF8_STR
    | FileOpenFailed        // RESVG_ERROR_FILE_OPEN_FAILED
    | MalformedGzip         // RESVG_ERROR_MALFORMED_GZIP
    | ElementsLimitReached  // RESVG_ERROR_ELEMENTS_LIMIT_REACHED
    | InvalidSize           // RESVG_ERROR_INVALID_SIZE
    | ParsingFailed         // RESVG_ERROR_PARSING_FAILED
    | Unnamed(raw: Int32)

  /** `resvg_error_messages`: the message of every code the table knows. */
  const ErrorMessages: map<ResvgCode, string> := map[
    NotAnUtf8Str := "Only UTF-8 files are supported",
    FileOpenFailed := "Failed to open the file",
    MalformedGzip := "Compressed SVGs must use Gzip",
    ElementsLimitReached := "Maximum number of elements allowed exceeded",
    InvalidSize := "SVG dimensions are invalid",
    ParsingFailed := "Failed to parse the SVG"
  ]

  /** The message used for a code the table does not contain. */
  const UnknownErrorMessage: string := "Unknown resvg error"

  /** The codes the table knows: exactly the six named error constants. */
  predicate IsKnownError(code: ResvgCode) {
    !code.Ok? && !code.Unnamed?
  }

  /** `exception_resvg`: the message it was built with and the code it keeps. */
  datatype ResvgException = ResvgException(message: string, code: ResvgCode)

  /** Pass, or a failure carrying the raised exception. */
  datatype Outcome<E> = Pass | Fail(error: E)

  /** The constructor of `exception_resvg`: the table's message when the code is
      in the table, the generic message otherwise; the code is kept verbatim. */
  function NewResvgException(code: ResvgCode): (e: ResvgException)
    ensures e.code == code
    ensures IsKnownError(code) ==> e.message == ErrorMessages[code]
    ensures !IsKnownError(code) ==> e.message == UnknownErrorMessage
    ensures e.message != []
  {
    ResvgException(if code in ErrorMessages then ErrorMessages[code] else UnknownErrorMessage, code)
  }

  /** `check_resvg_result`: fails exactly on a code other than `RESVG_OK`, and
      the failure carries that code. */
  function CheckResvgResult(code: ResvgCode): (r: Outcome<ResvgException>)
    ensures r.Pass? <==> code == Ok
    ensures r.Fail? ==> r.error.code == code
    ensures r.Fail? ==> r.error == NewResvgException(code)
  {
    if code != Ok then Fail(NewResvgException(code)) else Pass
  }

  /** The generic message never coincides with a message of the table, and two
      different known codes never share a message: a failure's message alone
      tells which known code caused it, or that the code was not known. */
  lemma MessageIdentifiesKnownCode(c1: ResvgCode, c2: ResvgCode)
    requires c1 != Ok && c2 != Ok
    ensures CheckResvgResult(c1).error.message == UnknownErrorMessage <==> !IsKnownError(c1)
    ensures IsKnownError(c1) && CheckResvgResult(c1).error.message == CheckResvgResult(c2).error.message
      ==> c1 == c2
  {
  }

  /** The message for each named error constant, as the table spells it. */
  lemma KnownMessages()
    ensures CheckResvgResult(NotAnUtf8Str) == Fail(ResvgException("Only UTF-8 files are supported", NotAnUtf8Str))
    ensures CheckResvgResult(FileOpenFailed) == Fail(ResvgException("Failed to open the file", FileOpenFailed))
    ensures CheckResvgResult(MalformedGzip) == Fail(ResvgException("Compressed SVGs must use Gzip", MalformedGzip))
    ensures CheckResvgResult(ElementsLimitReached)
      == Fail(ResvgException("Maximum number of elements allowed exceeded", ElementsLimitReached))
    ensures CheckResvgResult(InvalidSize) == Fail(ResvgException("SVG dimensions are invalid", InvalidSize))
    ensures CheckResvgResult(ParsingFailed) == Fail(ResvgException("Failed to parse the SVG", ParsingFailed))
    ensures forall raw: Int32 :: CheckResvgResult(Unnamed(raw)) == Fail(ResvgException(UnknownErrorMessage, Unnamed(raw)))
  {
  }
}
