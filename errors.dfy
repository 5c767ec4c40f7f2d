/**
 * The application's error type (src/models/errors.rs): two variants, each
 * with a text payload, a display text and an HTTP status code.
 */
module Errors {
  import opened Wrappers

  datatype AppError = InternalServerError(message: string) | CrosswordNotFound(id: string)

  const InternalPrefix: string := "Something went wrong: "
  const NotFoundPrefix: string := "Could not find crossword for id: "

  /** HTTP status codes used by `to_status_code`. */
  const InternalServerErrorCode: int := 500
  const NotFoundCode: int := 404

  predicate IsPrefix(p: string, s: string) {
    |p| <= |s| && s[..|p|] == p
  }

  /** `impl fmt::Display for AppError`: a fixed prefix followed by the payload. */
  function Display(e: AppError): (s: string)
    ensures e.InternalServerError? ==> IsPrefix(InternalPrefix, s) && s[|InternalPrefix|..] == e.message
    ensures e.CrosswordNotFound? ==> IsPrefix(NotFoundPrefix, s) && s[|NotFoundPrefix|..] == e.id
  {
    match e
    case InternalServerError(message) => InternalPrefix + message
    case CrosswordNotFound(id) => NotFoundPrefix + id
  }

  /** `to_status_code`: 500 for an internal error, 404 for a missing crossword. */
  function ToStatusCode(e: AppError): (code: int)
    ensures code == InternalServerErrorCode <==> e.InternalServerError?
    ensures code == NotFoundCode <==> e.CrosswordNotFound?
  {
    match e
    case InternalServerError(_) => InternalServerErrorCode
    case CrosswordNotFound(_) => NotFoundCode
  }

  /**
   * `impl From<String> for AppError`: the string becomes the message unchanged.
   * The conversions of blocking, JSON, pool, HTTP-client and integer-parse
   * errors are this one applied to the foreign error's display text.
   */
  function FromString(error: string): (e: AppError)
    ensures ToStatusCode(e) == InternalServerErrorCode
    ensures Display(e) == InternalPrefix + error
  {
    InternalServerError(error)
  }

  /** `impl From<SelectorErrorKind>`: the selector error's text behind "Invalid selector: ". */
  function FromSelectorError(text: string): (e: AppError)
    ensures ToStatusCode(e) == InternalServerErrorCode
    ensures Display(e) == InternalPrefix + "Invalid selector: " + text
  {
    InternalServerError("Invalid selector: " + text)
  }

  /**
   * Reads an error back from its display text; the inverse of Display, used to
   * show that the display text loses no information.
   */
  function ParseDisplay(s: string): (r: Option<AppError>)
    ensures r.Some? ==> Display(r.value) == s
  {
    if IsPrefix(InternalPrefix, s) then Some(InternalServerError(s[|InternalPrefix|..]))
    else if IsPrefix(NotFoundPrefix, s) then Some(CrosswordNotFound(s[|NotFoundPrefix|..]))
    else None
  }

  /** The display text determines the error: parsing it back yields the same error. */
  lemma DisplayRoundTrip(e: AppError)
    ensures ParseDisplay(Display(e)) == Some(e)
  {
    match e
    case InternalServerError(m) =>
      assert IsPrefix(InternalPrefix, Display(e));
    case CrosswordNotFound(id) =>
      var s := Display(e);
      assert s[0] == 'C';
      assert !IsPrefix(InternalPrefix, s) by { assert InternalPrefix[0] == 'S'; }
  }

  /** Two different errors never display the same text. */
  lemma DisplayInjective(e1: AppError, e2: AppError)
    requires Display(e1) == Display(e2)
    ensures e1 == e2
  {
    DisplayRoundTrip(e1);
    DisplayRoundTrip(e2);
  }
}
