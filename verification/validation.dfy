/** Field-level input errors, as a request-schema validator reports them: every
    failing field of one request is listed, in declaration order. */
module Validation {

  /** The fixed length of a member code (codice fiscale). */
  const CfLength := 16

  datatype FieldError =
    | BadCf              // the code is not exactly 16 characters once stripped
    | BadHour            // the hour is outside 10..21
    | BadCategory        // the category is not one of the enumeration's names
    | NegativeBeds
    | NegativeUmbrellas
    | EmptyName
    | EmptySurname

  /** The error list contributed by one field check. */
  function Check(ok: bool, e: FieldError): (r: seq<FieldError>)
    ensures e in r <==> !ok
    ensures |r| <= 1
  {
    if ok then [] else [e]
  }
}
