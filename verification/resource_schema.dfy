/** The REST resource service's request schemas for field and pool bookings.
    The date validator raises an HTTP error directly instead of a validation error,
    so a bad date aborts validation and is the only error reported; otherwise every
    failing field constraint is collected. */
module ResourceSchema {
  import opened Outcomes
  import opened Calendar
  import opened Text
  import opened Validation
  import opened Bookings

  /** A field-booking request body as received. */
  datatype CampoBookingInput = CampoBookingInput(cf: string, date: CalendarDate, hour: int, category: string)

  /** A validated field-booking request: stripped code, parsed category. */
  datatype CampoBooking = CampoBooking(cf: string, date: CalendarDate, hour: int, category: Category)

  /** A pool-booking request body as received. */
  datatype PiscinaBookingInput = PiscinaBookingInput(cf: string, date: CalendarDate, beds: int, umbrellas: int)

  /** A validated pool-booking request: stripped code, non-negative units, an
      in-season future date. */
  datatype PiscinaBooking = PiscinaBooking(cf: string, date: CalendarDate, beds: int, umbrellas: int)

  predicate CfShapeOk(cf: string) {
    |Strip(cf)| == CfLength
  }

  function CampoFieldErrors(b: CampoBookingInput): seq<FieldError> {
    Check(CfShapeOk(b.cf), BadCf)
    + Check(InOpeningHours(b.hour), BadHour)
    + Check(ParseCategory(b.category).Some?, BadCategory)
  }

  /** `CampoBooking`: a past or present date is rejected first; otherwise the code
      must be 16 characters once stripped, the hour within 10..21 and the category
      one of the three names, and every violated constraint is reported. */
  function ValidateCampo(b: CampoBookingInput, today: CalendarDate): (r: Result<CampoBooking, LedgerError>)
    ensures !IsFuture(b.date, today) ==> r == Err(DateNotFuture)
    ensures r.Ok? <==> && IsFuture(b.date, today) && CfShapeOk(b.cf) && InOpeningHours(b.hour)
                       && ParseCategory(b.category).Some?
    ensures r.Ok? ==> && r.value.cf == Strip(b.cf) && |r.value.cf| == CfLength
                      && r.value.date == b.date && r.value.hour == b.hour
                      && CategoryName(r.value.category) == b.category
    ensures IsFuture(b.date, today) && r.Err? ==>
              && r.error.InvalidFields?
              && (BadCf in r.error.errors <==> !CfShapeOk(b.cf))
              && (BadHour in r.error.errors <==> !InOpeningHours(b.hour))
              && (BadCategory in r.error.errors <==> ParseCategory(b.category).None?)
  {
    if !IsFuture(b.date, today) then Err(DateNotFuture)
    else
      var errors := CampoFieldErrors(b);
      if |errors| > 0 then Err(InvalidFields(errors))
      else Ok(CampoBooking(Strip(b.cf), b.date, b.hour, ParseCategory(b.category).value))
  }

  function PiscinaFieldErrors(b: PiscinaBookingInput): seq<FieldError> {
    Check(CfShapeOk(b.cf), BadCf)
    + Check(b.beds >= 0, NegativeBeds)
    + Check(b.umbrellas >= 0, NegativeUmbrellas)
  }

  /** `PiscinaBooking`: the date must be in the future and then inside the season
      (each failure aborting validation on its own); otherwise the code must be 16
      characters once stripped and both counts non-negative. */
  function ValidatePiscina(b: PiscinaBookingInput, today: CalendarDate): (r: Result<PiscinaBooking, LedgerError>)
    ensures !IsFuture(b.date, today) ==> r == Err(DateNotFuture)
    ensures IsFuture(b.date, today) && !InSeason(b.date) ==> r == Err(OutOfSeason)
    ensures r.Ok? <==> && IsFuture(b.date, today) && InSeason(b.date) && CfShapeOk(b.cf)
                       && b.beds >= 0 && b.umbrellas >= 0
    ensures r.Ok? ==> r.value == PiscinaBooking(Strip(b.cf), b.date, b.beds, b.umbrellas)
    ensures IsFuture(b.date, today) && InSeason(b.date) && r.Err? ==>
              && r.error.InvalidFields?
              && (BadCf in r.error.errors <==> !CfShapeOk(b.cf))
              && (NegativeBeds in r.error.errors <==> b.beds < 0)
              && (NegativeUmbrellas in r.error.errors <==> b.umbrellas < 0)
  {
    if !IsFuture(b.date, today) then Err(DateNotFuture)
    else if !InSeason(b.date) then Err(OutOfSeason)
    else
      var errors := PiscinaFieldErrors(b);
      if |errors| > 0 then Err(InvalidFields(errors))
      else Ok(PiscinaBooking(Strip(b.cf), b.date, b.beds, b.umbrellas))
  }
}
