/** The REST resource service's endpoints on the booking ledger. Each request body
    is validated by its schema first; the endpoint then asks the member service and
    applies the same table logic as the GraphQL variant. The free-capacity endpoint
    is the one place where the two variants compute different answers. */
module RestLedger {
  import opened Outcomes
  import opened Calendar
  import opened Text
  import opened Validation
  import opened Bookings
  import opened ResourceSchema
  import GqlLedger

  // ------------------------------------------------------------------ fields

  /** `POST /resources/campo`: schema validation, then membership (404, or 503 when
      the member service cannot be reached), then the slot (409); only then is one
      row added, under the stripped and uppercased code. */
  function AddCampo(l: Ledger, today: CalendarDate, member: Membership, b: CampoBookingInput): (r: Result<Ledger, LedgerError>)
    ensures ValidateCampo(b, today).Err? ==> r == Err(ValidateCampo(b, today).error)
    ensures ValidateCampo(b, today).Ok? && member == Absent ==> r == Err(MemberUnknown)
    ensures ValidateCampo(b, today).Ok? && member == Unreachable ==> r == Err(MemberServiceUnreachable)
    ensures r == Err(SlotTaken) <==>
              && ValidateCampo(b, today).Ok? && member == Exists
              && SlotBooked(l.fields, b.date, b.hour, ParseCategory(b.category).value)
    ensures r.Ok? ==> && ParseCategory(b.category).Some?
                      && r.value == Ledger(l.fields + [FieldBooking(Upper(Strip(b.cf)), b.date, b.hour,
                                                                    ParseCategory(b.category).value)], l.pools)
  {
    match ValidateCampo(b, today)
    case Err(e) => Err(e)
    case Ok(v) =>
      match MemberGate(member)
      case Fail(e) => Err(e)
      case Pass => InsertField(l, Upper(v.cf), v.date, v.hour, v.category)
  }

  /** On a request its schema accepts, the REST endpoint and the GraphQL mutation
      give the same answer on every ledger; they differ only in which error comes
      first on a bad request. */
  lemma AddCampoAgreesWithGraphql(l: Ledger, today: CalendarDate, member: Membership, b: CampoBookingInput)
    requires ValidateCampo(b, today).Ok?
    ensures var v := ValidateCampo(b, today).value;
            AddCampo(l, today, member, b) == GqlLedger.AddCampo(l, today, member, v.cf, v.date, v.hour, v.category)
  {
  }

  /** Every invariant the GraphQL mutation keeps is kept by the REST endpoint too. */
  lemma AddCampoKeepsConsistent(l: Ledger, today: CalendarDate, member: Membership, b: CampoBookingInput)
    requires Consistent(l)
    ensures var r := AddCampo(l, today, member, b);
            r.Ok? ==> Consistent(r.value)
  {
    if ValidateCampo(b, today).Ok? {
      var v := ValidateCampo(b, today).value;
      AddCampoAgreesWithGraphql(l, today, member, b);
      GqlLedger.AddCampoKeepsConsistent(l, today, member, v.cf, v.date, v.hour, v.category);
    }
  }

  /** A member with a past date on the GraphQL side learns the date is wrong only
      after the membership check; the REST schema rejects the date before asking. */
  lemma ErrorOrderDiffers(l: Ledger, today: CalendarDate, b: CampoBookingInput)
    requires !IsFuture(b.date, today)
    ensures AddCampo(l, today, Absent, b) == Err(DateNotFuture)
    ensures GqlLedger.AddCampo(l, today, Absent, b.cf, b.date, b.hour, Tennis) == Err(MemberUnknown)
  {
  }

  /** `DELETE /resources/campo`: the body passes the same schema as a booking (so a
      booking dated today or earlier can no longer be cancelled), then the row equal
      to the stripped, uppercased request is removed or the booking is not found. */
  function DeleteCampo(l: Ledger, today: CalendarDate, b: CampoBookingInput): (r: Result<Ledger, LedgerError>)
    ensures !IsFuture(b.date, today) ==> r == Err(DateNotFuture)
    ensures ValidateCampo(b, today).Err? ==> r == Err(ValidateCampo(b, today).error)
    ensures ValidateCampo(b, today).Ok? ==>
              var row := FieldBooking(Upper(Strip(b.cf)), b.date, b.hour, ParseCategory(b.category).value);
              && (r.Ok? <==> row in l.fields)
              && (r.Err? ==> r.error == BookingNotFound)
              && (r.Ok? ==> r.value.pools == l.pools
                            && multiset(r.value.fields) == multiset(l.fields) - multiset{row}
                            && exists k :: && 0 <= k < |l.fields| && l.fields[k] == row && row !in l.fields[..k]
                                           && r.value.fields == l.fields[..k] + l.fields[k + 1..])
  {
    match ValidateCampo(b, today)
    case Err(e) => Err(e)
    case Ok(v) => CancelField(l, v.cf, v.date, v.hour, v.category)
  }

  // -------------------------------------------------------------------- pool

  /** The first pool row of date `d`, as `filter(data).first()` returns it. */
  function FirstOn(pools: seq<PoolBooking>, d: Date): (r: Option<PoolBooking>)
    ensures r.None? <==> forall i :: 0 <= i < |pools| ==> pools[i].date != d
    ensures r.Some? ==> exists k :: 0 <= k < |pools| && pools[k] == r.value && r.value.date == d
                          && forall i :: 0 <= i < k ==> pools[i].date != d
  {
    if |pools| == 0 then None
    else if pools[0].date == d then Some(pools[0])
    else
      var rest := FirstOn(pools[1..], d);
      assert rest.Some? ==> exists k :: 0 < k < |pools| && pools[k] == rest.value && rest.value.date == d
                                          && forall i :: 0 <= i < k ==> pools[i].date != d by {
        if rest.Some? {
          var k :| 0 <= k < |pools[1..]| && pools[1..][k] == rest.value && rest.value.date == d
                   && forall i :: 0 <= i < k ==> pools[1..][i].date != d;
          assert pools[k + 1] == rest.value;
          assert forall i :: 0 <= i < k + 1 ==> pools[i].date != d by {
            forall i | 0 <= i < k + 1 ensures pools[i].date != d {
              if i > 0 { assert pools[i] == pools[1..][i - 1]; }
            }
          }
        }
      }
      rest
  }

  /** `GET /resources/piscinalibera/{data}` as written: full capacity when the date
      has no booking, otherwise the capacity minus the units of the FIRST booking of
      that date only. */
  function GetPiscina(l: Ledger, d: Date): (r: PoolAvailability)
    ensures (forall i :: 0 <= i < |l.pools| ==> l.pools[i].date != d) ==>
              r == PoolAvailability(BedCapacity, UmbrellaCapacity)
    ensures (exists i :: 0 <= i < |l.pools| && l.pools[i].date == d) ==>
              exists k :: && 0 <= k < |l.pools| && l.pools[k].date == d
                          && (forall i :: 0 <= i < k ==> l.pools[i].date != d)
                          && r == PoolAvailability(BedCapacity - l.pools[k].beds, UmbrellaCapacity - l.pools[k].umbrellas)
  {
    match FirstOn(l.pools, d)
    case Some(p) => PoolAvailability(BedCapacity - p.beds, UmbrellaCapacity - p.umbrellas)
    case None => PoolAvailability(BedCapacity, UmbrellaCapacity)
  }

  /** `POST /resources/piscina`: schema validation, membership, the beds cap, the
      umbrellas cap, then the one-per-member-and-date check; only then one row is
      added under the stripped and uppercased code. */
  function AddPiscina(l: Ledger, today: CalendarDate, member: Membership, b: PiscinaBookingInput): (r: Result<Ledger, LedgerError>)
    ensures ValidatePiscina(b, today).Err? ==> r == Err(ValidatePiscina(b, today).error)
    ensures ValidatePiscina(b, today).Ok? && member == Absent ==> r == Err(MemberUnknown)
    ensures ValidatePiscina(b, today).Ok? && member == Unreachable ==> r == Err(MemberServiceUnreachable)
    ensures ValidatePiscina(b, today).Ok? && member == Exists ==>
              var cf := Upper(Strip(b.cf));
              && (BedsOn(l.pools, b.date) + b.beds > BedCapacity ==>
                    r == Err(BedsExceeded(BedCapacity - BedsOn(l.pools, b.date))))
              && (BedsOn(l.pools, b.date) + b.beds <= BedCapacity
                  && UmbrellasOn(l.pools, b.date) + b.umbrellas > UmbrellaCapacity ==>
                    r == Err(UmbrellasExceeded(UmbrellaCapacity - UmbrellasOn(l.pools, b.date))))
              && (r == Err(AlreadyReserved) <==>
                    && BedsOn(l.pools, b.date) + b.beds <= BedCapacity
                    && UmbrellasOn(l.pools, b.date) + b.umbrellas <= UmbrellaCapacity
                    && HasReservation(l.pools, cf, b.date))
    ensures r.Ok? ==> r.value == Ledger(l.fields, l.pools + [PoolBooking(Upper(Strip(b.cf)), b.date, b.beds, b.umbrellas)])
  {
    match ValidatePiscina(b, today)
    case Err(e) => Err(e)
    case Ok(v) =>
      match MemberGate(member)
      case Fail(e) => Err(e)
      case Pass => InsertPool(l, Upper(v.cf), v.date, v.beds, v.umbrellas)
  }

  /** A successful REST pool booking keeps every ledger invariant: the schema's sign
      check is what lets the caps survive later cancellations. It agrees with the
      GraphQL mutation (with or without the sign check) on every accepted request. */
  lemma AddPiscinaKeepsConsistent(l: Ledger, today: CalendarDate, member: Membership, b: PiscinaBookingInput)
    requires Consistent(l)
    ensures var r := AddPiscina(l, today, member, b);
            r.Ok? ==> Consistent(r.value)
    ensures ValidatePiscina(b, today).Ok? ==>
              var v := ValidatePiscina(b, today).value;
              && AddPiscina(l, today, member, b)
                 == GqlLedger.AddPiscina(l, today, member, v.cf, v.date, v.beds, v.umbrellas)
              && AddPiscina(l, today, member, b)
                 == GqlLedger.AddPiscinaChecked(l, today, member, v.cf, v.date, v.beds, v.umbrellas)
  {
    InsertPoolKeepsCaps(l, Upper(Strip(b.cf)), b.date, b.beds, b.umbrellas);
  }

  /** With the free capacity computed from the date's sums, what the query reports
      is exactly what `POST /resources/piscina` then lets a member book. */
  lemma FreePoolPredictsAddPiscina(l: Ledger, today: CalendarDate, b: PiscinaBookingInput)
    requires Consistent(l)
    requires ValidatePiscina(b, today).Ok?
    ensures var r := AddPiscina(l, today, Exists, b);
            var free := FreePool(l.pools, b.date);
            && (r.Err? && r.error.BedsExceeded? <==> b.beds > free.beds)
            && (r.Err? && r.error.BedsExceeded? ==> r.error.available == free.beds)
            && (b.beds <= free.beds ==>
                  && (r.Err? && r.error.UmbrellasExceeded? <==> b.umbrellas > free.umbrellas)
                  && (r.Err? && r.error.UmbrellasExceeded? ==> r.error.available == free.umbrellas))
  {
    assert BedsOn(l.pools, b.date) <= BedCapacity && UmbrellasOn(l.pools, b.date) <= UmbrellaCapacity;
  }

  /** `DELETE /resources/piscina`: after schema validation, only a row equal in
      code, date, beds and umbrellas is removed; otherwise 404. */
  function DeletePiscina(l: Ledger, today: CalendarDate, b: PiscinaBookingInput): (r: Result<Ledger, LedgerError>)
    ensures ValidatePiscina(b, today).Err? ==> r == Err(ValidatePiscina(b, today).error)
    ensures ValidatePiscina(b, today).Ok? ==>
              var row := PoolBooking(Upper(Strip(b.cf)), b.date, b.beds, b.umbrellas);
              && (r.Ok? <==> row in l.pools)
              && (r.Err? ==> r.error == BookingNotFound)
              && (r.Ok? ==> r.value.fields == l.fields
                            && multiset(r.value.pools) == multiset(l.pools) - multiset{row}
                            && exists k :: && 0 <= k < |l.pools| && l.pools[k] == row && row !in l.pools[..k]
                                           && r.value.pools == l.pools[..k] + l.pools[k + 1..])
  {
    match ValidatePiscina(b, today)
    case Err(e) => Err(e)
    case Ok(v) => CancelPool(l, v.cf, v.date, v.beds, v.umbrellas)
  }

  // ------------------------------------------------------------------- purge

  /** The status `DELETE /resources/prenotazioni/{cf}` answers with: the route
      declares none, so the framework's default for a successful call applies. */
  const PurgeStatus := 200

  datatype PurgeReply = PurgeReply(ledger: Ledger, status: int)

  /** `DELETE /resources/prenotazioni/{cf}`: every field and pool booking whose code
      equals `cf` exactly is deleted, all others stay, and the reply is a plain
      success. */
  function DeletePrenotazioni(l: Ledger, cf: string): (r: PurgeReply)
    ensures r.status == PurgeStatus
    ensures forall b :: b in r.ledger.fields <==> b in l.fields && b.cf != cf
    ensures forall p :: p in r.ledger.pools <==> p in l.pools && p.cf != cf
    ensures forall b :: multiset(r.ledger.fields)[b] == if b.cf == cf then 0 else multiset(l.fields)[b]
    ensures forall p :: multiset(r.ledger.pools)[p] == if p.cf == cf then 0 else multiset(l.pools)[p]
  {
    PurgeCounts(l, cf);
    PurgeReply(Purge(l, cf), PurgeStatus)
  }

  /** The rows the route keeps stay in table order: purging two stretches of each
      table separately and joining them is purging the joined tables. */
  lemma DeletePrenotazioniKeepsOrder(a: Ledger, b: Ledger, cf: string)
    ensures var whole := DeletePrenotazioni(Ledger(a.fields + b.fields, a.pools + b.pools), cf).ledger;
            var ra := DeletePrenotazioni(a, cf).ledger;
            var rb := DeletePrenotazioni(b, cf).ledger;
            whole == Ledger(ra.fields + rb.fields, ra.pools + rb.pools)
  {
    PurgeConcat(a, b, cf);
  }

  // ---------------------------------------------------------------- finding

  lemma ScenarioSecondBookingAccepted()
    ensures var a := PoolBooking(GqlLedger.CodeA, GqlLedger.ScenarioDay, 30, 5);
            var b := PoolBooking(GqlLedger.CodeB, GqlLedger.ScenarioDay, 30, 5);
            AddPiscina(Ledger([], [a]), GqlLedger.ScenarioToday, Exists, PiscinaBookingInput(GqlLedger.CodeB, GqlLedger.ScenarioDay, 30, 5))
            == Ok(Ledger([], [a, b]))
  {
    var d := GqlLedger.ScenarioDay;
    var a := PoolBooking(GqlLedger.CodeA, d, 30, 5);
    var b := PoolBooking(GqlLedger.CodeB, d, 30, 5);
    GqlLedger.ScenarioCodesNormalised();
    assert IsFuture(d, GqlLedger.ScenarioToday) && InSeason(d);
    assert [a][1..] == [];
    assert [a] + [b] == [a, b];
    assert BedsOn([a], d) == 30 && UmbrellasOn([a], d) == 5;
    assert !HasReservation([a], GqlLedger.CodeB, d);
  }

  /** Two members each hold 30 beds and 5 umbrellas on one date, booked through
      this endpoint. The as-written query then advertises 50 free beds and 15 free
      umbrellas, while only 20 beds and 10 umbrellas remain: a request for the 50
      advertised beds is refused with 20 available. */
  lemma GetPiscinaIgnoresLaterBookings()
    ensures var a := PoolBooking(GqlLedger.CodeA, GqlLedger.ScenarioDay, 30, 5);
            var b := PoolBooking(GqlLedger.CodeB, GqlLedger.ScenarioDay, 30, 5);
            var l := Ledger([], [a, b]);
            && AddPiscina(Ledger([], [a]), GqlLedger.ScenarioToday, Exists, PiscinaBookingInput(GqlLedger.CodeB, GqlLedger.ScenarioDay, 30, 5)) == Ok(l)
            && GetPiscina(l, GqlLedger.ScenarioDay) == PoolAvailability(50, 15)
            && FreePool(l.pools, GqlLedger.ScenarioDay) == PoolAvailability(20, 10)
            && AddPiscina(l, GqlLedger.ScenarioToday, Exists, PiscinaBookingInput(GqlLedger.CodeC, GqlLedger.ScenarioDay, 50, 0))
               == Err(BedsExceeded(20))
  {
    var d := GqlLedger.ScenarioDay;
    var a := PoolBooking(GqlLedger.CodeA, d, 30, 5);
    var b := PoolBooking(GqlLedger.CodeB, d, 30, 5);
    ScenarioSecondBookingAccepted();
    GqlLedger.ScenarioCodesNormalised();
    assert IsFuture(d, GqlLedger.ScenarioToday) && InSeason(d);
    assert [a, b][1..] == [b] && [b][1..] == [];
    assert BedsOn([], d) == 0 && UmbrellasOn([], d) == 0;
    assert BedsOn([b], d) == 30;
    assert UmbrellasOn([b], d) == 5;
    assert BedsOn([a, b], d) == 60 && UmbrellasOn([a, b], d) == 10;
  }
}
