/** The GraphQL resource service's mutations on the booking ledger. Requests arrive
    unvalidated: the operation itself checks membership, date, hour and season, in
    that order, before touching the tables. */
module GqlLedger {
  import opened Outcomes
  import opened Calendar
  import opened Text
  import opened Validation
  import opened Bookings

  // ------------------------------------------------------------------ fields

  /** `add_campo`: membership, then date, then hour, then slot; the first failing
      check is the error, and only a request passing all four adds a row. */
  function AddCampo(l: Ledger, today: CalendarDate, member: Membership,
                    cf: string, d: CalendarDate, hour: int, c: Category): (r: Result<Ledger, LedgerError>)
    ensures member == Unreachable ==> r == Err(MemberServiceUnreachable)
    ensures member == Absent ==> r == Err(MemberUnknown)
    ensures member == Exists && !IsFuture(d, today) ==> r == Err(DateNotFuture)
    ensures member == Exists && IsFuture(d, today) && !InOpeningHours(hour) ==> r == Err(HourOutOfRange)
    ensures member == Exists && IsFuture(d, today) && InOpeningHours(hour) && SlotBooked(l.fields, d, hour, c)
            ==> r == Err(SlotTaken)
    ensures r.Ok? ==> r.value == Ledger(l.fields + [FieldBooking(Upper(cf), d, hour, c)], l.pools)
  {
    match MemberGate(member)
    case Fail(e) => Err(e)
    case Pass =>
      if !IsFuture(d, today) then Err(DateNotFuture)
      else if !InOpeningHours(hour) then Err(HourOutOfRange)
      else InsertField(l, Upper(cf), d, hour, c)
  }

  /** A successful `add_campo` keeps every ledger invariant, slot exclusivity first. */
  lemma AddCampoKeepsConsistent(l: Ledger, today: CalendarDate, member: Membership,
                                cf: string, d: CalendarDate, hour: int, c: Category)
    requires Consistent(l)
    ensures var r := AddCampo(l, today, member, cf, d, hour, c);
            r.Ok? ==> Consistent(r.value) && |r.value.fields| == |l.fields| + 1
  {
    var r := AddCampo(l, today, member, cf, d, hour, c);
    if r.Ok? {
      var b := FieldBooking(Upper(cf), d, hour, c);
      var f := l.fields + [b];
      forall i, j | 0 <= i < j < |f| ensures !SameSlot(f[i], f[j]) {
        if j == |l.fields| {
          assert !Occupies(l.fields[i], d, hour, c);
        }
      }
    }
  }

  /** For a member asking for a future date and an hour of the window, the booking
      succeeds exactly when the free-hours query lists that hour; afterwards the
      query no longer lists it. */
  lemma FreeHoursPredictAddCampo(l: Ledger, today: CalendarDate,
                                 cf: string, d: CalendarDate, hour: int, c: Category)
    requires IsFuture(d, today) && InOpeningHours(hour)
    ensures var r := AddCampo(l, today, Exists, cf, d, hour, c);
            && (r.Ok? <==> hour in FreeHours(l.fields, d, c))
            && (r.Ok? ==> hour !in FreeHours(r.value.fields, d, c))
  {
    var r := AddCampo(l, today, Exists, cf, d, hour, c);
    if r.Ok? {
      var f := r.value.fields;
      assert Occupies(f[|f| - 1], d, hour, c);
    }
  }

  /** Booking a slot and cancelling it with the same request gives back the ledger
      exactly as it was. */
  lemma AddThenCancelField(l: Ledger, today: CalendarDate, member: Membership,
                           cf: string, d: CalendarDate, hour: int, c: Category)
    requires Consistent(l)
    ensures var r := AddCampo(l, today, member, cf, d, hour, c);
            r.Ok? ==> CancelField(r.value, cf, d, hour, c) == Ok(l)
  {
    var r := AddCampo(l, today, member, cf, d, hour, c);
    if r.Ok? {
      var b := FieldBooking(Upper(cf), d, hour, c);
      var f := l.fields + [b];
      assert forall i :: 0 <= i < |l.fields| ==> !Occupies(l.fields[i], d, hour, c);
      assert b !in l.fields;
      assert FirstIndex(f, b) == |l.fields|;
      assert Without(f, |l.fields|) == l.fields;
    }
  }

  // -------------------------------------------------------------------- pool

  /** `add_piscina` as written: membership, date, season, beds cap, umbrellas cap,
      then the one-per-member-and-date check. The units are not checked for sign. */
  function AddPiscina(l: Ledger, today: CalendarDate, member: Membership,
                      cf: string, d: CalendarDate, beds: int, umbrellas: int): (r: Result<Ledger, LedgerError>)
    ensures member == Unreachable ==> r == Err(MemberServiceUnreachable)
    ensures member == Absent ==> r == Err(MemberUnknown)
    ensures member == Exists && !IsFuture(d, today) ==> r == Err(DateNotFuture)
    ensures member == Exists && IsFuture(d, today) && !InSeason(d) ==> r == Err(OutOfSeason)
    ensures member == Exists && IsFuture(d, today) && InSeason(d) ==>
              && (BedsOn(l.pools, d) + beds > BedCapacity ==>
                    r == Err(BedsExceeded(BedCapacity - BedsOn(l.pools, d))))
              && (BedsOn(l.pools, d) + beds <= BedCapacity && UmbrellasOn(l.pools, d) + umbrellas > UmbrellaCapacity ==>
                    r == Err(UmbrellasExceeded(UmbrellaCapacity - UmbrellasOn(l.pools, d))))
    ensures member == Exists && IsFuture(d, today) && InSeason(d) ==>
              (r == Err(AlreadyReserved) <==>
                 && BedsOn(l.pools, d) + beds <= BedCapacity
                 && UmbrellasOn(l.pools, d) + umbrellas <= UmbrellaCapacity
                 && HasReservation(l.pools, Upper(cf), d))
    ensures r.Ok? <==> && member == Exists && IsFuture(d, today) && InSeason(d)
                       && BedsOn(l.pools, d) + beds <= BedCapacity
                       && UmbrellasOn(l.pools, d) + umbrellas <= UmbrellaCapacity
                       && !HasReservation(l.pools, Upper(cf), d)
    ensures r.Ok? ==> r.value == Ledger(l.fields, l.pools + [PoolBooking(Upper(cf), d, beds, umbrellas)])
  {
    match MemberGate(member)
    case Fail(e) => Err(e)
    case Pass =>
      if !IsFuture(d, today) then Err(DateNotFuture)
      else if !InSeason(d) then Err(OutOfSeason)
      else InsertPool(l, Upper(cf), d, beds, umbrellas)
  }

  /** `add_piscina` with the sign check the REST schema applies (`ge=0` on both
      counts), placed with the other input checks before the capacity checks. */
  function AddPiscinaChecked(l: Ledger, today: CalendarDate, member: Membership,
                             cf: string, d: CalendarDate, beds: int, umbrellas: int): (r: Result<Ledger, LedgerError>)
    ensures beds < 0 || umbrellas < 0 ==> r.Err?
    ensures beds >= 0 && umbrellas >= 0 ==> r == AddPiscina(l, today, member, cf, d, beds, umbrellas)
    ensures r == Err(NegativeUnits) <==>
              member == Exists && IsFuture(d, today) && InSeason(d) && (beds < 0 || umbrellas < 0)
  {
    match MemberGate(member)
    case Fail(e) => Err(e)
    case Pass =>
      if !IsFuture(d, today) then Err(DateNotFuture)
      else if !InSeason(d) then Err(OutOfSeason)
      else if beds < 0 || umbrellas < 0 then Err(NegativeUnits)
      else InsertPool(l, Upper(cf), d, beds, umbrellas)
  }

  /** Even as written, a successful `add_piscina` never pushes a date past 80 beds or
      20 umbrellas, and never gives a member a second reservation on a date. */
  lemma AddPiscinaKeepsCaps(l: Ledger, today: CalendarDate, member: Membership,
                            cf: string, d: CalendarDate, beds: int, umbrellas: int)
    requires CapsHeld(l.pools) && OnePerMemberAndDate(l.pools)
    ensures var r := AddPiscina(l, today, member, cf, d, beds, umbrellas);
            r.Ok? ==> CapsHeld(r.value.pools) && OnePerMemberAndDate(r.value.pools)
  {
    InsertPoolKeepsCaps(l, Upper(cf), d, beds, umbrellas);
  }

  /** With the sign check, every ledger invariant is kept. */
  lemma AddPiscinaCheckedKeepsConsistent(l: Ledger, today: CalendarDate, member: Membership,
                                         cf: string, d: CalendarDate, beds: int, umbrellas: int)
    requires Consistent(l)
    ensures var r := AddPiscinaChecked(l, today, member, cf, d, beds, umbrellas);
            r.Ok? ==> Consistent(r.value)
  {
    InsertPoolKeepsCaps(l, Upper(cf), d, beds, umbrellas);
  }

  /** On a consistent ledger, the free-capacity query tells the truth: a member's
      in-season request is refused for beds exactly when it asks for more beds than
      the query reports free, and the refusal quotes that same number; likewise for
      umbrellas once the beds fit. */
  lemma FreePoolPredictsAddPiscina(l: Ledger, today: CalendarDate,
                                   cf: string, d: CalendarDate, beds: int, umbrellas: int)
    requires Consistent(l)
    requires IsFuture(d, today) && InSeason(d) && beds >= 0 && umbrellas >= 0
    ensures var r := AddPiscinaChecked(l, today, Exists, cf, d, beds, umbrellas);
            var free := FreePool(l.pools, d);
            && (r.Err? && r.error.BedsExceeded? <==> beds > free.beds)
            && (r.Err? && r.error.BedsExceeded? ==> r.error.available == free.beds)
            && (beds <= free.beds ==>
                  && (r.Err? && r.error.UmbrellasExceeded? <==> umbrellas > free.umbrellas)
                  && (r.Err? && r.error.UmbrellasExceeded? ==> r.error.available == free.umbrellas))
  {
    assert BedsOn(l.pools, d) <= BedCapacity && UmbrellasOn(l.pools, d) <= UmbrellaCapacity;
  }

  /** Reserving pool units and cancelling the same reservation gives back the ledger
      exactly as it was. */
  lemma AddThenCancelPool(l: Ledger, today: CalendarDate, member: Membership,
                             cf: string, d: CalendarDate, beds: int, umbrellas: int)
    ensures var r := AddPiscina(l, today, member, cf, d, beds, umbrellas);
            r.Ok? ==> CancelPool(r.value, cf, d, beds, umbrellas) == Ok(l)
  {
    var r := AddPiscina(l, today, member, cf, d, beds, umbrellas);
    if r.Ok? {
      var p := PoolBooking(Upper(cf), d, beds, umbrellas);
      var q := l.pools + [p];
      assert forall i :: 0 <= i < |l.pools| ==> !(l.pools[i].cf == Upper(cf) && l.pools[i].date == d);
      assert p !in l.pools;
      assert FirstIndex(q, p) == |l.pools|;
      assert Without(q, |l.pools|) == l.pools;
    }
  }

  // ---------------------------------------------------------------- finding

  /** The fixed dates of the worked scenarios (an in-season date nine days after
      "today") and three member codes `add_member` accepts. */
  const ScenarioToday: CalendarDate := Date(2025, 6, 1)
  const ScenarioDay: CalendarDate := Date(2025, 6, 10)
  const CodeA: string := seq(CfLength, _ => 'A')
  const CodeB: string := seq(CfLength, _ => 'B')
  const CodeC: string := seq(CfLength, _ => 'C')

  lemma ScenarioCodesNormalised()
    ensures Strip(CodeA) == CodeA && Upper(CodeA) == CodeA && |CodeA| == CfLength
    ensures Strip(CodeB) == CodeB && Upper(CodeB) == CodeB && |CodeB| == CfLength
    ensures Strip(CodeC) == CodeC && Upper(CodeC) == CodeC && |CodeC| == CfLength
  {
    assert LeadingSpaces(CodeA) == 0 && TrailingSpaces(CodeA) == 0;
    assert LeadingSpaces(CodeB) == 0 && TrailingSpaces(CodeB) == 0;
    assert LeadingSpaces(CodeC) == 0 && TrailingSpaces(CodeC) == 0;
    assert CodeA[0..][..CfLength] == CodeA;
    assert CodeB[0..][..CfLength] == CodeB && CodeC[0..][..CfLength] == CodeC;
  }

  /** The rows of the scenario below. */
  function ScenarioRow(cf: string, beds: int): PoolBooking {
    PoolBooking(cf, ScenarioDay, beds, 0)
  }

  lemma ScenarioAddsAccepted()
    ensures AddPiscina(Ledger([], []), ScenarioToday, Exists, CodeA, ScenarioDay, -50, 0)
            == Ok(Ledger([], [ScenarioRow(CodeA, -50)]))
    ensures AddPiscina(Ledger([], [ScenarioRow(CodeA, -50)]), ScenarioToday, Exists, CodeB, ScenarioDay, 80, 0)
            == Ok(Ledger([], [ScenarioRow(CodeA, -50), ScenarioRow(CodeB, 80)]))
    ensures AddPiscina(Ledger([], [ScenarioRow(CodeA, -50), ScenarioRow(CodeB, 80)]),
                       ScenarioToday, Exists, CodeC, ScenarioDay, 50, 0)
            == Ok(Ledger([], [ScenarioRow(CodeA, -50), ScenarioRow(CodeB, 80), ScenarioRow(CodeC, 50)]))
  {
    var d := ScenarioDay;
    var pa, pb, pc := ScenarioRow(CodeA, -50), ScenarioRow(CodeB, 80), ScenarioRow(CodeC, 50);
    ScenarioCodesNormalised();
    assert CodeA[0] != CodeB[0] && CodeA[0] != CodeC[0] && CodeB[0] != CodeC[0];
    assert IsFuture(d, ScenarioToday) && InSeason(d);
    assert [] + [pa] == [pa] && [pa] + [pb] == [pa, pb] && [pa, pb] + [pc] == [pa, pb, pc];
    assert [pa][1..] == [] && [pb][1..] == [] && [pa, pb][1..] == [pb];
    assert BedsOn([], d) == 0 && UmbrellasOn([], d) == 0;
    assert BedsOn([pa], d) == -50 && UmbrellasOn([pa], d) == 0;
    assert BedsOn([pb], d) == 80 && UmbrellasOn([pb], d) == 0;
    assert BedsOn([pa, pb], d) == 30 && UmbrellasOn([pa, pb], d) == 0;
    assert !HasReservation([pa], CodeB, d);
    assert !HasReservation([pa, pb], CodeC, d);
  }

  /** `add_piscina` as written accepts a negative bed count. The caps still hold
      after every insertion, but cancelling the negative row lifts the date to 130
      beds: member A books -50 beds, B books 80, C books 50 (the sum is then 80),
      and A cancels. All three codes are ones `add_member` registers. */
  lemma NegativeBedsBreakCap()
    ensures var l3 := Ledger([], [ScenarioRow(CodeA, -50), ScenarioRow(CodeB, 80), ScenarioRow(CodeC, 50)]);
            && AddPiscina(Ledger([], [ScenarioRow(CodeA, -50), ScenarioRow(CodeB, 80)]),
                          ScenarioToday, Exists, CodeC, ScenarioDay, 50, 0) == Ok(l3)
            && BedsOn(l3.pools, ScenarioDay) == BedCapacity
            && CancelPool(l3, CodeA, ScenarioDay, -50, 0) == Ok(Ledger([], [ScenarioRow(CodeB, 80), ScenarioRow(CodeC, 50)]))
            && BedsOn([ScenarioRow(CodeB, 80), ScenarioRow(CodeC, 50)], ScenarioDay) == 130
  {
    ScenarioAddsAccepted();
    ScenarioCodesNormalised();
    var d := ScenarioDay;
    var pa, pb, pc := ScenarioRow(CodeA, -50), ScenarioRow(CodeB, 80), ScenarioRow(CodeC, 50);
    assert [pa, pb, pc][1..] == [pb, pc] && [pb, pc][1..] == [pc] && [pc][1..] == [];
    assert BedsOn([pc], d) == 50;
    assert BedsOn([pb, pc], d) == 130;
    assert FirstIndex([pa, pb, pc], pa) == 0;
    assert Without([pa, pb, pc], 0) == [pb, pc];
  }
}
