/** The two services together: the member registry and the booking ledger, joined
    by the membership check every booking makes and by the purge every member
    deletion requests. Neither step is transactional across the services. */
module Club {
  import opened Outcomes
  import opened Calendar
  import opened Text
  import opened Validation
  import opened Bookings
  import opened Registry
  import GqlRegistry
  import RestRegistry
  import GqlLedger
  import RestLedger
  import ResourceSchema

  datatype Club = Club(members: Members, ledger: Ledger)

  /** What the resource service's `check_member` learns about a code: nothing when
      the member service cannot be reached, otherwise whether the lookup finds it. */
  function MembershipOf(members: Members, cf: string, reachable: bool): (r: Membership)
    ensures r == Unreachable <==> !reachable
    ensures r == Exists <==> reachable && Upper(cf) in members
  {
    if !reachable then Unreachable else if IsMember(members, cf) then Exists else Absent
  }

  /** Referential integrity across the services: every booking belongs to a
      registered member. */
  predicate NoOrphans(c: Club) {
    && (forall b :: b in c.ledger.fields ==> b.cf in c.members)
    && (forall p :: p in c.ledger.pools ==> p.cf in c.members)
  }

  // ---------------------------------------------------------------- bookings

  /** A GraphQL field booking that succeeds was made for a registered member. */
  lemma GqlAddCampoKeepsNoOrphans(c: Club, today: CalendarDate, reachable: bool,
                                  cf: string, d: CalendarDate, hour: int, cat: Category)
    requires NoOrphans(c)
    ensures var r := GqlLedger.AddCampo(c.ledger, today, MembershipOf(c.members, cf, reachable), cf, d, hour, cat);
            r.Ok? ==> NoOrphans(Club(c.members, r.value))
  {
    var r := GqlLedger.AddCampo(c.ledger, today, MembershipOf(c.members, cf, reachable), cf, d, hour, cat);
    if r.Ok? {
      assert r.value.fields == c.ledger.fields + [FieldBooking(Upper(cf), d, hour, cat)];
    }
  }

  /** A GraphQL pool booking that succeeds was made for a registered member. */
  lemma GqlAddPiscinaKeepsNoOrphans(c: Club, today: CalendarDate, reachable: bool,
                                    cf: string, d: CalendarDate, beds: int, umbrellas: int)
    requires NoOrphans(c)
    ensures var r := GqlLedger.AddPiscina(c.ledger, today, MembershipOf(c.members, cf, reachable), cf, d, beds, umbrellas);
            r.Ok? ==> NoOrphans(Club(c.members, r.value))
  {
    var r := GqlLedger.AddPiscina(c.ledger, today, MembershipOf(c.members, cf, reachable), cf, d, beds, umbrellas);
    if r.Ok? {
      assert r.value.pools == c.ledger.pools + [PoolBooking(Upper(cf), d, beds, umbrellas)];
    }
  }

  /** The REST endpoints ask about the stripped, uppercased code, which the member
      service uppercases once more; the row they then store belongs to that member. */
  lemma RestAddCampoKeepsNoOrphans(c: Club, today: CalendarDate, reachable: bool,
                                   b: ResourceSchema.CampoBookingInput)
    requires NoOrphans(c)
    ensures var r := RestLedger.AddCampo(c.ledger, today, MembershipOf(c.members, Upper(Strip(b.cf)), reachable), b);
            r.Ok? ==> NoOrphans(Club(c.members, r.value))
  {
    var key := Upper(Strip(b.cf));
    UpperIdempotent(Strip(b.cf));
    var r := RestLedger.AddCampo(c.ledger, today, MembershipOf(c.members, key, reachable), b);
    if r.Ok? {
      assert key in c.members;
      assert r.value.fields == c.ledger.fields + [FieldBooking(key, b.date, b.hour, ParseCategory(b.category).value)];
    }
  }

  lemma RestAddPiscinaKeepsNoOrphans(c: Club, today: CalendarDate, reachable: bool,
                                     b: ResourceSchema.PiscinaBookingInput)
    requires NoOrphans(c)
    ensures var r := RestLedger.AddPiscina(c.ledger, today, MembershipOf(c.members, Upper(Strip(b.cf)), reachable), b);
            r.Ok? ==> NoOrphans(Club(c.members, r.value))
  {
    var key := Upper(Strip(b.cf));
    UpperIdempotent(Strip(b.cf));
    var r := RestLedger.AddPiscina(c.ledger, today, MembershipOf(c.members, key, reachable), b);
    if r.Ok? {
      assert key in c.members;
      assert r.value.pools == c.ledger.pools + [PoolBooking(key, b.date, b.beds, b.umbrellas)];
    }
  }

  // ---------------------------------------------------------------- deletion

  /** Removing a member together with all its bookings keeps integrity. */
  lemma RemoveWithPurgeKeepsNoOrphans(c: Club, key: string)
    requires NoOrphans(c)
    ensures NoOrphans(Club(c.members - {key}, Purge(c.ledger, key)))
  {
  }

  /** GraphQL `deleteMember`, with the purge call delivered (the resource service
      purged and answered without errors) or lost (no answer). */
  function GqlDeleteMember(c: Club, cf: string, delivered: bool): (r: (Club, Outcome<RegistryError>))
    ensures Upper(cf) !in c.members ==> r == (c, Fail(NotFound))
    ensures Upper(cf) in c.members ==> && r.0.members.Keys == c.members.Keys - {Upper(cf)}
                                       && (r.1 == Pass <==> delivered)
    ensures forall k :: k in r.0.members ==> k in c.members && r.0.members[k] == c.members[k]
    ensures Upper(cf) in c.members && delivered ==>
              && (forall b :: b in r.0.ledger.fields <==> b in c.ledger.fields && b.cf != Upper(cf))
              && (forall p :: p in r.0.ledger.pools <==> p in c.ledger.pools && p.cf != Upper(cf))
              && r.0.ledger == Purge(c.ledger, Upper(cf))
    ensures Upper(cf) in c.members && !delivered ==> r.0.ledger == c.ledger && r.1 == Fail(ResourceUnreachable)
  {
    var call := if delivered then GqlRegistry.Answered(false) else GqlRegistry.NoAnswer;
    var d := GqlRegistry.DeleteMember(c.members, cf, call);
    var ledger := if d.purgedCode.Some? && delivered then Purge(c.ledger, d.purgedCode.value) else c.ledger;
    (Club(d.members, ledger), d.reply)
  }

  /** A GraphQL delete whose purge gets through keeps integrity and leaves nothing of
      the member behind. */
  lemma GqlDeleteMemberKeepsNoOrphans(c: Club, cf: string)
    requires NoOrphans(c)
    ensures NoOrphans(GqlDeleteMember(c, cf, true).0)
  {
    if Upper(cf) in c.members {
      RemoveWithPurgeKeepsNoOrphans(c, Upper(cf));
    }
  }

  /** When the purge call is lost the member is gone but its bookings stay: the
      caller is told, yet the ledger now holds orphans. */
  lemma LostPurgeLeavesOrphans(c: Club, cf: string, b: FieldBooking)
    requires Upper(cf) in c.members
    requires b in c.ledger.fields && b.cf == Upper(cf)
    ensures var r := GqlDeleteMember(c, cf, false);
            r.1 == Fail(ResourceUnreachable) && !NoOrphans(r.0)
  {
    assert b in GqlDeleteMember(c, cf, false).0.ledger.fields;
  }

  /** REST `DELETE /members/{cf}` as written, with the purge request delivered (the
      resource service purges and answers with its status) or lost (no answer). */
  function RestDeleteMember(c: Club, cf: string, delivered: bool): (r: (Club, Outcome<RegistryError>))
    ensures Upper(cf) !in c.members ==> r == (c, Fail(NotFound))
    ensures Upper(cf) in c.members ==> && r.0.members.Keys == c.members.Keys - {Upper(cf)}
                                       && r.1 == Fail(BadGateway)
    ensures forall k :: k in r.0.members ==> k in c.members && r.0.members[k] == c.members[k]
    ensures Upper(cf) in c.members && delivered ==>
              && (forall b :: b in r.0.ledger.fields <==> b in c.ledger.fields && b.cf != Upper(cf))
              && (forall p :: p in r.0.ledger.pools <==> p in c.ledger.pools && p.cf != Upper(cf))
              && r.0.ledger == Purge(c.ledger, Upper(cf))
    ensures Upper(cf) in c.members && !delivered ==> r.0.ledger == c.ledger
  {
    var key := Upper(cf);
    if key in c.members && delivered then
      var purge := RestLedger.DeletePrenotazioni(c.ledger, key);
      var d := RestRegistry.DeleteMember(c.members, cf, RestRegistry.Replied(purge.status));
      (Club(d.members, purge.ledger), d.reply)
    else
      var d := RestRegistry.DeleteMember(c.members, cf, RestRegistry.NoReply);
      (Club(d.members, c.ledger), d.reply)
  }

  /** The member row is committed before the purge is requested, so when the
      request is lost the REST delete, too, leaves the member's bookings behind. */
  lemma RestLostPurgeLeavesOrphans(c: Club, cf: string, b: FieldBooking)
    requires Upper(cf) in c.members
    requires b in c.ledger.fields && b.cf == Upper(cf)
    ensures var r := RestDeleteMember(c, cf, false);
            r.1 == Fail(BadGateway) && !NoOrphans(r.0)
  {
    assert b in RestDeleteMember(c, cf, false).0.ledger.fields;
  }

  /** The REST delete as written reports 502 even when everything worked: the member
      is gone, its bookings are purged and integrity holds, because the purge route
      answers 200 where the delete waits for 204. */
  lemma RestDeleteReportsFailureAfterPurge(c: Club, cf: string)
    requires NoOrphans(c)
    requires Upper(cf) in c.members
    ensures var r := RestDeleteMember(c, cf, true);
            && r.1 == Fail(BadGateway)
            && Upper(cf) !in r.0.members
            && NoOrphans(r.0)
  {
    RemoveWithPurgeKeepsNoOrphans(c, Upper(cf));
  }

  /** REST `DELETE /members/{cf}` accepting any success status from the purge. */
  function RestDeleteMemberCorrected(c: Club, cf: string, delivered: bool): (r: (Club, Outcome<RegistryError>))
    ensures r.0 == RestDeleteMember(c, cf, delivered).0
    ensures Upper(cf) in c.members ==> (r.1 == Pass <==> delivered)
    ensures Upper(cf) !in c.members ==> r.1 == Fail(NotFound)
  {
    var key := Upper(cf);
    if key in c.members && delivered then
      var purge := RestLedger.DeletePrenotazioni(c.ledger, key);
      var d := RestRegistry.DeleteMemberAcceptingSuccess(c.members, cf, RestRegistry.Replied(purge.status));
      (Club(d.members, purge.ledger), d.reply)
    else
      var d := RestRegistry.DeleteMemberAcceptingSuccess(c.members, cf, RestRegistry.NoReply);
      (Club(d.members, c.ledger), d.reply)
  }

  /** With the corrected delete, a delivered purge is reported as the success it is,
      and integrity holds afterwards. */
  lemma RestDeleteCorrectedReportsSuccess(c: Club, cf: string)
    requires NoOrphans(c)
    requires Upper(cf) in c.members
    ensures var r := RestDeleteMemberCorrected(c, cf, true);
            && r.1 == Pass
            && Upper(cf) !in r.0.members
            && NoOrphans(r.0)
  {
    RemoveWithPurgeKeepsNoOrphans(c, Upper(cf));
  }

  // ---------------------------------------------------------- end to end

  /** Register a member, book a tennis court for hour 15 of a future date, fail to
      book the same slot again, delete the member: the member is then unknown, the
      hour is free again and integrity holds throughout. */
  lemma EndToEnd(c: Club, code: string, name: string, surname: string,
                 today: CalendarDate, d: CalendarDate)
    requires NoOrphans(c)
    requires |code| == CfLength && Upper(code) !in c.members
    requires IsFuture(d, today)
    requires !SlotBooked(c.ledger.fields, d, 15, Tennis)
    ensures GqlRegistry.AddMember(c.members, code, name, surname, today).Ok?
    ensures var members := GqlRegistry.AddMember(c.members, code, name, surname, today).value;
            var booked := GqlLedger.AddCampo(c.ledger, today, MembershipOf(members, code, true), code, d, 15, Tennis);
            && booked.Ok?
            && NoOrphans(Club(members, booked.value))
            && GqlLedger.AddCampo(booked.value, today, MembershipOf(members, code, true), code, d, 15, Tennis)
               == Err(SlotTaken)
            && var deleted := GqlDeleteMember(Club(members, booked.value), code, true);
               && deleted.1 == Pass
               && Lookup(deleted.0.members, code) == None
               && 15 in FreeHours(deleted.0.ledger.fields, d, Tennis)
               && NoOrphans(deleted.0)
  {
    var members := GqlRegistry.AddMember(c.members, code, name, surname, today).value;
    var key := Upper(code);
    var row := FieldBooking(key, d, 15, Tennis);
    var club := Club(members, Ledger(c.ledger.fields + [row], c.ledger.pools));
    assert NoOrphans(club);
    assert row in club.ledger.fields;
    GqlDeleteMemberKeepsNoOrphans(club, code);
    var deleted := GqlDeleteMember(club, code, true);
    forall i | 0 <= i < |deleted.0.ledger.fields|
      ensures !Occupies(deleted.0.ledger.fields[i], d, 15, Tennis)
    {
      var b := deleted.0.ledger.fields[i];
      assert b in club.ledger.fields && b.cf != key;
      assert b in c.ledger.fields;
    }
  }
}
