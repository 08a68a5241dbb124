/** The GraphQL member service: `checkMember`, `allMembers`, `addMember` and
    `deleteMember`, the last of which asks the resource service to purge the
    deleted member's bookings. */
module GqlRegistry {
  import opened Outcomes
  import opened Calendar
  import opened Text
  import opened Validation
  import opened Registry

  /** What the `deletePrenotazioni` call to the resource service came back with. */
  datatype PurgeCall =
    | NoAnswer                   // connection failure, timeout
    | HttpFailure(status: int)   // an answer whose status is an HTTP error
    | Answered(hasErrors: bool)  // a GraphQL answer, with or without an `errors` entry

  /** `addMember`: the code is uppercased and must then be exactly 16 characters,
      must not be registered yet, and the new row is stamped with today's date.
      Name and surname are stored as given. */
  function AddMember(m: Members, cf: string, name: string, surname: string, today: Date): (r: Result<Members, RegistryError>)
    ensures |cf| != CfLength ==> r == Err(BadCfLength)
    ensures |cf| == CfLength && Upper(cf) in m ==> r == Err(AlreadyExists)
    ensures r.Ok? <==> |cf| == CfLength && Upper(cf) !in m
    ensures r.Ok? ==> && r.value.Keys == m.Keys + {Upper(cf)}
                      && r.value[Upper(cf)] == Member(Upper(cf), name, surname, today)
                      && forall k :: k in m ==> r.value[k] == m[k]
  {
    var key := Upper(cf);
    if |key| != CfLength then Err(BadCfLength)
    else if key in m then Err(AlreadyExists)
    else Ok(m[key := Member(key, name, surname, today)])
  }

  lemma AddMemberKeepsWellKeyed(m: Members, cf: string, name: string, surname: string, today: Date)
    requires WellKeyed(m)
    ensures var r := AddMember(m, cf, name, surname, today);
            r.Ok? ==> WellKeyed(r.value)
  {
    UpperIdempotent(cf);
  }

  /** Once added, the member is found by any spelling of the code that differs only
      in letter case, and adding it again under such a spelling is refused. */
  lemma AddMemberThenLookup(m: Members, cf: string, other: string, name: string, surname: string, today: Date)
    requires AddMember(m, cf, name, surname, today).Ok?
    requires |other| == |cf| && forall i :: 0 <= i < |cf| ==> SameIgnoringCase(cf[i], other[i])
    ensures var m' := AddMember(m, cf, name, surname, today).value;
            && Lookup(m', other) == Some(Member(Upper(cf), name, surname, today))
            && AddMember(m', other, name, surname, today) == Err(AlreadyExists)
  {
    UpperEqualIffSameIgnoringCase(cf, other);
  }

  /** `deleteMember`: an unknown code is refused and nothing happens. Otherwise the
      member row is deleted and committed first, then the purge is requested for the
      uppercased code; the call reports success only when the purge answered
      without errors, but the member stays deleted either way. */
  function DeleteMember(m: Members, cf: string, call: PurgeCall): (r: Deletion)
    ensures Upper(cf) !in m ==> r == Deletion(m, None, Fail(NotFound))
    ensures Upper(cf) in m ==> && r.members.Keys == m.Keys - {Upper(cf)}
                               && (forall k :: k in r.members ==> r.members[k] == m[k])
                               && r.purgedCode == Some(Upper(cf))
    ensures Upper(cf) in m ==> (r.reply == Pass <==> call == Answered(false))
    ensures Upper(cf) in m && call == Answered(true) ==> r.reply == Fail(PurgeRejected)
    ensures Upper(cf) in m && !call.Answered? ==> r.reply == Fail(ResourceUnreachable)
  {
    var key := Upper(cf);
    if key !in m then Deletion(m, None, Fail(NotFound))
    else
      var reply := match call
        case Answered(hasErrors) => if hasErrors then Fail(PurgeRejected) else Pass
        case _ => Fail(ResourceUnreachable);
      Deletion(m - {key}, Some(key), reply)
  }

  /** Whatever the purge call does, a delete of a registered member leaves the
      registry well keyed and the member no longer found. */
  lemma DeleteMemberRemovesRegardlessOfPurge(m: Members, cf: string, call: PurgeCall)
    requires WellKeyed(m)
    requires Lookup(m, cf).Some?
    ensures var r := DeleteMember(m, cf, call);
            WellKeyed(r.members) && Lookup(r.members, cf) == None && |r.members| == |m| - 1
  {
  }

  /** Adding a new member and deleting it again restores the registry exactly. */
  lemma AddThenDeleteMember(m: Members, cf: string, name: string, surname: string, today: Date, call: PurgeCall)
    requires AddMember(m, cf, name, surname, today).Ok?
    ensures DeleteMember(AddMember(m, cf, name, surname, today).value, cf, call).members == m
  {
    var m' := AddMember(m, cf, name, surname, today).value;
    assert m' - {Upper(cf)} == m;
  }
}
