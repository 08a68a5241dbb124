/** The REST member service: `GET /members/{cf}`, `POST /members`,
    `DELETE /members/{cf}` and `GET /members`. The delete asks the resource
    service to purge the member's bookings and expects it to answer 204. */
module RestRegistry {
  import opened Outcomes
  import opened Calendar
  import opened Text
  import opened Validation
  import opened Registry
  import opened MemberSchema
  import GqlRegistry

  /** What `DELETE /resources/prenotazioni/{cf}` came back with. */
  datatype PurgeResponse = Replied(status: int) | NoReply

  /** The only purge status the delete accepts. */
  const ExpectedPurgeStatus := 204

  /** `GET /members/{cf}`: the member stored under the uppercased code, or 404. */
  function CheckMember(m: Members, cf: string): (r: Result<Member, RegistryError>)
    ensures r.Ok? <==> Upper(cf) in m
    ensures r.Ok? ==> r.value == m[Upper(cf)]
    ensures r.Err? ==> r.error == NotFound
  {
    match Lookup(m, cf)
    case Some(member) => Ok(member)
    case None => Err(NotFound)
  }

  /** `POST /members`: the body is validated (stripped code of 16 characters,
      non-empty stripped names, every violation reported); then the uppercased
      code must be new, and the row stores the stripped names and today's date. */
  function AddMember(m: Members, b: MemberCreateInput, today: Date): (r: Result<Members, RegistryError>)
    ensures ValidateMemberCreate(b).Err? ==> r == Err(InvalidFields(ValidateMemberCreate(b).error))
    ensures r.Ok? <==> ValidateMemberCreate(b).Ok? && Upper(Strip(b.cf)) !in m
    ensures r.Ok? ==> var key := Upper(Strip(b.cf));
                      && r.value.Keys == m.Keys + {key}
                      && r.value[key] == Member(key, Strip(b.name), Strip(b.surname), today)
                      && |key| == CfLength
                      && forall k :: k in m ==> r.value[k] == m[k]
  {
    match ValidateMemberCreate(b)
    case Err(errors) => Err(InvalidFields(errors))
    case Ok(v) =>
      var key := Upper(v.cf);
      if key in m then Err(AlreadyExists)
      else Ok(m[key := Member(key, v.name, v.surname, today)])
  }

  /** On a body that passes validation the REST service stores exactly what the
      GraphQL service stores for the stripped strings. */
  lemma AddMemberAgreesWithGraphql(m: Members, b: MemberCreateInput, today: Date)
    requires ValidateMemberCreate(b).Ok?
    ensures AddMember(m, b, today) == GqlRegistry.AddMember(m, Strip(b.cf), Strip(b.name), Strip(b.surname), today)
  {
  }

  lemma AddMemberKeepsWellKeyed(m: Members, b: MemberCreateInput, today: Date)
    requires WellKeyed(m)
    ensures AddMember(m, b, today).Ok? ==> WellKeyed(AddMember(m, b, today).value)
  {
    UpperIdempotent(Strip(b.cf));
  }

  /** The two variants differ on names: the GraphQL service stores an empty name,
      the REST service refuses it. */
  lemma EmptyNameAcceptedOnlyByGraphql(m: Members, cf: string, today: Date)
    requires |cf| == CfLength && Upper(cf) !in m
    requires Strip(cf) == cf
    ensures GqlRegistry.AddMember(m, cf, "", "", today).Ok?
    ensures AddMember(m, MemberCreateInput(cf, "", ""), today).Err?
  {
    assert Strip("") == "";
  }

  /** `DELETE /members/{cf}` as written: an unknown code is 404 and nothing happens;
      otherwise the member row is deleted and committed, the purge is requested for
      the uppercased code, and the call fails with 502 unless the purge answered
      exactly 204. The member stays deleted either way. */
  function DeleteMember(m: Members, cf: string, resp: PurgeResponse): (r: Deletion)
    ensures Upper(cf) !in m ==> r == Deletion(m, None, Fail(NotFound))
    ensures Upper(cf) in m ==> && r.members.Keys == m.Keys - {Upper(cf)}
                               && (forall k :: k in r.members ==> r.members[k] == m[k])
                               && r.purgedCode == Some(Upper(cf))
    ensures Upper(cf) in m ==> (r.reply == Pass <==> resp == Replied(ExpectedPurgeStatus))
    ensures Upper(cf) in m && r.reply != Pass ==> r.reply == Fail(BadGateway)
  {
    var key := Upper(cf);
    if key !in m then Deletion(m, None, Fail(NotFound))
    else
      var reply := if resp == Replied(ExpectedPurgeStatus) then Pass else Fail(BadGateway);
      Deletion(m - {key}, Some(key), reply)
  }

  /** A success status of the purge call. */
  predicate IsSuccess(resp: PurgeResponse) {
    resp.Replied? && 200 <= resp.status < 300
  }

  /** `DELETE /members/{cf}` accepting any success status of the purge call, the
      reading under which the member service and the resource service agree. */
  function DeleteMemberAcceptingSuccess(m: Members, cf: string, resp: PurgeResponse): (r: Deletion)
    ensures r.members == DeleteMember(m, cf, resp).members
    ensures r.purgedCode == DeleteMember(m, cf, resp).purgedCode
    ensures Upper(cf) !in m ==> r.reply == Fail(NotFound)
    ensures Upper(cf) in m ==> (r.reply == Pass <==> IsSuccess(resp))
    ensures Upper(cf) in m && r.reply != Pass ==> r.reply == Fail(BadGateway)
  {
    var key := Upper(cf);
    if key !in m then Deletion(m, None, Fail(NotFound))
    else
      var reply := if IsSuccess(resp) then Pass else Fail(BadGateway);
      Deletion(m - {key}, Some(key), reply)
  }
}
