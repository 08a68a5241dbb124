/** The member registry's table: members keyed by their uppercased 16-character
    code, and the lookup both service variants perform. */
module Registry {
  import opened Outcomes
  import opened Calendar
  import opened Text
  import opened Validation

  datatype Member = Member(cf: string, name: string, surname: string, registered: Date)

  /** The members table; the code is its primary key. */
  type Members = map<string, Member>

  datatype RegistryError =
    | BadCfLength                        // GraphQL: not 16 characters once uppercased
    | InvalidFields(errors: seq<FieldError>)  // REST: the request schema rejected the body
    | AlreadyExists
    | NotFound
    | PurgeRejected                      // GraphQL: the purge answer carried errors
    | ResourceUnreachable                // GraphQL: the purge call got no answer or an HTTP error
    | BadGateway                         // REST: the purge call failed or did not answer 204

  /** Every key is a normalised 16-character code and the row under it carries it. */
  predicate WellKeyed(m: Members) {
    forall k :: k in m ==> m[k].cf == k && Upper(k) == k && |k| == CfLength
  }

  /** `check_member`: the row stored under the uppercased code, if any. */
  function Lookup(m: Members, cf: string): (r: Option<Member>)
    ensures r.Some? <==> Upper(cf) in m
    ensures r.Some? ==> r.value == m[Upper(cf)]
    ensures WellKeyed(m) && r.Some? ==> r.value.cf == Upper(cf)
  {
    if Upper(cf) in m then Some(m[Upper(cf)]) else None
  }

  /** The lookup is case-insensitive: two codes that agree ignoring letter case find
      the same member, or both find none. */
  lemma LookupIgnoresCase(m: Members, a: string, b: string)
    requires |a| == |b| && forall i :: 0 <= i < |a| ==> SameIgnoringCase(a[i], b[i])
    ensures Lookup(m, a) == Lookup(m, b)
  {
    UpperEqualIffSameIgnoringCase(a, b);
  }

  /** The member response of a lookup: present or absent, as the booking ledger's
      membership check sees it. */
  predicate IsMember(m: Members, cf: string) {
    Lookup(m, cf).Some?
  }

  /** The registry after a delete, the code the purge was sent for (if one was
      sent), and what the caller is told. */
  datatype Deletion = Deletion(members: Members, purgedCode: Option<string>, reply: Outcome<RegistryError>)

  /** `allMembers` (both variants): every stored member exactly once, in no
      particular order. */
  method AllMembers(m: Members) returns (s: seq<Member>)
    ensures |s| == |m|
    ensures forall k :: k in m ==> m[k] in s
    ensures forall i :: 0 <= i < |s| ==> s[i] in m.Values
    ensures WellKeyed(m) ==> forall i, j :: 0 <= i < j < |s| ==> s[i].cf != s[j].cf
  {
    s := [];
    var todo := m.Keys;
    while todo != {}
      invariant todo <= m.Keys
      invariant |s| + |todo| == |m|
      invariant forall k :: k in m && k !in todo ==> m[k] in s
      invariant forall i :: 0 <= i < |s| ==> s[i] in m.Values
      invariant WellKeyed(m) ==> forall i :: 0 <= i < |s| ==> s[i].cf in m && s[i].cf !in todo
      invariant WellKeyed(m) ==> forall i, j :: 0 <= i < j < |s| ==> s[i].cf != s[j].cf
      decreases |todo|
    {
      var k :| k in todo;
      s := s + [m[k]];
      todo := todo - {k};
    }
  }
}
