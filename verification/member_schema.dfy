/** The REST member service's request schema for a new member: all three strings
    are stripped of surrounding whitespace, the code must then be exactly 16
    characters and the names non-empty; every violated constraint is reported. */
module MemberSchema {
  import opened Outcomes
  import opened Text
  import opened Validation

  datatype MemberCreateInput = MemberCreateInput(cf: string, name: string, surname: string)

  /** A validated body: every field is the stripped input. */
  datatype MemberCreate = MemberCreate(cf: string, name: string, surname: string)

  function MemberFieldErrors(b: MemberCreateInput): seq<FieldError> {
    Check(|Strip(b.cf)| == CfLength, BadCf)
    + Check(|Strip(b.name)| >= 1, EmptyName)
    + Check(|Strip(b.surname)| >= 1, EmptySurname)
  }

  function ValidateMemberCreate(b: MemberCreateInput): (r: Result<MemberCreate, seq<FieldError>>)
    ensures r.Ok? <==> |Strip(b.cf)| == CfLength && |Strip(b.name)| > 0 && |Strip(b.surname)| > 0
    ensures r.Ok? ==> r.value == MemberCreate(Strip(b.cf), Strip(b.name), Strip(b.surname))
    ensures r.Err? ==> && (BadCf in r.error <==> |Strip(b.cf)| != CfLength)
                       && (EmptyName in r.error <==> |Strip(b.name)| == 0)
                       && (EmptySurname in r.error <==> |Strip(b.surname)| == 0)
  {
    var errors := MemberFieldErrors(b);
    if |errors| > 0 then Err(errors)
    else Ok(MemberCreate(Strip(b.cf), Strip(b.name), Strip(b.surname)))
  }

  /** Validation is stable: a validated body validates again to itself. */
  lemma ValidateMemberCreateIdempotent(b: MemberCreateInput)
    requires ValidateMemberCreate(b).Ok?
    ensures var v := ValidateMemberCreate(b).value;
            ValidateMemberCreate(MemberCreateInput(v.cf, v.name, v.surname)) == Ok(v)
  {
    StripIdempotent(b.cf);
    StripIdempotent(b.name);
    StripIdempotent(b.surname);
  }
}
