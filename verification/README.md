# Sports-club booking services: a Dafny model

The system has two cooperating services.

- **Member service.** Keeps the club's registry. Each member is keyed by a 16-character fiscal code (`cf`), uppercased.
- **Resource service.** Keeps the booking ledger. Field bookings hold one `(date, hour, category)` slot for tennis, beach or calcio. Pool bookings reserve beds and umbrellas on a date.

Both services exist in two copies: a REST one and a GraphQL one. A booking first asks the member service whether the code belongs to a member. Deleting a member asks the resource service to purge that member's bookings.

This project models both copies of both services as pure functions over immutable tables:

- a sequence of rows in insertion order for each ledger table;
- a map from code to member for the registry.

The validation order, error cases and constants (opening hours 10..21, 80 beds, 20 umbrellas, season 20 May to 15 September) are those of the code. The project proves that the ledger's check-before-insert logic keeps these invariants, for the REST service and for the GraphQL service once the sign check is added (`GqlLedger.AddPiscinaChecked`):

- slot exclusivity;
- the per-date caps;
- at most one pool booking per member and date;
- hours inside the window;
- non-negative units.

Neither booking table declares a unique constraint, so the code alone must keep these invariants.

The GraphQL `add_piscina` as written keeps only the caps and the one-booking-per-member-and-date rule at insertion time (`GqlLedger.AddPiscinaKeepsCaps`). It accepts negative units, and a later cancellation can then break the caps (see Findings).

The project also proves that the registry stays keyed by normalised codes. Across the services it proves referential integrity (every booking belongs to a member): successful bookings keep it, and so does a member deletion whose purge is delivered.

Modules, one per component of the source:

| module | file | models |
|---|---|---|
| `Outcomes` | outcomes.dfy | `Option`, `Result`, `Outcome` |
| `Calendar` | calendar.dfy | dates, "strictly after today", the pool season |
| `Text` | text.dfy | `str.upper()` (ASCII letters), `str.strip()` |
| `Validation` | validation.dfy | the code length and the field-error tags the request schemas report |
| `Bookings` | bookings.dfy | the ledger tables, invariants, free-hours and free-capacity queries, and the table logic both resource services share |
| `GqlLedger` | gql_ledger.dfy | the GraphQL resource service's mutations |
| `ResourceSchema` | resource_schema.dfy | the REST resource service's request schemas |
| `RestLedger` | rest_ledger.dfy | the REST resource service's endpoints |
| `Registry` | registry.dfy | the members table, lookup, listing |
| `MemberSchema` | member_schema.dfy | the REST member service's request schema |
| `GqlRegistry` | gql_registry.dfy | the GraphQL member service |
| `RestRegistry` | rest_registry.dfy | the REST member service |
| `Club` | club.dfy | both services together: membership checks, the delete cascade, an end-to-end run |

Calls to the other service are parameters, never performed:

- **Membership check:** `Exists`, `Absent` or `Unreachable`.
- **GraphQL purge call:** no answer, an HTTP error, or an answer with or without errors.
- **REST purge call:** no reply, or a reply with a status.

`today` is a parameter as well.

The model follows the code on these points:

- **Check order.** The GraphQL `add_campo` checks membership before the date and the hour.
- **Capacity before duplicates.** Both `add_piscina` variants check the capacity caps before the one-per-member-and-date rule.
- **Purge scope.** The purge deletes all of a member's bookings, past ones included.
- **Cascade failures.** A failed cascade is reported to the caller as an error, after the member row has already been committed as deleted.

## Model

| member | source | states |
|---|---|---|
| `Text.Upper` | DEPgraphql/member-service/app/main.py:20 | uppercasing keeps the length, leaves no lowercase letter, and changes each character only in its case |
| `Text.UpperIdempotent` | DEPgraphql/member-service/app/main.py:56 | an uppercased code is a fixed point of uppercasing |
| `Text.UpperEqualIffSameIgnoringCase` | DEPgraphql/member-service/app/main.py:84 | two codes uppercase to the same key exactly when they have the same length and agree position by position ignoring case |
| `Text.LeadingSpaces` | DEP/member-service/app/schema.py:7 | counts exactly the whitespace run at the front: all counted characters are whitespace and the next one is not |
| `Text.TrailingSpaces` | DEP/member-service/app/schema.py:7 | counts exactly the whitespace run at the end |
| `Text.Strip` | DEP/member-service/app/schema.py:7-9 | stripping yields a slice of the input whose cut-away ends are all whitespace and whose own ends are not whitespace |
| `Text.StripIdempotent` | DEP/resource-service/app/schema.py:14 | stripping a stripped string changes nothing |
| `Calendar.InSeason` | DEPgraphql/resource-service/app/main.py:154-158 | the lexicographic `(5,20) <= (month, day) <= (9,15)` test is the same as: 20..31 May, all of June to August, 1..15 September |
| `Calendar.SeasonBoundaries` | DEP/resource-service/app/schema.py:37-45 | in every year 20 May and 15 September are in season, 19 May and 16 September are not |
| `Validation.Check` | DEP/resource-service/app/schema.py:14-16 | a constraint contributes its error tag exactly when it fails, at most once |
| `Bookings.ParseCategory` | DEP/resource-service/app/schema.py:7-10 | a category string is accepted exactly when it is one of `tennis`, `beach`, `calcio`, and parses to the category of that name |
| `Bookings.ParseCategoryName` | DEPgraphql/resource-service/app/schema.py:6-10 | every category's name parses back to it |
| `Bookings.MemberGate` | DEP/resource-service/app/main.py:17-27 | only an existing member passes; an absent member is refused as unknown (404) and an unreachable member service as unreachable (503), each exactly in its own case |
| `Bookings.FreeHoursFrom` | DEP/resource-service/app/main.py:34-48 | the hours from a start up to 21 with no booking of that date and category, strictly ascending |
| `Bookings.FreeHours` | DEPgraphql/resource-service/app/main.py:45-59 | an hour is listed exactly when it lies in 10..21 and no booking holds that date, hour and category; the list is strictly ascending |
| `Bookings.UnitsOnConcat` | DEPgraphql/resource-service/app/main.py:71-72 | a date's bed and umbrella sums over two tables joined are the sums of the parts |
| `Bookings.UnitsOnAppend` | DEPgraphql/resource-service/app/main.py:160-172 | appending a row adds its units to its own date's sums and to no other date's |
| `Bookings.FreePool` | DEPgraphql/resource-service/app/main.py:69-77 | the free beds and umbrellas are never negative, complete the date's sums to 80 and 20 while the caps hold, and are 0 once a sum reaches its cap |
| `Bookings.FirstIndex` | DEPgraphql/resource-service/app/main.py:198-203 | the position of the first row equal to the query, the row `.first()` returns: no earlier row matches |
| `Bookings.Without` | DEPgraphql/resource-service/app/main.py:204-206 | deleting one row keeps every other row in order and removes exactly one copy of it |
| `Bookings.RemoveFirst` | DEPgraphql/resource-service/app/main.py:129-137 | deleting the first matching row removes exactly one copy of it when present, namely its first occurrence, with the rows before and after it kept in order; nothing changes otherwise |
| `Bookings.UnitsOnWithout` | DEP/resource-service/app/main.py:169-171 | deleting a pool row lowers its date's sums by its units and no other date's |
| `Bookings.CapsHeldWithout` | DEPgraphql/resource-service/app/main.py:204-206 | deleting a row with non-negative units keeps the 80/20 caps and non-negativity |
| `Bookings.ConsistentWithoutRow` | DEP/resource-service/app/main.py:82-90 | deleting any one field or pool row keeps every ledger invariant |
| `Bookings.PurgeFields` | DEP/resource-service/app/main.py:96 | a field booking survives the purge exactly when it was there and belongs to another code |
| `Bookings.PurgeFieldsCounts` | DEP/resource-service/app/main.py:96 | every field booking of another code keeps as many copies as it had, and none of the code's rows survives |
| `Bookings.PurgePools` | DEP/resource-service/app/main.py:97 | a pool booking survives the purge exactly when it was there and belongs to another code |
| `Bookings.PurgePoolsCounts` | DEP/resource-service/app/main.py:97 | every pool booking of another code keeps as many copies as it had, and none of the code's rows survives |
| `Bookings.Purge` | DEPgraphql/resource-service/app/main.py:213-219 | both tables lose every row of the code, whatever its date, and keep every other row |
| `Bookings.PurgeCounts` | DEPgraphql/resource-service/app/main.py:213-219 | in both tables every row of another code keeps its number of copies, and the code's rows are all gone |
| `Bookings.PurgeFieldsConcat` | DEP/resource-service/app/main.py:96 | purging two stretches of the field table separately and joining them is purging the joined table, so surviving rows keep their order |
| `Bookings.PurgePoolsConcat` | DEP/resource-service/app/main.py:97 | the same for the pool table |
| `Bookings.PurgeConcat` | DEPgraphql/resource-service/app/main.py:213-219 | the ledger-level purge keeps the order of the surviving rows in both tables |
| `Bookings.PurgeFieldsKeepsInvariants` | DEPgraphql/resource-service/app/main.py:215 | the purged field table keeps slot exclusivity and hours in the window |
| `Bookings.PurgePoolsKeepsInvariants` | DEPgraphql/resource-service/app/main.py:216 | the purged pool table keeps one booking per member and date and non-negative units, and no date's sums grow |
| `Bookings.PurgePoolsLowersSums` | DEPgraphql/resource-service/app/main.py:216 | with non-negative units, purging never raises a date's bed or umbrella sum |
| `Bookings.PurgePoolsKeepsOnePerMember` | DEP/resource-service/app/main.py:97 | the purged pool table still has at most one booking per member and date |
| `Bookings.PurgeKeepsConsistent` | DEP/resource-service/app/main.py:94-99 | a purge keeps every ledger invariant |
| `Bookings.PurgeIdempotent` | DEPgraphql/resource-service/app/main.py:212-219 | purging a code twice gives the same ledger as purging it once |
| `Bookings.PurgeFieldsIdempotent` | DEP/resource-service/app/main.py:96 | purging the field table twice is purging it once |
| `Bookings.PurgePoolsIdempotent` | DEP/resource-service/app/main.py:97 | purging the pool table twice is purging it once |
| `Bookings.CancelField` | DEPgraphql/resource-service/app/main.py:129-139 | succeeds exactly when a row equal to (uppercased code, date, hour, category) exists, then removes its first copy and nothing else, the other rows keeping their order; otherwise "not found" |
| `Bookings.CancelFieldFreesSlot` | DEPgraphql/resource-service/app/main.py:124-141 | a cancellation keeps every invariant and the freed hour is listed as free again |
| `Bookings.InsertPoolKeepsCaps` | DEPgraphql/resource-service/app/main.py:160-179 | a row that passed the cap and duplicate checks keeps the 80/20 caps and one booking per member and date, whatever the sign of its units |
| `Bookings.CancelPool` | DEPgraphql/resource-service/app/main.py:198-208 | succeeds exactly when a row equal to (uppercased code, date, beds, umbrellas) exists, then removes its first copy, keeps the order of the other rows and leaves the field table alone; otherwise "not found" |
| `Bookings.CancelPoolKeepsConsistent` | DEP/resource-service/app/main.py:161-173 | a pool cancellation keeps every invariant and gives the row's units back to its date |
| `GqlLedger.AddCampo` | DEPgraphql/resource-service/app/main.py:94-110 | checks membership (unknown or unreachable), then date after today, then hour 10..21, then slot free; the first failure is the error; success appends exactly one row under the uppercased code |
| `GqlLedger.AddCampoKeepsConsistent` | DEPgraphql/resource-service/app/main.py:104-119 | a successful field booking adds exactly one row and keeps slot exclusivity and every other invariant |
| `GqlLedger.FreeHoursPredictAddCampo` | DEPgraphql/resource-service/app/main.py:45-59 | for a member, a future date and an hour in the window, booking succeeds exactly when the free-hours query lists the hour, and afterwards it is no longer listed |
| `GqlLedger.AddThenCancelField` | DEPgraphql/resource-service/app/main.py:129-139 | cancelling a booking just made with the same request restores the ledger exactly |
| `GqlLedger.AddPiscina` | DEPgraphql/resource-service/app/main.py:143-191 | checks membership, date, season, beds cap (error quotes 80 minus the date's beds), umbrellas cap (quotes 20 minus umbrellas), then one booking per member and date; succeeds exactly when all pass, appending one row under the uppercased code |
| `GqlLedger.AddPiscinaChecked` | DEPgraphql/resource-service/app/main.py:160-172 | with the sign check added: negative units are refused right after the season check, and otherwise the result is that of `add_piscina` |
| `GqlLedger.AddPiscinaKeepsCaps` | DEPgraphql/resource-service/app/main.py:163-179 | a successful pool booking never takes a date past 80 beds or 20 umbrellas and never gives a member two bookings on one date |
| `GqlLedger.AddPiscinaCheckedKeepsConsistent` | DEPgraphql/resource-service/app/main.py:160-188 | with the sign check, a successful pool booking keeps every ledger invariant |
| `GqlLedger.FreePoolPredictsAddPiscina` | DEPgraphql/resource-service/app/main.py:69-77 | on a consistent ledger, a request is refused for beds exactly when it asks for more than the free-capacity query reports, and the refusal quotes that number; likewise for umbrellas once the beds fit |
| `GqlLedger.AddThenCancelPool` | DEPgraphql/resource-service/app/main.py:193-210 | cancelling a pool booking just made with the same request restores the ledger exactly |
| `GqlLedger.ScenarioAddsAccepted` | DEPgraphql/resource-service/app/main.py:163-188 | bookings of -50, 80 and 50 beds on one in-season date, by three registrable 16-character codes, are all accepted in turn |
| `GqlLedger.NegativeBedsBreakCap` | DEPgraphql/resource-service/app/main.py:198-206 | after those bookings, cancelling the -50 row leaves 130 beds on the date |
| `ResourceSchema.ValidateCampo` | DEP/resource-service/app/schema.py:13-23 | a date not after today is the only error reported; otherwise the request is accepted exactly when the stripped code has 16 characters, the hour is in 10..21 and the category is valid; every failing constraint is reported; the accepted code is the stripped one |
| `ResourceSchema.ValidatePiscina` | DEP/resource-service/app/schema.py:26-47 | a date not after today, then a date out of season, each aborts on its own; otherwise accepted exactly when the stripped code has 16 characters and both counts are non-negative, with every failure reported |
| `RestLedger.AddCampo` | DEP/resource-service/app/main.py:50-75 | schema errors first, then unknown or unreachable member, then "slot taken" exactly when the slot is booked; success appends one row under the stripped, uppercased code |
| `RestLedger.AddCampoAgreesWithGraphql` | DEP/resource-service/app/main.py:53-75 | on a request the schema accepts, the REST endpoint gives the GraphQL result, on every ledger |
| `RestLedger.AddCampoKeepsConsistent` | DEP/resource-service/app/main.py:53-75 | a successful REST field booking keeps every ledger invariant |
| `RestLedger.ErrorOrderDiffers` | DEP/resource-service/app/main.py:51-55 | with a past date and an unknown member, REST reports the date while GraphQL reports the member |
| `RestLedger.DeleteCampo` | DEP/resource-service/app/main.py:78-90 | after schema validation, removes the first copy of the row equal to the normalised request exactly when it exists, keeping the other rows in order, else "not found" |
| `RestLedger.FirstOn` | DEP/resource-service/app/main.py:105 | none exactly when the date has no booking; otherwise the earliest row of that date |
| `RestLedger.GetPiscina` | DEP/resource-service/app/main.py:102-115 | 80/20 when the date has no booking; otherwise 80 and 20 minus the units of the date's first booking only |
| `RestLedger.AddPiscina` | DEP/resource-service/app/main.py:118-158 | schema errors, then membership, then beds cap, umbrellas cap, one booking per member and date; success appends one row under the stripped, uppercased code |
| `RestLedger.AddPiscinaKeepsConsistent` | DEP/resource-service/app/main.py:126-147 | a successful booking keeps every invariant; on accepted requests it equals the GraphQL mutation with and without the sign check |
| `RestLedger.FreePoolPredictsAddPiscina` | DEP/resource-service/app/main.py:126-139 | with the sum-based free capacity, a request is refused for beds or umbrellas exactly when it exceeds what is reported free, quoting that number |
| `RestLedger.DeletePiscina` | DEP/resource-service/app/main.py:161-173 | after schema validation, removes the first copy of the exact (code, date, beds, umbrellas) row when present, keeping the other rows in order, else "not found" |
| `RestLedger.DeletePrenotazioni` | DEP/resource-service/app/main.py:94-99 | every booking of exactly that code is removed from both tables, every other booking stays with its number of copies, and the reply status is 200 |
| `RestLedger.DeletePrenotazioniKeepsOrder` | DEP/resource-service/app/main.py:94-99 | the bookings the route keeps stay in table order: purging two stretches and joining them is purging the whole |
| `GqlLedger.ScenarioCodesNormalised` | DEP/resource-service/app/main.py:121 | the scenarios' codes are already stripped, uppercase and 16 characters long, so both `add_member` variants accept them |
| `RestLedger.ScenarioSecondBookingAccepted` | DEP/resource-service/app/main.py:126-158 | a second 30-bed, 5-umbrella booking by another member on the same date is accepted |
| `RestLedger.GetPiscinaIgnoresLaterBookings` | DEP/resource-service/app/main.py:105-112 | with two such bookings the endpoint reports 50 beds and 15 umbrellas free, while 20 and 10 are, and a 50-bed request is refused with 20 available |
| `Registry.Lookup` | DEPgraphql/member-service/app/main.py:18-29 | finds a member exactly when the uppercased code is a key, returning that row, whose code is the key |
| `Registry.LookupIgnoresCase` | DEP/member-service/app/main.py:19 | codes that differ only in letter case find the same member, or both none |
| `Registry.AllMembers` | DEP/member-service/app/main.py:70-74 | lists as many members as are stored, each stored member at least once, nothing else, and distinct codes when the table is well keyed |
| `MemberSchema.ValidateMemberCreate` | DEP/member-service/app/schema.py:6-9 | accepted exactly when the stripped code has 16 characters and the stripped names are non-empty; the stored fields are the stripped inputs; each violated constraint is reported |
| `MemberSchema.ValidateMemberCreateIdempotent` | DEP/member-service/app/schema.py:7-9 | a validated body validates again to itself |
| `GqlRegistry.AddMember` | DEPgraphql/member-service/app/main.py:54-78 | a code not 16 characters long is refused first, then an existing code; otherwise exactly one member is added under the uppercased code, with today's date, and no other member changes |
| `GqlRegistry.AddMemberKeepsWellKeyed` | DEPgraphql/member-service/app/main.py:70-77 | adding keeps every key a normalised 16-character code matching its row |
| `GqlRegistry.AddMemberThenLookup` | DEPgraphql/member-service/app/main.py:64-67 | once added, the member is found under any spelling of its code that differs in case, and adding it again under any such spelling is refused |
| `GqlRegistry.DeleteMember` | DEPgraphql/member-service/app/main.py:81-109 | an unknown code changes nothing and sends no purge; otherwise exactly that member is removed, the purge is sent for the uppercased code, and the reply is success exactly when the purge answered without errors |
| `GqlRegistry.DeleteMemberRemovesRegardlessOfPurge` | DEPgraphql/member-service/app/main.py:89-107 | whatever the purge call does, the member is no longer found and the registry stays well keyed |
| `GqlRegistry.AddThenDeleteMember` | DEPgraphql/member-service/app/main.py:70-90 | adding a new member and deleting it restores the registry exactly |
| `RestRegistry.CheckMember` | DEP/member-service/app/main.py:17-22 | returns the member stored under the uppercased code, else "not found" |
| `RestRegistry.AddMember` | DEP/member-service/app/main.py:26-43 | schema errors first; then an existing code is refused; otherwise exactly one member is added under the stripped, uppercased code with the stripped names, and no other member changes |
| `RestRegistry.AddMemberAgreesWithGraphql` | DEP/member-service/app/main.py:28-43 | on a body the schema accepts, the REST service stores what the GraphQL service stores for the stripped strings |
| `RestRegistry.AddMemberKeepsWellKeyed` | DEP/member-service/app/main.py:35-42 | adding keeps the registry well keyed |
| `RestRegistry.EmptyNameAcceptedOnlyByGraphql` | DEP/member-service/app/schema.py:8-9 | the GraphQL service stores an empty name and surname that the REST schema refuses |
| `RestRegistry.DeleteMember` | DEP/member-service/app/main.py:47-67 | an unknown code changes nothing; otherwise exactly that member is removed, the purge is sent for the uppercased code, and the reply is success exactly when the purge answered 204, else 502 |
| `RestRegistry.DeleteMemberAcceptingSuccess` | DEP/member-service/app/main.py:59-65 | the same delete, reporting success exactly when the purge answered any 2xx status |
| `Club.MembershipOf` | DEP/resource-service/app/main.py:17-27 | the resource service learns "unreachable" exactly when the call fails, and "exists" exactly when the uppercased code is registered |
| `Club.GqlAddCampoKeepsNoOrphans` | DEPgraphql/resource-service/app/main.py:94-96 | a field booking succeeds only for a registered member, so every booking still belongs to a member |
| `Club.GqlAddPiscinaKeepsNoOrphans` | DEPgraphql/resource-service/app/main.py:148-150 | the same for pool bookings |
| `Club.RestAddCampoKeepsNoOrphans` | DEP/resource-service/app/main.py:53-55 | the same for the REST field endpoint, which asks about the stripped, uppercased code |
| `Club.RestAddPiscinaKeepsNoOrphans` | DEP/resource-service/app/main.py:121-123 | the same for the REST pool endpoint |
| `Club.RemoveWithPurgeKeepsNoOrphans` | DEP/resource-service/app/main.py:94-99 | removing a member together with a purge of its code keeps every booking attached to a member |
| `Club.GqlDeleteMember` | DEPgraphql/member-service/app/main.py:83-107 | the member is removed; when the purge is delivered, exactly its field and pool bookings go and the reply is success; when lost, the ledger is untouched and the reply is "unreachable"; every other member's row is kept unchanged |
| `Club.GqlDeleteMemberKeepsNoOrphans` | DEPgraphql/member-service/app/main.py:89-103 | a delete whose purge is delivered keeps referential integrity |
| `Club.LostPurgeLeavesOrphans` | DEPgraphql/member-service/app/main.py:100-107 | when the purge call is lost, the caller gets an error but the deleted member's bookings remain as orphans |
| `Club.RestDeleteMember` | DEP/member-service/app/main.py:47-67 | the member is removed and every other member's row kept unchanged; a delivered purge removes exactly its field and pool bookings; a lost purge leaves the ledger untouched; the reply is 502 in every case where the member existed |
| `Club.RestLostPurgeLeavesOrphans` | DEP/member-service/app/main.py:55-65 | the member row is committed before the purge request, so when the request is lost the member's bookings remain as orphans and the caller gets 502 |
| `Club.RestDeleteReportsFailureAfterPurge` | DEP/member-service/app/main.py:59-63 | even when member and bookings are gone and integrity holds, the caller is told 502 |
| `Club.RestDeleteMemberCorrected` | DEP/member-service/app/main.py:62 | accepting any 2xx: same end state, success exactly when the purge was delivered |
| `Club.RestDeleteCorrectedReportsSuccess` | DEP/resource-service/app/main.py:94-99 | with the corrected delete, a delivered purge is reported as success and integrity holds |
| `Club.EndToEnd` | DEPgraphql/resource-service/app/main.py:89-122 | register a member, book tennis at 15 on a future date, fail to book it again with "slot taken", delete the member: it is unknown, hour 15 is free again, integrity holds throughout |

## Left out

- Transport: HTTP routing, GraphQL schemas, response bodies and message text. Errors are distinct tags; REST status codes appear only where a caller reads them (the purge status 200, the expected 204).
- Persistence: SQLAlchemy sessions, commits and row ids. The tables are sequences in insertion order, so `.first()` is the earliest matching row. Column widths (`String(16)`, `String(50)`) are not enforced by the store and are not modelled.
- The GraphQL member service opens its sessions with `with get_db()` on a plain generator (DEPgraphql/member-service/app/db.py:12-17), which is not a context manager. The model assumes the session opens.
- Concurrency: each operation is atomic. The services give no isolation between the check and the insert, so races that overshoot the caps are outside a sequential model.
- Clock: `date.today()` and `datetime.utcnow().date()` are the `today` parameter. Dates are valid Gregorian dates with years 1..9999, as built by the transport. A malformed date string never reaches the modelled code.
- `Text.Upper`: maps only the ASCII letters a-z. Python's `str.upper()` also maps other Unicode letters (e.g. `ß` to `SS`, which changes the length). The code-length check after uppercasing can therefore differ on non-ASCII input.
- Calls between the services: modelled as oracle results, never performed. The REST membership check treats a 404 as "absent" and every other failure as "unreachable" (503). The GraphQL one treats any failure to reach the member service as "unreachable". When the answer carries no `data`, the GraphQL resource service fails with a different error, which is not modelled.
- The row order of `allMembers`: the database's order is not observable in the model, so the listing comes in some order.

## Findings

| source | as written | input that shows it | evidently intended | confidence | as-written member | corrected member |
|---|---|---|---|---|---|---|
| DEP/resource-service/app/main.py:105-112 | free pool capacity subtracts the units of the date's first booking only | two members each book 30 beds and 5 umbrellas on 2025-06-10: the endpoint reports 50 beds and 15 umbrellas free, 20 and 10 really are, and a 50-bed request is refused with 20 available | the caps minus the date's sums, as the GraphQL query computes | high; not executed | `RestLedger.GetPiscina`, `RestLedger.GetPiscinaIgnoresLaterBookings` | `Bookings.FreePool`, `RestLedger.FreePoolPredictsAddPiscina` |
| DEPgraphql/resource-service/app/main.py:160-188 | `add_piscina` never checks the sign of the bed and umbrella counts | members A, B, C book -50, 80 and 50 beds on one date (all accepted, sum 80); A cancels, leaving 130 beds | negative counts refused, as the REST schema does with `ge=0` | high; not executed | `GqlLedger.AddPiscina`, `GqlLedger.NegativeBedsBreakCap` | `GqlLedger.AddPiscinaChecked`, `GqlLedger.AddPiscinaCheckedKeepsConsistent` |
| DEP/member-service/app/main.py:62-63 | the delete accepts only status 204 from the purge route, which declares no status and so answers 200 (DEP/resource-service/app/main.py:94-99) | deleting any registered member while the resource service is up: member and bookings are removed, the caller receives 502 | any success status accepted | high; not executed | `Club.RestDeleteMember`, `Club.RestDeleteReportsFailureAfterPurge` | `Club.RestDeleteMemberCorrected`, `Club.RestDeleteCorrectedReportsSuccess` |
