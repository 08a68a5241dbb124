/** The booking ledger's data: field bookings and pool bookings held in two tables,
    the ledger's constants, its consistency invariant, and the table operations both
    service variants share (free hours, free pool capacity, removal of one row, and
    the purge of one member's bookings). */
module Bookings {
  import opened Outcomes
  import opened Calendar
  import opened Validation
  import opened Text

  datatype Category = Tennis | Beach | Calcio

  function CategoryName(c: Category): string {
    match c
    case Tennis => "tennis"
    case Beach => "beach"
    case Calcio => "calcio"
  }

  /** The enumeration lookup: exactly the three category names are accepted. */
  function ParseCategory(s: string): (r: Option<Category>)
    ensures r.Some? <==> s == "tennis" || s == "beach" || s == "calcio"
    ensures r.Some? ==> CategoryName(r.value) == s
  {
    if s == "tennis" then Some(Tennis)
    else if s == "beach" then Some(Beach)
    else if s == "calcio" then Some(Calcio)
    else None
  }

  /** Naming a category and parsing the name gives the category back. */
  lemma ParseCategoryName(c: Category)
    ensures ParseCategory(CategoryName(c)) == Some(c)
  {
  }

  /** Fields are booked by the hour, for start hours 10 through 21. */
  const OpeningHour := 10
  const ClosingHour := 21
  const BedCapacity := 80
  const UmbrellaCapacity := 20

  predicate InOpeningHours(h: int) {
    OpeningHour <= h <= ClosingHour
  }

  /** One row of the field table (its auto-assigned id is never observed). */
  datatype FieldBooking = FieldBooking(cf: string, date: Date, hour: int, category: Category)

  /** One row of the pool table. */
  datatype PoolBooking = PoolBooking(cf: string, date: Date, beds: int, umbrellas: int)

  /** Both tables, rows in insertion order. */
  datatype Ledger = Ledger(fields: seq<FieldBooking>, pools: seq<PoolBooking>)

  /** What the member service answered about a code. */
  datatype Membership = Exists | Absent | Unreachable

  datatype LedgerError =
    | MemberUnknown
    | MemberServiceUnreachable
    | DateNotFuture
    | OutOfSeason
    | HourOutOfRange
    | SlotTaken
    | BedsExceeded(available: int)
    | UmbrellasExceeded(available: int)
    | AlreadyReserved
    | BookingNotFound
    | NegativeUnits
    | InvalidFields(errors: seq<FieldError>)

  /** The membership gate both `add_*` operations pass first: an unreachable member
      service is reported apart from an unknown member. */
  function MemberGate(m: Membership): (r: Outcome<LedgerError>)
    ensures r.Pass? <==> m == Exists
    ensures r == Fail(MemberServiceUnreachable) <==> m == Unreachable
    ensures r == Fail(MemberUnknown) <==> m == Absent
  {
    match m
    case Exists => Pass
    case Absent => Fail(MemberUnknown)
    case Unreachable => Fail(MemberServiceUnreachable)
  }

  // ---------------------------------------------------------------- field table

  predicate Occupies(b: FieldBooking, d: Date, h: int, c: Category) {
    b.date == d && b.hour == h && b.category == c
  }

  predicate SameSlot(a: FieldBooking, b: FieldBooking) {
    Occupies(a, b.date, b.hour, b.category)
  }

  /** The query `filter(data, ora, tipologia).first()` found a row. */
  predicate SlotBooked(fields: seq<FieldBooking>, d: Date, h: int, c: Category) {
    exists i :: 0 <= i < |fields| && Occupies(fields[i], d, h, c)
  }

  /** Free hours from `from` up to the last bookable hour, in ascending order. */
  function FreeHoursFrom(fields: seq<FieldBooking>, d: Date, c: Category, from: int): (r: seq<int>)
    requires OpeningHour <= from <= ClosingHour + 1
    ensures forall h :: h in r <==> from <= h <= ClosingHour && !SlotBooked(fields, d, h, c)
    ensures forall i, j :: 0 <= i < j < |r| ==> r[i] < r[j]
    decreases ClosingHour + 1 - from
  {
    if from > ClosingHour then []
    else
      var rest := FreeHoursFrom(fields, d, c, from + 1);
      assert forall k :: 0 <= k < |rest| ==> rest[k] in rest;
      if SlotBooked(fields, d, from, c) then rest else [from] + rest
  }

  /** The free hours of one category on one date: every hour of the daily window
      that no booking occupies, ascending, each once. */
  function FreeHours(fields: seq<FieldBooking>, d: Date, c: Category): (r: seq<int>)
    ensures forall h :: h in r <==> InOpeningHours(h) && !SlotBooked(fields, d, h, c)
    ensures forall i, j :: 0 <= i < j < |r| ==> r[i] < r[j]
  {
    FreeHoursFrom(fields, d, c, OpeningHour)
  }

  /** No two field bookings hold the same (date, hour, category) slot. */
  predicate SlotsExclusive(fields: seq<FieldBooking>) {
    forall i, j :: 0 <= i < j < |fields| ==> !SameSlot(fields[i], fields[j])
  }

  predicate HoursInWindow(fields: seq<FieldBooking>) {
    forall i :: 0 <= i < |fields| ==> InOpeningHours(fields[i].hour)
  }

  // ----------------------------------------------------------------- pool table

  function BedsOn(pools: seq<PoolBooking>, d: Date): int {
    if |pools| == 0 then 0
    else (if pools[0].date == d then pools[0].beds else 0) + BedsOn(pools[1..], d)
  }

  function UmbrellasOn(pools: seq<PoolBooking>, d: Date): int {
    if |pools| == 0 then 0
    else (if pools[0].date == d then pools[0].umbrellas else 0) + UmbrellasOn(pools[1..], d)
  }

  /** The per-date sums are additive over concatenated tables. */
  lemma {:induction false} UnitsOnConcat(a: seq<PoolBooking>, b: seq<PoolBooking>, d: Date)
    ensures BedsOn(a + b, d) == BedsOn(a, d) + BedsOn(b, d)
    ensures UmbrellasOn(a + b, d) == UmbrellasOn(a, d) + UmbrellasOn(b, d)
  {
    if |a| == 0 {
      assert a + b == b;
    } else {
      assert (a + b)[1..] == a[1..] + b;
      UnitsOnConcat(a[1..], b, d);
    }
  }

  /** Appending one row adds its units to its own date and to no other. */
  lemma UnitsOnAppend(pools: seq<PoolBooking>, p: PoolBooking, d: Date)
    ensures BedsOn(pools + [p], d) == BedsOn(pools, d) + (if p.date == d then p.beds else 0)
    ensures UmbrellasOn(pools + [p], d) == UmbrellasOn(pools, d) + (if p.date == d then p.umbrellas else 0)
  {
    UnitsOnConcat(pools, [p], d);
  }

  /** The pool's free units on a date as the GraphQL query reports them: the caps
      minus the date's sums, never below zero. */
  datatype PoolAvailability = PoolAvailability(beds: int, umbrellas: int)

  function FreePool(pools: seq<PoolBooking>, d: Date): (r: PoolAvailability)
    ensures r.beds >= 0 && r.umbrellas >= 0
    ensures BedsOn(pools, d) <= BedCapacity ==> BedsOn(pools, d) + r.beds == BedCapacity
    ensures BedsOn(pools, d) >= BedCapacity ==> r.beds == 0
    ensures UmbrellasOn(pools, d) <= UmbrellaCapacity ==> UmbrellasOn(pools, d) + r.umbrellas == UmbrellaCapacity
    ensures UmbrellasOn(pools, d) >= UmbrellaCapacity ==> r.umbrellas == 0
  {
    var beds := BedCapacity - BedsOn(pools, d);
    var umbrellas := UmbrellaCapacity - UmbrellasOn(pools, d);
    PoolAvailability(if beds > 0 then beds else 0, if umbrellas > 0 then umbrellas else 0)
  }

  /** The query `filter(data, cf).first()` found a row. */
  predicate HasReservation(pools: seq<PoolBooking>, cf: string, d: Date) {
    exists i :: 0 <= i < |pools| && pools[i].cf == cf && pools[i].date == d
  }

  /** No date carries more than 80 beds or more than 20 umbrellas. */
  ghost predicate CapsHeld(pools: seq<PoolBooking>) {
    forall d :: BedsOn(pools, d) <= BedCapacity && UmbrellasOn(pools, d) <= UmbrellaCapacity
  }

  /** A member holds at most one pool booking per date. */
  predicate OnePerMemberAndDate(pools: seq<PoolBooking>) {
    forall i, j :: 0 <= i < j < |pools| ==>
      !(pools[i].cf == pools[j].cf && pools[i].date == pools[j].date)
  }

  predicate UnitsNonNegative(pools: seq<PoolBooking>) {
    forall i :: 0 <= i < |pools| ==> pools[i].beds >= 0 && pools[i].umbrellas >= 0
  }

  /** Every invariant the ledger's check-before-insert logic is meant to keep. */
  ghost predicate Consistent(l: Ledger) {
    && SlotsExclusive(l.fields)
    && HoursInWindow(l.fields)
    && CapsHeld(l.pools)
    && OnePerMemberAndDate(l.pools)
    && UnitsNonNegative(l.pools)
  }

  // ------------------------------------------------------------- row removal

  /** Index of the first row equal to `x`: the row `.first()` returns. */
  function FirstIndex<T(==)>(s: seq<T>, x: T): (k: nat)
    requires x in s
    ensures k < |s| && s[k] == x
    ensures forall i :: 0 <= i < k ==> s[i] != x
  {
    if s[0] == x then 0 else 1 + FirstIndex(s[1..], x)
  }

  /** The table without its `k`-th row; the others keep their order. */
  function Without<T>(s: seq<T>, k: nat): (r: seq<T>)
    requires k < |s|
    ensures |r| == |s| - 1
    ensures forall i :: 0 <= i < |r| ==> r[i] == if i < k then s[i] else s[i + 1]
    ensures multiset(r) == multiset(s) - multiset{s[k]}
  {
    assert s == s[..k] + [s[k]] + s[k + 1..];
    s[..k] + s[k + 1..]
  }

  /** Deleting the first row equal to `x`, as `db.delete(query.first())` does: the
      rows before and after it keep their order. */
  function RemoveFirst<T(==)>(s: seq<T>, x: T): (r: seq<T>)
    ensures x in s ==> multiset(r) == multiset(s) - multiset{x} && |r| == |s| - 1
    ensures x in s ==> exists k :: 0 <= k < |s| && s[k] == x && x !in s[..k] && r == s[..k] + s[k + 1..]
    ensures x !in s ==> r == s
  {
    if x in s then
      var k := FirstIndex(s, x);
      assert x !in s[..k];
      Without(s, k)
    else s
  }

  lemma UnitsOnWithout(pools: seq<PoolBooking>, k: nat, d: Date)
    requires k < |pools|
    ensures BedsOn(Without(pools, k), d)
            == BedsOn(pools, d) - (if pools[k].date == d then pools[k].beds else 0)
    ensures UmbrellasOn(Without(pools, k), d)
            == UmbrellasOn(pools, d) - (if pools[k].date == d then pools[k].umbrellas else 0)
  {
    assert pools == pools[..k] + [pools[k]] + pools[k + 1..];
    UnitsOnConcat(pools[..k] + [pools[k]], pools[k + 1..], d);
    UnitsOnConcat(pools[..k], [pools[k]], d);
    UnitsOnConcat(pools[..k], pools[k + 1..], d);
  }

  /** Removing a row with non-negative units never raises a date's sums. */
  lemma CapsHeldWithout(pools: seq<PoolBooking>, k: nat)
    requires k < |pools|
    requires CapsHeld(pools) && UnitsNonNegative(pools)
    ensures CapsHeld(Without(pools, k)) && UnitsNonNegative(Without(pools, k))
  {
    forall d: Date
      ensures BedsOn(Without(pools, k), d) <= BedCapacity
      ensures UmbrellasOn(Without(pools, k), d) <= UmbrellaCapacity
    {
      UnitsOnWithout(pools, k, d);
    }
  }

  /** Removing a row keeps every field and pool invariant. */
  lemma ConsistentWithoutRow(l: Ledger, kf: nat, kp: nat)
    requires Consistent(l)
    ensures kf < |l.fields| ==> Consistent(Ledger(Without(l.fields, kf), l.pools))
    ensures kp < |l.pools| ==> Consistent(Ledger(l.fields, Without(l.pools, kp)))
  {
    if kp < |l.pools| {
      CapsHeldWithout(l.pools, kp);
    }
  }

  // ------------------------------------------------------------------- purge

  /** The field table without the rows of member `cf`; every other row keeps its
      number of copies (`PurgeFieldsCounts`) and its place (`PurgeFieldsConcat`). */
  function PurgeFields(fields: seq<FieldBooking>, cf: string): (r: seq<FieldBooking>)
    ensures forall b :: b in r <==> b in fields && b.cf != cf
    ensures |r| <= |fields|
  {
    if |fields| == 0 then []
    else if fields[0].cf == cf then PurgeFields(fields[1..], cf)
      else [fields[0]] + PurgeFields(fields[1..], cf)
  }

  /** The pool table without the rows of member `cf`; every other row keeps its
      number of copies (`PurgePoolsCounts`) and its place (`PurgePoolsConcat`). */
  function PurgePools(pools: seq<PoolBooking>, cf: string): (r: seq<PoolBooking>)
    ensures forall p :: p in r <==> p in pools && p.cf != cf
    ensures |r| <= |pools|
  {
    if |pools| == 0 then []
    else if pools[0].cf == cf then PurgePools(pools[1..], cf)
      else [pools[0]] + PurgePools(pools[1..], cf)
  }

  /** The bulk delete drops every copy of the member's rows and no copy of any
      other row. */
  lemma {:induction false} PurgeFieldsCounts(fields: seq<FieldBooking>, cf: string)
    ensures forall b :: multiset(PurgeFields(fields, cf))[b] == if b.cf == cf then 0 else multiset(fields)[b]
  {
    if |fields| > 0 {
      assert fields == [fields[0]] + fields[1..];
      PurgeFieldsCounts(fields[1..], cf);
    }
  }

  lemma {:induction false} PurgePoolsCounts(pools: seq<PoolBooking>, cf: string)
    ensures forall p :: multiset(PurgePools(pools, cf))[p] == if p.cf == cf then 0 else multiset(pools)[p]
  {
    if |pools| > 0 {
      assert pools == [pools[0]] + pools[1..];
      PurgePoolsCounts(pools[1..], cf);
    }
  }

  /** The bulk delete works row by row: purging two stretches of the table one
      after the other is purging the whole, so the surviving rows keep their order. */
  lemma {:induction false} PurgeFieldsConcat(a: seq<FieldBooking>, b: seq<FieldBooking>, cf: string)
    ensures PurgeFields(a + b, cf) == PurgeFields(a, cf) + PurgeFields(b, cf)
  {
    if |a| == 0 {
      assert a + b == b;
    } else {
      assert (a + b)[0] == a[0] && (a + b)[1..] == a[1..] + b;
      PurgeFieldsConcat(a[1..], b, cf);
    }
  }

  lemma {:induction false} PurgePoolsConcat(a: seq<PoolBooking>, b: seq<PoolBooking>, cf: string)
    ensures PurgePools(a + b, cf) == PurgePools(a, cf) + PurgePools(b, cf)
  {
    if |a| == 0 {
      assert a + b == b;
    } else {
      assert (a + b)[0] == a[0] && (a + b)[1..] == a[1..] + b;
      PurgePoolsConcat(a[1..], b, cf);
    }
  }

  /** `delete_prenotazioni`: both tables lose every row whose code equals `cf`
      exactly, whatever its date; every other row keeps its number of copies
      (`PurgeCounts`) and its place (`PurgeConcat`). */
  function Purge(l: Ledger, cf: string): (r: Ledger)
    ensures forall b :: b in r.fields <==> b in l.fields && b.cf != cf
    ensures forall p :: p in r.pools <==> p in l.pools && p.cf != cf
  {
    Ledger(PurgeFields(l.fields, cf), PurgePools(l.pools, cf))
  }

  lemma PurgeCounts(l: Ledger, cf: string)
    ensures forall b :: multiset(Purge(l, cf).fields)[b] == if b.cf == cf then 0 else multiset(l.fields)[b]
    ensures forall p :: multiset(Purge(l, cf).pools)[p] == if p.cf == cf then 0 else multiset(l.pools)[p]
  {
    PurgeFieldsCounts(l.fields, cf);
    PurgePoolsCounts(l.pools, cf);
  }

  /** Purging a ledger split into two stretches per table is purging each stretch:
      the surviving rows of both tables keep their relative order. */
  lemma PurgeConcat(a: Ledger, b: Ledger, cf: string)
    ensures Purge(Ledger(a.fields + b.fields, a.pools + b.pools), cf)
            == Ledger(Purge(a, cf).fields + Purge(b, cf).fields, Purge(a, cf).pools + Purge(b, cf).pools)
  {
    PurgeFieldsConcat(a.fields, b.fields, cf);
    PurgePoolsConcat(a.pools, b.pools, cf);
  }

  /** A row that shares no slot with any row of an exclusive table can be put in
      front of it. */
  lemma PrependKeepsSlotsExclusive(b: FieldBooking, rest: seq<FieldBooking>)
    requires SlotsExclusive(rest)
    requires forall j :: 0 <= j < |rest| ==> !SameSlot(b, rest[j])
    ensures SlotsExclusive([b] + rest)
  {
    var r := [b] + rest;
    forall i, j | 0 <= i < j < |r| ensures !SameSlot(r[i], r[j]) {
      if i > 0 {
        assert r[i] == rest[i - 1] && r[j] == rest[j - 1];
      }
    }
  }

  /** A row whose member has no other row on its date can be put in front. */
  lemma PrependKeepsOnePerMemberAndDate(p: PoolBooking, rest: seq<PoolBooking>)
    requires OnePerMemberAndDate(rest)
    requires forall j :: 0 <= j < |rest| ==> !(p.cf == rest[j].cf && p.date == rest[j].date)
    ensures OnePerMemberAndDate([p] + rest)
  {
    var r := [p] + rest;
    forall i, j | 0 <= i < j < |r| ensures !(r[i].cf == r[j].cf && r[i].date == r[j].date) {
      if i > 0 {
        assert r[i] == rest[i - 1] && r[j] == rest[j - 1];
      }
    }
  }

  lemma {:induction false} PurgeFieldsKeepsInvariants(fields: seq<FieldBooking>, cf: string)
    requires SlotsExclusive(fields) && HoursInWindow(fields)
    ensures SlotsExclusive(PurgeFields(fields, cf)) && HoursInWindow(PurgeFields(fields, cf))
  {
    var r := PurgeFields(fields, cf);
    assert forall k :: 0 <= k < |r| ==> r[k] in r;
    assert forall k :: 0 <= k < |fields| ==> fields[k] in fields;
    if |fields| > 0 {
      var tail := fields[1..];
      var rest := PurgeFields(tail, cf);
      assert SlotsExclusive(tail) by {
        forall i, j | 0 <= i < j < |tail| ensures !SameSlot(tail[i], tail[j]) {
          assert tail[i] == fields[i + 1] && tail[j] == fields[j + 1];
        }
      }
      PurgeFieldsKeepsInvariants(tail, cf);
      if fields[0].cf != cf {
        forall j | 0 <= j < |rest| ensures !SameSlot(fields[0], rest[j]) {
          assert rest[j] in rest;
          var k :| 0 <= k < |tail| && tail[k] == rest[j];
          assert fields[k + 1] == rest[j];
        }
        PrependKeepsSlotsExclusive(fields[0], rest);
      }
    }
  }

  /** Purging never raises any date's sums, given non-negative units. */
  lemma {:induction false} PurgePoolsLowersSums(pools: seq<PoolBooking>, cf: string, d: Date)
    requires UnitsNonNegative(pools)
    ensures BedsOn(PurgePools(pools, cf), d) <= BedsOn(pools, d)
    ensures UmbrellasOn(PurgePools(pools, cf), d) <= UmbrellasOn(pools, d)
  {
    if |pools| > 0 {
      var tail := pools[1..];
      assert UnitsNonNegative(tail) by {
        forall k | 0 <= k < |tail| ensures tail[k].beds >= 0 && tail[k].umbrellas >= 0 {
          assert tail[k] == pools[k + 1];
        }
      }
      PurgePoolsLowersSums(tail, cf, d);
      if pools[0].cf != cf {
        var r := [pools[0]] + PurgePools(tail, cf);
        assert r[1..] == PurgePools(tail, cf);
      }
    }
  }

  lemma {:induction false} PurgePoolsKeepsOnePerMember(pools: seq<PoolBooking>, cf: string)
    requires OnePerMemberAndDate(pools)
    ensures OnePerMemberAndDate(PurgePools(pools, cf))
  {
    if |pools| > 0 {
      var tail := pools[1..];
      var rest := PurgePools(tail, cf);
      assert OnePerMemberAndDate(tail) by {
        forall i, j | 0 <= i < j < |tail| ensures !(tail[i].cf == tail[j].cf && tail[i].date == tail[j].date) {
          assert tail[i] == pools[i + 1] && tail[j] == pools[j + 1];
        }
      }
      PurgePoolsKeepsOnePerMember(tail, cf);
      if pools[0].cf != cf {
        forall j | 0 <= j < |rest| ensures !(pools[0].cf == rest[j].cf && pools[0].date == rest[j].date) {
          assert rest[j] in rest;
          var k :| 0 <= k < |tail| && tail[k] == rest[j];
          assert pools[k + 1] == rest[j];
        }
        PrependKeepsOnePerMemberAndDate(pools[0], rest);
      }
    }
  }

  lemma PurgePoolsKeepsInvariants(pools: seq<PoolBooking>, cf: string)
    requires OnePerMemberAndDate(pools) && UnitsNonNegative(pools)
    ensures OnePerMemberAndDate(PurgePools(pools, cf)) && UnitsNonNegative(PurgePools(pools, cf))
    ensures forall d :: BedsOn(PurgePools(pools, cf), d) <= BedsOn(pools, d)
    ensures forall d :: UmbrellasOn(PurgePools(pools, cf), d) <= UmbrellasOn(pools, d)
  {
    PurgePoolsKeepsOnePerMember(pools, cf);
    var r := PurgePools(pools, cf);
    forall k | 0 <= k < |r| ensures r[k].beds >= 0 && r[k].umbrellas >= 0 {
      assert r[k] in r;
      var m :| 0 <= m < |pools| && pools[m] == r[k];
    }
    forall d: Date
      ensures BedsOn(r, d) <= BedsOn(pools, d)
      ensures UmbrellasOn(r, d) <= UmbrellasOn(pools, d)
    {
      PurgePoolsLowersSums(pools, cf, d);
    }
  }

  /** Purging keeps every invariant of the ledger. */
  lemma PurgeKeepsConsistent(l: Ledger, cf: string)
    requires Consistent(l)
    ensures Consistent(Purge(l, cf))
  {
    PurgeFieldsKeepsInvariants(l.fields, cf);
    PurgePoolsKeepsInvariants(l.pools, cf);
  }

  /** Purging the same member twice is purging once. */
  lemma {:induction false} PurgeIdempotent(l: Ledger, cf: string)
    ensures Purge(Purge(l, cf), cf) == Purge(l, cf)
  {
    PurgeFieldsIdempotent(l.fields, cf);
    PurgePoolsIdempotent(l.pools, cf);
  }

  lemma {:induction false} PurgeFieldsIdempotent(fields: seq<FieldBooking>, cf: string)
    ensures PurgeFields(PurgeFields(fields, cf), cf) == PurgeFields(fields, cf)
  {
    if |fields| > 0 {
      PurgeFieldsIdempotent(fields[1..], cf);
      if fields[0].cf != cf {
        var r := [fields[0]] + PurgeFields(fields[1..], cf);
        assert r[1..] == PurgeFields(fields[1..], cf);
      }
    }
  }

  lemma {:induction false} PurgePoolsIdempotent(pools: seq<PoolBooking>, cf: string)
    ensures PurgePools(PurgePools(pools, cf), cf) == PurgePools(pools, cf)
  {
    if |pools| > 0 {
      PurgePoolsIdempotent(pools[1..], cf);
      if pools[0].cf != cf {
        var r := [pools[0]] + PurgePools(pools[1..], cf);
        assert r[1..] == PurgePools(pools[1..], cf);
      }
    }
  }

  // ------------------------------------------------ insertion and cancellation

  /** The tail both `add_campo` variants share: the slot check, then the insertion
      of one row under the (already uppercased) code. */
  function InsertField(l: Ledger, cf: string, d: Date, hour: int, c: Category): Result<Ledger, LedgerError> {
    if SlotBooked(l.fields, d, hour, c) then Err(SlotTaken)
    else Ok(Ledger(l.fields + [FieldBooking(cf, d, hour, c)], l.pools))
  }

  /** `delete_campo`: the row equal to (uppercased code, date, hour, category) is
      removed, or the booking is not found; the pool table is untouched. */
  function CancelField(l: Ledger, cf: string, d: Date, hour: int, c: Category): (r: Result<Ledger, LedgerError>)
    ensures var b := FieldBooking(Upper(cf), d, hour, c);
            && (r.Ok? <==> b in l.fields)
            && (r.Err? ==> r.error == BookingNotFound)
            && (r.Ok? ==> r.value.pools == l.pools
                          && multiset(r.value.fields) == multiset(l.fields) - multiset{b}
                          && exists k :: && 0 <= k < |l.fields| && l.fields[k] == b && b !in l.fields[..k]
                                         && r.value.fields == l.fields[..k] + l.fields[k + 1..])
  {
    var b := FieldBooking(Upper(cf), d, hour, c);
    if b in l.fields then Ok(Ledger(RemoveFirst(l.fields, b), l.pools)) else Err(BookingNotFound)
  }

  /** Cancelling a booking keeps the invariants and gives its hour back to the
      free-hours query. */
  lemma CancelFieldFreesSlot(l: Ledger, cf: string, d: Date, hour: int, c: Category)
    requires Consistent(l)
    ensures var r := CancelField(l, cf, d, hour, c);
            r.Ok? ==> Consistent(r.value) && hour in FreeHours(r.value.fields, d, c)
  {
    var b := FieldBooking(Upper(cf), d, hour, c);
    if b in l.fields {
      var k := FirstIndex(l.fields, b);
      ConsistentWithoutRow(l, k, |l.pools|);
      var f := Without(l.fields, k);
      forall i | 0 <= i < |f| ensures !Occupies(f[i], d, hour, c) {
        if i < k {
          assert !SameSlot(l.fields[i], l.fields[k]);
        } else {
          assert !SameSlot(l.fields[k], l.fields[i + 1]);
        }
      }
    }
  }

  /** The tail both `add_piscina` variants share: the beds cap, the umbrellas cap,
      then the one-per-member-and-date check, then the insertion of one row under
      the (already uppercased) code. */
  function InsertPool(l: Ledger, cf: string, d: Date, beds: int, umbrellas: int): Result<Ledger, LedgerError> {
    var bedsTaken := BedsOn(l.pools, d);
    var umbrellasTaken := UmbrellasOn(l.pools, d);
    if bedsTaken + beds > BedCapacity then Err(BedsExceeded(BedCapacity - bedsTaken))
    else if umbrellasTaken + umbrellas > UmbrellaCapacity then Err(UmbrellasExceeded(UmbrellaCapacity - umbrellasTaken))
    else if HasReservation(l.pools, cf, d) then Err(AlreadyReserved)
    else Ok(Ledger(l.fields, l.pools + [PoolBooking(cf, d, beds, umbrellas)]))
  }

  /** Appending a pool row that passed the capacity and duplicate checks keeps the
      caps and the one-per-member-and-date rule, whatever the sign of its units. */
  lemma InsertPoolKeepsCaps(l: Ledger, cf: string, d: Date, beds: int, umbrellas: int)
    requires CapsHeld(l.pools) && OnePerMemberAndDate(l.pools)
    ensures var r := InsertPool(l, cf, d, beds, umbrellas);
            r.Ok? ==> CapsHeld(r.value.pools) && OnePerMemberAndDate(r.value.pools)
                      && r.value.fields == l.fields
  {
    var r := InsertPool(l, cf, d, beds, umbrellas);
    if r.Ok? {
      var p := PoolBooking(cf, d, beds, umbrellas);
      var q := l.pools + [p];
      forall e: Date
        ensures BedsOn(q, e) <= BedCapacity && UmbrellasOn(q, e) <= UmbrellaCapacity
      {
        UnitsOnAppend(l.pools, p, e);
      }
      forall i, j | 0 <= i < j < |q| ensures !(q[i].cf == q[j].cf && q[i].date == q[j].date) {
        if j == |l.pools| {
          assert !(l.pools[i].cf == cf && l.pools[i].date == d);
        }
      }
    }
  }

  /** `delete_piscina`: only a row equal in code (uppercased), date, beds and
      umbrellas is removed; otherwise the booking is not found. */
  function CancelPool(l: Ledger, cf: string, d: Date, beds: int, umbrellas: int): (r: Result<Ledger, LedgerError>)
    ensures var p := PoolBooking(Upper(cf), d, beds, umbrellas);
            && (r.Ok? <==> p in l.pools)
            && (r.Err? ==> r.error == BookingNotFound)
            && (r.Ok? ==> r.value.fields == l.fields
                          && multiset(r.value.pools) == multiset(l.pools) - multiset{p}
                          && exists k :: && 0 <= k < |l.pools| && l.pools[k] == p && p !in l.pools[..k]
                                         && r.value.pools == l.pools[..k] + l.pools[k + 1..])
  {
    var p := PoolBooking(Upper(cf), d, beds, umbrellas);
    if p in l.pools then Ok(Ledger(l.fields, RemoveFirst(l.pools, p))) else Err(BookingNotFound)
  }

  /** Cancelling a pool booking keeps every invariant and hands its units back to
      the free-capacity query. */
  lemma CancelPoolKeepsConsistent(l: Ledger, cf: string, d: Date, beds: int, umbrellas: int)
    requires Consistent(l)
    ensures var r := CancelPool(l, cf, d, beds, umbrellas);
            r.Ok? ==> && Consistent(r.value)
                      && BedsOn(r.value.pools, d) == BedsOn(l.pools, d) - beds
                      && UmbrellasOn(r.value.pools, d) == UmbrellasOn(l.pools, d) - umbrellas
  {
    var p := PoolBooking(Upper(cf), d, beds, umbrellas);
    if p in l.pools {
      var k := FirstIndex(l.pools, p);
      ConsistentWithoutRow(l, |l.fields|, k);
      UnitsOnWithout(l.pools, k, d);
    }
  }
}
