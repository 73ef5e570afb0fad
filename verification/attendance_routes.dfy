/**
 * The attendance handlers (routes/attendance.js): check-in and check-out, the state
 * machine Closed -> Open -> Closed per gymId, and the read side (all records, records
 * of one gymId, records of one day). Timestamps are milliseconds; the clock is the
 * `now` parameter.
 */
module AttendanceRoutes {
  import opened Wrappers
  import opened MemberModel

  /** One attendance record; `checkOut == None` marks an open session. */
  datatype Attendance = Attendance(gymId: int, checkIn: int, checkOut: Option<int>)

  datatype AttendanceError = NotFound | AlreadyCheckedIn | NoActiveCheckIn | InvalidDate

  /** The check-in response: the stored record joined with two member fields that are
      not stored in the ledger. */
  datatype CheckInReceipt = CheckInReceipt(record: Attendance, memberName: string, membershipExpiry: Instant)

  /** One day in milliseconds. */
  const DAY: int := 86_400_000

  predicate IsOpenFor(a: Attendance, gymId: int)
  {
    a.gymId == gymId && a.checkOut.None?
  }

  /** `findOne({ gymId, checkOut: null })` finds something. */
  predicate HasOpen(rs: seq<Attendance>, gymId: int)
  {
    exists i :: 0 <= i < |rs| && IsOpenFor(rs[i], gymId)
  }

  /** The headline invariant: no two open records share a gymId. */
  predicate AtMostOneOpen(rs: seq<Attendance>)
  {
    forall i, j :: 0 <= i < |rs| && 0 <= j < |rs| && i != j && rs[i].checkOut.None? && rs[j].checkOut.None?
      ==> rs[i].gymId != rs[j].gymId
  }

  /** `Member.findOne({ gymId })`: the first member with that gymId. */
  function MemberWithGymId(ms: seq<Member>, gymId: int): (o: Option<Member>)
    ensures o.None? <==> forall i :: 0 <= i < |ms| ==> ms[i].gymId != gymId
    ensures o.Some? ==> o.value in ms && o.value.gymId == gymId
  {
    if ms == [] then None
    else if ms[0].gymId == gymId then Some(ms[0])
    else MemberWithGymId(ms[1..], gymId)
  }

  /** `findOne({ gymId, checkOut: null }).sort({ checkIn: -1 })`: the open record of
      `gymId` with the largest checkIn; among equal checkIns, the earliest in ledger order. */
  function LatestOpen(rs: seq<Attendance>, gymId: int): (o: Option<nat>)
    ensures o.None? <==> !HasOpen(rs, gymId)
    ensures o.Some? ==> o.value < |rs| && IsOpenFor(rs[o.value], gymId)
    ensures o.Some? ==> forall j :: 0 <= j < |rs| && IsOpenFor(rs[j], gymId) ==> rs[j].checkIn <= rs[o.value].checkIn
    ensures o.Some? ==> forall j :: 0 <= j < o.value && IsOpenFor(rs[j], gymId) ==> rs[j].checkIn < rs[o.value].checkIn
  {
    if rs == [] then None
    else
      var n := |rs| - 1;
      var prev := LatestOpen(rs[..n], gymId);
      assert forall j :: 0 <= j < n ==> rs[..n][j] == rs[j];
      if IsOpenFor(rs[n], gymId) && (prev.None? || rs[prev.value].checkIn < rs[n].checkIn) then Some(n)
      else prev
  }

  /** Under the invariant an open record of `gymId` is the only one, so it is the one
      check-out picks. */
  lemma OnlyOpenIsLatest(rs: seq<Attendance>, gymId: int, i: nat)
    requires AtMostOneOpen(rs) && i < |rs| && IsOpenFor(rs[i], gymId)
    ensures LatestOpen(rs, gymId) == Some(i)
  {
  }

  /** `find({ gymId })`: the records of one gymId, in ledger order. */
  function RecordsFor(rs: seq<Attendance>, gymId: int): (r: seq<Attendance>)
    ensures |r| <= |rs|
    ensures forall a :: a in r <==> a in rs && a.gymId == gymId
  {
    if rs == [] then []
    else (if rs[0].gymId == gymId then [rs[0]] else []) + RecordsFor(rs[1..], gymId)
  }

  lemma {:induction false} RecordsForConcat(a: seq<Attendance>, b: seq<Attendance>, gymId: int)
    ensures RecordsFor(a + b, gymId) == RecordsFor(a, gymId) + RecordsFor(b, gymId)
  {
    if a == [] {
      assert a + b == b;
    } else {
      assert (a + b)[1..] == a[1..] + b;
      RecordsForConcat(a[1..], b, gymId);
    }
  }

  /** Start of the day holding `t`. */
  function StartOfDay(t: int): (s: int)
    ensures s <= t < s + DAY && s % DAY == 0
  {
    t - t % DAY
  }

  predicate InWindow(checkIn: int, dayStart: int)
  {
    dayStart <= checkIn < dayStart + DAY
  }

  /** The window of the day of `t` holds exactly the instants of that same day: the last
      millisecond of the day is in, the first millisecond of the next day is out. */
  lemma SameDayWindow(t: int, c: int)
    ensures InWindow(c, StartOfDay(t)) <==> c / DAY == t / DAY
    ensures InWindow(StartOfDay(t) + DAY - 1, StartOfDay(t)) && !InWindow(StartOfDay(t) + DAY, StartOfDay(t))
  {
  }

  /** `find({ checkIn: { $gte: dayStart, $lt: nextDay } })`, in ledger order. */
  function RecordsInWindow(rs: seq<Attendance>, dayStart: int): (r: seq<Attendance>)
    ensures |r| <= |rs|
    ensures forall a :: a in r <==> a in rs && InWindow(a.checkIn, dayStart)
  {
    if rs == [] then []
    else (if InWindow(rs[0].checkIn, dayStart) then [rs[0]] else []) + RecordsInWindow(rs[1..], dayStart)
  }

  lemma {:induction false} RecordsInWindowConcat(a: seq<Attendance>, b: seq<Attendance>, dayStart: int)
    ensures RecordsInWindow(a + b, dayStart) == RecordsInWindow(a, dayStart) + RecordsInWindow(b, dayStart)
  {
    if a == [] {
      assert a + b == b;
    } else {
      assert (a + b)[1..] == a[1..] + b;
      RecordsInWindowConcat(a[1..], b, dayStart);
    }
  }

  /** `if (date)`: a missing or empty query string means today. */
  predicate DateGiven(date: Option<string>)
  {
    date.Some? && date.value != ""
  }

  /** GET /attendance/search?date=...: `parse` stands for `new Date(date)` (None when the
      result is not a number), `now` for the clock. */
  function SearchByDay(rs: seq<Attendance>, date: Option<string>, parse: string -> Option<int>, now: int)
    : (r: Result<seq<Attendance>, AttendanceError>)
    ensures r.Err? <==> DateGiven(date) && parse(date.value).None?
    ensures r.Err? ==> r.error == InvalidDate
    ensures r.Ok? ==>
      var t := if DateGiven(date) then parse(date.value).value else now;
      r.value == RecordsInWindow(rs, StartOfDay(t))
      && forall a :: a in r.value <==> a in rs && a.checkIn / DAY == t / DAY
  {
    var target := if DateGiven(date) then parse(date.value) else Some(now);
    if target.None? then Err(InvalidDate)
    else
      var r := RecordsInWindow(rs, StartOfDay(target.value));
      forall a | a in rs {
        SameDayWindow(target.value, a.checkIn);
      }
      Ok(r)
  }

  lemma CheckInKeepsAtMostOneOpen(rs: seq<Attendance>, gymId: int, now: int)
    requires AtMostOneOpen(rs) && !HasOpen(rs, gymId)
    ensures AtMostOneOpen(rs + [Attendance(gymId, now, None)])
  {
  }

  /** Closing the open record of `gymId` keeps the invariant and leaves `gymId` with no
      open record. */
  lemma CheckOutClosesSession(rs: seq<Attendance>, gymId: int, i: nat, now: int)
    requires AtMostOneOpen(rs) && i < |rs| && IsOpenFor(rs[i], gymId)
    ensures AtMostOneOpen(rs[i := rs[i].(checkOut := Some(now))])
    ensures !HasOpen(rs[i := rs[i].(checkOut := Some(now))], gymId)
  {
  }

  /** Every closed record was closed no earlier than it was opened. */
  predicate ClosedAfterOpened(rs: seq<Attendance>)
  {
    forall i :: 0 <= i < |rs| && rs[i].checkOut.Some? ==> rs[i].checkIn <= rs[i].checkOut.value
  }

  /** With a clock that does not run backwards (`now` not before the record's checkIn),
      closing a record keeps every closed record's checkOut at or after its checkIn. */
  lemma {:induction false} CheckOutKeepsClosedAfterOpened(rs: seq<Attendance>, i: nat, now: int)
    requires ClosedAfterOpened(rs) && i < |rs| && rs[i].checkIn <= now
    ensures ClosedAfterOpened(rs[i := rs[i].(checkOut := Some(now))])
  {
    var closed := rs[i := rs[i].(checkOut := Some(now))];
    forall j | 0 <= j < |closed| && closed[j].checkOut.Some?
      ensures closed[j].checkIn <= closed[j].checkOut.value
    {
      if j != i {
        assert closed[j] == rs[j];
      }
    }
  }

  /** A check-in adds only an open record, so closed records stay closed after they opened. */
  lemma {:induction false} CheckInKeepsClosedAfterOpened(rs: seq<Attendance>, gymId: int, now: int)
    requires ClosedAfterOpened(rs)
    ensures ClosedAfterOpened(rs + [Attendance(gymId, now, None)])
  {
    var grown := rs + [Attendance(gymId, now, None)];
    forall j | 0 <= j < |grown| && grown[j].checkOut.Some?
      ensures grown[j].checkIn <= grown[j].checkOut.value
    {
      assert grown[j] == rs[j];
    }
  }

  /** The attendance collection. */
  class Ledger {
    var records: seq<Attendance>

    ghost predicate Valid()
      reads this
    {
      AtMostOneOpen(records)
    }

    constructor ()
      ensures Valid() && records == []
    {
      records := [];
    }

    /** GET /attendance, without the join on member names. */
    method ListAll() returns (rs: seq<Attendance>)
      ensures rs == records
    {
      rs := records;
    }

    /** GET /attendance/:gymId */
    method ListFor(gymId: int) returns (rs: seq<Attendance>)
      ensures rs == RecordsFor(records, gymId)
    {
      rs := RecordsFor(records, gymId);
    }

    /** POST /attendance/checkin; `members` is the member collection as it stands. */
    method CheckIn(members: seq<Member>, gymId: int, now: int) returns (r: Result<CheckInReceipt, AttendanceError>)
      requires Valid()
      modifies this
      ensures Valid()
      ensures MemberWithGymId(members, gymId).None? ==> r == Err(NotFound) && records == old(records)
      ensures MemberWithGymId(members, gymId).Some? && HasOpen(old(records), gymId) ==>
        r == Err(AlreadyCheckedIn) && records == old(records)
      ensures MemberWithGymId(members, gymId).Some? && !HasOpen(old(records), gymId) ==>
        var m := MemberWithGymId(members, gymId).value;
        records == old(records) + [Attendance(gymId, now, None)]
        && r == Ok(CheckInReceipt(Attendance(gymId, now, None), m.name, m.expiryDate))
      ensures r.Ok? ==> HasOpen(records, gymId)
      ensures ClosedAfterOpened(old(records)) ==> ClosedAfterOpened(records)
    {
      var member := MemberWithGymId(members, gymId);
      if member.None? {
        return Err(NotFound);
      }
      if HasOpen(records, gymId) {
        return Err(AlreadyCheckedIn);
      }
      var entry := Attendance(gymId, now, None);
      CheckInKeepsAtMostOneOpen(records, gymId, now);
      if ClosedAfterOpened(records) {
        CheckInKeepsClosedAfterOpened(records, gymId, now);
      }
      records := records + [entry];
      assert IsOpenFor(records[|records| - 1], gymId);
      r := Ok(CheckInReceipt(entry, member.value.name, member.value.expiryDate));
    }

    /** POST /attendance/checkout */
    method CheckOut(gymId: int, now: int) returns (r: Result<Attendance, AttendanceError>)
      requires Valid()
      modifies this
      ensures Valid()
      ensures !HasOpen(old(records), gymId) ==> r == Err(NoActiveCheckIn) && records == old(records)
      ensures HasOpen(old(records), gymId) ==>
        var i := LatestOpen(old(records), gymId).value;
        records == old(records)[i := old(records)[i].(checkOut := Some(now))]
        && r == Ok(records[i]) && !HasOpen(records, gymId)
      ensures r.Ok? ==> r.value.gymId == gymId && r.value.checkOut == Some(now)
      ensures r.Ok? ==> (r.value.checkIn <= now <==> r.value.checkIn <= r.value.checkOut.value)
      ensures r.Ok? && r.value.checkIn <= now && ClosedAfterOpened(old(records)) ==> ClosedAfterOpened(records)
    {
      var latest := LatestOpen(records, gymId);
      if latest.None? {
        return Err(NoActiveCheckIn);
      }
      var i := latest.value;
      CheckOutClosesSession(records, gymId, i, now);
      if records[i].checkIn <= now && ClosedAfterOpened(records) {
        CheckOutKeepsClosedAfterOpened(records, i, now);
      }
      records := records[i := records[i].(checkOut := Some(now))];
      r := Ok(records[i]);
    }
  }
}
