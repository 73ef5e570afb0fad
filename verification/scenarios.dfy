/**
 * Sequences of handler calls on a fresh gym, checked from the handlers' contracts alone.
 */
module Scenarios {
  import opened Wrappers
  import opened MemberModel
  import opened MemberRoutes
  import opened AttendanceRoutes

  /** The first member of an empty collection gets gymId 101. */
  method CreateOnEmpty(directory: Directory, name: string, email: string, phone: string, address: string,
                       plan: MembershipType, joined: Instant)
    returns (gymId: int)
    requires directory.Valid() && directory.members == []
    requires !AllWhitespace(name) && email != "" && phone != "" && address != ""
    modifies directory
    ensures directory.Valid() && gymId == 101
    ensures |directory.members| == 1 && directory.members[0].gymId == gymId
  {
    PlansArePositive(plan);
    assert AllPresent(Some(name), Some(email), Some(phone), Some(address), Some(TypeName(plan)));
    ghost var m := Candidate([], directory.nextKey, name, email, phone, address, TypeName(plan), joined);
    assert Accepts([], m);
    var created := directory.CreateMember(Some(name), Some(email), Some(phone), Some(address),
                                          Some(TypeName(plan)), joined);
    assert created == Ok(Created(m.gymId, m.price)) && directory.members == [m];
    gymId := created.value.gymId;
  }

  /** A member with no history checks in and then out: the ledger holds one closed record. */
  method VisitOnce(ledger: Ledger, members: seq<Member>, gymId: int, arrive: int, leave: int)
    requires ledger.Valid() && ledger.records == [] && MemberWithGymId(members, gymId).Some?
    modifies ledger
    ensures ledger.Valid() && ledger.records == [Attendance(gymId, arrive, Some(leave))]
  {
    assert !HasOpen(ledger.records, gymId);
    var entered := ledger.CheckIn(members, gymId, arrive);
    var open := Attendance(gymId, arrive, None);
    assert ledger.records == [open];
    assert HasOpen(ledger.records, gymId) && LatestOpen([open], gymId) == Some(0);
    var left := ledger.CheckOut(gymId, leave);
    var closed := Attendance(gymId, arrive, Some(leave));
    assert ledger.records == [open][0 := closed];
    assert [open][0 := closed] == [closed];
  }

  /** Create a member, check in, check out, list the member's history: one closed record
      with both timestamps, the check-out not before the check-in. */
  method RoundTrip(name: string, email: string, phone: string, address: string,
                   plan: MembershipType, joined: Instant, arrive: int, leave: int)
    returns (gymId: int, history: seq<Attendance>)
    requires !AllWhitespace(name) && email != "" && phone != "" && address != ""
    requires arrive <= leave
    ensures gymId == 101
    ensures history == [Attendance(gymId, arrive, Some(leave))]
    ensures history[0].checkIn <= history[0].checkOut.value
  {
    var directory := new Directory();
    var ledger := new Ledger();
    gymId := CreateOnEmpty(directory, name, email, phone, address, plan, joined);
    assert MemberWithGymId(directory.members, gymId).Some?;
    VisitOnce(ledger, directory.members, gymId, arrive, leave);
    assert RecordsFor(ledger.records[1..], gymId) == [];
    history := ledger.ListFor(gymId);
  }

  /** Deleting the only member and creating another one hands out gymId 101 again. */
  method ReplaceOnlyMember(directory: Directory, name: string, email: string, phone: string, address: string,
                           plan: MembershipType, joined: Instant)
    returns (gymId: int)
    requires directory.Valid() && |directory.members| == 1
    requires !AllWhitespace(name) && email != "" && phone != "" && address != ""
    modifies directory
    ensures directory.Valid() && gymId == 101
    ensures |directory.members| == 1 && directory.members[0].gymId == gymId
  {
    var key := directory.members[0].key;
    assert IndexOfKey(directory.members, key) == Some(0);
    var deleted := directory.DeleteMember(key);
    assert directory.members == [];
    gymId := CreateOnEmpty(directory, name, email, phone, address, plan, joined);
  }

  /** Deleting the member with the largest gymId hands that gymId to the next member,
      who then inherits the deleted member's open session and is refused check-in. */
  method DeletedGymIdIsReused(first: string, second: string, email1: string, email2: string,
                              phone1: string, phone2: string, address: string,
                              plan: MembershipType, joined: Instant, arrive: int, later: int)
    returns (gymId1: int, gymId2: int, refused: Result<CheckInReceipt, AttendanceError>)
    requires !AllWhitespace(first) && !AllWhitespace(second)
    requires email1 != "" && email2 != "" && phone1 != "" && phone2 != "" && address != ""
    ensures gymId1 == gymId2 == 101
    ensures refused == Err(AlreadyCheckedIn)
  {
    var directory := new Directory();
    var ledger := new Ledger();
    gymId1 := CreateOnEmpty(directory, first, email1, phone1, address, plan, joined);
    var entered := ledger.CheckIn(directory.members, gymId1, arrive);
    assert entered.Ok? && HasOpen(ledger.records, gymId1);
    gymId2 := ReplaceOnlyMember(directory, second, email2, phone2, address, plan, joined);
    refused := ledger.CheckIn(directory.members, gymId2, later);
  }
}
