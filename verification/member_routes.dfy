/**
 * The member handlers (routes/members.js): listing, the next-gymId rule, creation
 * with its presence check and plan table, and deletion by internal id. The
 * collection is an in-memory sequence owned by a `Directory`.
 */
module MemberRoutes {
  import opened Wrappers
  import opened MemberModel

  /** A membership plan: its price and its length in months. */
  datatype Plan = Plan(price: int, months: int)

  datatype MemberError = MissingField | InvalidMembershipType | StoreRejected | NotFound

  /** The body of a successful create: the assigned gymId and the price charged. */
  datatype Created = Created(gymId: int, price: int)

  /** The plan table: price and length in months of each membership type. */
  function PlanOf(t: MembershipType): (p: Plan)
    ensures p.price > 0 && p.months >= 1
    ensures t == Monthly ==> p == Plan(999, 1)
    ensures t == Quarterly ==> p == Plan(2499, 3)
    ensures t == Yearly ==> p == Plan(8999, 12)
  {
    match t
    case Monthly => Plan(999, 1)
    case Quarterly => Plan(2499, 3)
    case Yearly => Plan(8999, 12)
  }

  /** `membershipPlans[membershipType]`: the table is keyed by the three type names, so a
      plan is found exactly for the names the schema's enum accepts. */
  function LookupPlan(typeName: string): (p: Option<Plan>)
    ensures p.Some? <==> ParseMembershipType(typeName).Some?
    ensures typeName == "Monthly" ==> p == Some(Plan(999, 1))
    ensures typeName == "Quarterly" ==> p == Some(Plan(2499, 3))
    ensures typeName == "Yearly" ==> p == Some(Plan(8999, 12))
  {
    match ParseMembershipType(typeName)
    case None => None
    case Some(t) => Some(PlanOf(t))
  }

  /** Every plan has a positive price and lasts at least one month, and each type's
      name finds its plan in the table. */
  lemma PlansArePositive(t: MembershipType)
    ensures LookupPlan(TypeName(t)) == Some(PlanOf(t))
    ensures PlanOf(t).price > 0 && PlanOf(t).months >= 1
  {
  }

  /** `setMonth(getMonth() + k)`: the same offset into the month, k months later. */
  function AddMonths(t: Instant, k: int): (r: Instant)
    ensures k > 0 ==> Before(t, r)
    ensures k < 0 ==> Before(r, t)
    ensures k == 0 ==> r == t
  {
    Instant(t.month + k, t.offset)
  }

  /** Going k months forward and then k months back returns to the same instant. */
  lemma AddMonthsUndo(t: Instant, k: int)
    ensures AddMonths(AddMonths(t, k), -k) == t
  {
  }

  /** Every membership the create handler builds expires after it starts. */
  lemma ExpiryAfterStart(m: Member)
    requires PlanConsistent(m)
    ensures Before(m.startDate, m.expiryDate)
  {
  }

  /** `getNextGymId`: 101 on an empty collection, otherwise one more than the largest
      gymId in use. */
  function NextGymId(ms: seq<Member>): (g: int)
    ensures forall i :: 0 <= i < |ms| ==> ms[i].gymId < g
    ensures ms == [] ==> g == 101
    ensures ms != [] ==> exists i :: 0 <= i < |ms| && g == ms[i].gymId + 1
  {
    if ms == [] then 101
    else if |ms| == 1 then ms[0].gymId + 1
    else
      var rest := NextGymId(ms[1..]);
      if ms[0].gymId + 1 > rest then ms[0].gymId + 1 else rest
  }

  /** Appending the member created with the next gymId moves the next gymId up by one,
      so successive creates hand out strictly increasing, hence distinct, gymIds. */
  lemma {:induction false} NextGymIdAfterAppend(ms: seq<Member>, m: Member)
    requires m.gymId == NextGymId(ms)
    ensures NextGymId(ms + [m]) == m.gymId + 1
  {
    var ms' := ms + [m];
    var g := NextGymId(ms');
    assert ms'[|ms|] == m;
    var i :| 0 <= i < |ms'| && g == ms'[i].gymId + 1;
  }

  /** Removing a member never raises the next gymId. It lowers it when the removed member
      held the largest gymId, so that gymId is handed out again. */
  lemma NextGymIdAfterRemoval(ms: seq<Member>, k: nat)
    requires k < |ms|
    requires forall i :: 0 <= i < |ms| ==> ms[i].gymId >= 100
    ensures NextGymId(ms[..k] + ms[k + 1..]) <= NextGymId(ms)
  {
  }

  /** The first index holding internal id `key` (`findByIdAndDelete`'s lookup). */
  function IndexOfKey(ms: seq<Member>, key: nat): (o: Option<nat>)
    ensures o.None? <==> forall i :: 0 <= i < |ms| ==> ms[i].key != key
    ensures o.Some? ==> o.value < |ms| && ms[o.value].key == key
    ensures o.Some? ==> forall i :: 0 <= i < o.value ==> ms[i].key != key
  {
    if ms == [] then None
    else if ms[0].key == key then Some(0)
    else
      match IndexOfKey(ms[1..], key)
      case None => None
      case Some(i) => Some(i + 1)
  }

  /** `!field` in the handler: a field counts as missing when absent or empty. */
  predicate Present(field: Option<string>)
  {
    field.Some? && field.value != ""
  }

  predicate AllPresent(name: Option<string>, email: Option<string>, phone: Option<string>,
                       address: Option<string>, membershipType: Option<string>)
  {
    Present(name) && Present(email) && Present(phone) && Present(address) && Present(membershipType)
  }

  /** What every member created by the handler satisfies: the stored price is the plan's
      price and the expiry lies the plan's number of months after the start. */
  predicate PlanConsistent(m: Member)
  {
    m.price == PlanOf(m.membershipType).price
    && m.expiryDate == AddMonths(m.startDate, PlanOf(m.membershipType).months)
  }

  /** The document the create handler builds from present fields and a known plan name. */
  function Candidate(ms: seq<Member>, key: nat, name: string, email: string, phone: string,
                     address: string, typeName: string, now: Instant): (m: Member)
    requires LookupPlan(typeName).Some?
    ensures m.gymId == NextGymId(ms) && m.key == key
    ensures m.name == Trim(name) && m.email == Lower(email) && m.phone == phone && m.address == address
    ensures TypeName(m.membershipType) == typeName
    ensures PlanConsistent(m) && m.price == LookupPlan(typeName).value.price
    ensures Normalised(m) && m.isActive && m.startDate == now
    ensures ValidMember(m) <==> !AllWhitespace(name) && email != "" && phone != "" && address != ""
  {
    var plan := LookupPlan(typeName).value;
    NewMember(key, NextGymId(ms), name, email, phone, address,
              ParseMembershipType(typeName).value, AddMonths(now, plan.months), plan.price, now)
  }

  /** The fresh gymId never clashes with a stored one, so the gymId index never rejects. */
  lemma {:induction false} CandidateGymIdIsFresh(ms: seq<Member>, key: nat, name: string, email: string,
                                                phone: string, address: string, typeName: string, now: Instant)
    requires LookupPlan(typeName).Some?
    ensures forall i :: 0 <= i < |ms| ==>
      ms[i].gymId < Candidate(ms, key, name, email, phone, address, typeName, now).gymId
  {
  }

  /** What the handlers keep true of the collection: the schema's validity and
      uniqueness, internal ids below the next one to hand out, gymIds from 101 up, and
      prices and expiries that follow the plan table. */
  predicate DirectoryInvariant(ms: seq<Member>, nextKey: nat)
  {
    ValidDirectory(ms)
    && forall i :: 0 <= i < |ms| ==> ms[i].key < nextKey && ms[i].gymId >= 101 && PlanConsistent(ms[i])
  }

  /** Appending a document the store accepts, built with the next internal id, a gymId
      from 101 up and the plan's price and expiry, keeps the invariant. */
  /** In a directory that keeps its invariant, every stored membership expires after it starts. */
  lemma {:induction false} StoredMembershipsExpireAfterStart(ms: seq<Member>, nextKey: nat)
    requires DirectoryInvariant(ms, nextKey)
    ensures forall i :: 0 <= i < |ms| ==> Before(ms[i].startDate, ms[i].expiryDate)
  {
    forall i | 0 <= i < |ms|
      ensures Before(ms[i].startDate, ms[i].expiryDate)
    {
      ExpiryAfterStart(ms[i]);
    }
  }

  lemma AppendKeepsInvariant(ms: seq<Member>, nextKey: nat, m: Member)
    requires DirectoryInvariant(ms, nextKey) && Accepts(ms, m) && Normalised(m)
    requires m.key == nextKey && m.gymId >= 101 && PlanConsistent(m)
    ensures DirectoryInvariant(ms + [m], nextKey + 1)
  {
    AcceptedKeepsValid(ms, m);
    var ms' := ms + [m];
    assert forall i :: 0 <= i < |ms'| ==> ms'[i] == if i < |ms| then ms[i] else m;
  }

  /** Deleting any member keeps the invariant. */
  lemma RemovalKeepsInvariant(ms: seq<Member>, nextKey: nat, k: nat)
    requires DirectoryInvariant(ms, nextKey) && k < |ms|
    ensures DirectoryInvariant(ms[..k] + ms[k + 1..], nextKey)
  {
    RemovalKeepsValid(ms, k);
    var ms' := ms[..k] + ms[k + 1..];
    assert forall i :: 0 <= i < |ms'| ==> ms'[i] == ms[if i < k then i else i + 1];
  }

  class Directory {
    var members: seq<Member>
    /** The internal ids handed out so far are all below this bound. */
    var nextKey: nat

    ghost predicate Valid()
      reads this
    {
      DirectoryInvariant(members, nextKey)
    }

    constructor ()
      ensures Valid() && members == []
    {
      members := [];
      nextKey := 0;
    }

    /** GET /members */
    method ListMembers() returns (ms: seq<Member>)
      ensures ms == members
    {
      ms := members;
    }

    /** POST /members */
    method CreateMember(name: Option<string>, email: Option<string>, phone: Option<string>,
                        address: Option<string>, membershipType: Option<string>, now: Instant)
      returns (r: Result<Created, MemberError>)
      requires Valid()
      modifies this
      ensures Valid()
      ensures !AllPresent(name, email, phone, address, membershipType) ==>
        r == Err(MissingField) && members == old(members) && nextKey == old(nextKey)
      ensures AllPresent(name, email, phone, address, membershipType)
              && LookupPlan(membershipType.value).None? ==>
        r == Err(InvalidMembershipType) && members == old(members) && nextKey == old(nextKey)
      ensures AllPresent(name, email, phone, address, membershipType)
              && LookupPlan(membershipType.value).Some? ==>
        var m := Candidate(old(members), old(nextKey), name.value, email.value, phone.value,
                           address.value, membershipType.value, now);
        if Accepts(old(members), m) then
          r == Ok(Created(m.gymId, m.price)) && members == old(members) + [m]
          && nextKey == old(nextKey) + 1
        else
          r == Err(StoreRejected) && members == old(members) && nextKey == old(nextKey)
      ensures r.Ok? ==> forall i :: 0 <= i < |old(members)| ==> old(members)[i].gymId < r.value.gymId
    {
      if !AllPresent(name, email, phone, address, membershipType) {
        return Err(MissingField);
      }
      var plan := LookupPlan(membershipType.value);
      if plan.None? {
        return Err(InvalidMembershipType);
      }
      var m := Candidate(members, nextKey, name.value, email.value, phone.value,
                         address.value, membershipType.value, now);
      if !Accepts(members, m) {
        return Err(StoreRejected);
      }
      AppendKeepsInvariant(members, nextKey, m);
      members := members + [m];
      nextKey := nextKey + 1;
      r := Ok(Created(m.gymId, m.price));
    }

    /** DELETE /members/:id. The handler answers only with a message; returning the
        removed document is a choice of this model. */
    method DeleteMember(key: nat) returns (r: Result<Member, MemberError>)
      requires Valid()
      modifies this
      ensures Valid() && nextKey == old(nextKey)
      ensures IndexOfKey(old(members), key).None? ==> r == Err(NotFound) && members == old(members)
      ensures IndexOfKey(old(members), key).Some? ==>
        var k := IndexOfKey(old(members), key).value;
        r == Ok(old(members)[k]) && members == old(members)[..k] + old(members)[k + 1..]
    {
      var found := IndexOfKey(members, key);
      if found.None? {
        return Err(NotFound);
      }
      var k := found.value;
      var removed := members[k];
      RemovalKeepsInvariant(members, nextKey, k);
      members := members[..k] + members[k + 1..];
      r := Ok(removed);
    }
  }
}
