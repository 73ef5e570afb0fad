/**
 * The Member schema (models/member.js): the stored record, the
 * membershipType enum, the `trim` and `lowercase` setters, the defaults,
 * the `required` validators and the `unique` indexes.
 */
module MemberModel {
  import opened Wrappers

  datatype MembershipType = Monthly | Quarterly | Yearly

  /** A calendar instant: a month index counted from a fixed epoch month and the time
      elapsed since the start of that month. Adding months keeps the offset. */
  datatype Instant = Instant(month: int, offset: nat)

  /** `a` lies strictly before `b`: an earlier month, or the same month and a smaller offset. */
  predicate Before(a: Instant, b: Instant)
  {
    a.month < b.month || (a.month == b.month && a.offset < b.offset)
  }

  /** A stored member. `key` stands for the store's internal document id. */
  datatype Member = Member(
    key: nat,
    gymId: int,
    name: string,
    email: string,
    phone: string,
    address: string,
    membershipType: MembershipType,
    startDate: Instant,
    expiryDate: Instant,
    isActive: bool,
    price: int)

  /** The strings the enum accepts. */
  function TypeName(t: MembershipType): string
  {
    match t
    case Monthly => "Monthly"
    case Quarterly => "Quarterly"
    case Yearly => "Yearly"
  }

  /** The enum validator: only the three plan names are accepted, spelled exactly. */
  function ParseMembershipType(s: string): (r: Option<MembershipType>)
    ensures r.Some? <==> (s == "Monthly" || s == "Quarterly" || s == "Yearly")
    ensures r.Some? ==> TypeName(r.value) == s
  {
    if s == "Monthly" then Some(Monthly)
    else if s == "Quarterly" then Some(Quarterly)
    else if s == "Yearly" then Some(Yearly)
    else None
  }

  lemma TypeNameRoundTrip(t: MembershipType)
    ensures ParseMembershipType(TypeName(t)) == Some(t)
  {
  }

  // ---------------------------------------------------------------------------
  // trim: ECMAScript WhiteSpace and LineTerminator code points

  predicate IsWhitespace(c: char)
  {
    var n := c as int;
    n == 0x09 || n == 0x0A || n == 0x0B || n == 0x0C || n == 0x0D || n == 0x20
    || n == 0xA0 || n == 0x1680 || (0x2000 <= n <= 0x200A)
    || n == 0x2028 || n == 0x2029 || n == 0x202F || n == 0x205F
    || n == 0x3000 || n == 0xFEFF
  }

  predicate AllWhitespace(s: string)
  {
    forall i :: 0 <= i < |s| ==> IsWhitespace(s[i])
  }

  /** Neither end of `s` is whitespace. */
  predicate IsTrimmed(s: string)
  {
    s == [] || (!IsWhitespace(s[0]) && !IsWhitespace(s[|s| - 1]))
  }

  /** Drops the leading whitespace: what remains is a suffix of `s`, everything dropped
      is whitespace, and what remains does not start with whitespace. */
  function TrimStart(s: string): (r: string)
    ensures |r| <= |s| && r == s[|s| - |r|..]
    ensures forall i :: 0 <= i < |s| - |r| ==> IsWhitespace(s[i])
    ensures r == [] || !IsWhitespace(r[0])
  {
    if s != [] && IsWhitespace(s[0]) then TrimStart(s[1..]) else s
  }

  /** Drops the trailing whitespace: what remains is a prefix of `s`, everything dropped
      is whitespace, and what remains does not end with whitespace. */
  function TrimEnd(s: string): (r: string)
    ensures |r| <= |s| && r == s[..|r|]
    ensures forall i :: |r| <= i < |s| ==> IsWhitespace(s[i])
    ensures r == [] || !IsWhitespace(r[|r| - 1])
  {
    if s != [] && IsWhitespace(s[|s| - 1]) then TrimEnd(s[..|s| - 1]) else s
  }

  /** The `trim` setter on `name`. The result has no whitespace at either end, and it is
      empty exactly when the input was whitespace only. */
  function Trim(s: string): (r: string)
    ensures IsTrimmed(r)
    ensures |r| <= |s|
    ensures r == [] <==> AllWhitespace(s)
    ensures exists a, b :: 0 <= a <= b <= |s| && r == s[a..b] && AllWhitespace(s[..a]) && AllWhitespace(s[b..])
  {
    var t := TrimStart(s);
    var r := TrimEnd(t);
    TrimmedSlice(s, t, r);
    r
  }

  /** If `t` is `s` without leading whitespace and `r` is `t` without trailing whitespace,
      then `r` is a slice of `s` with only whitespace around it. */
  lemma TrimmedSlice(s: string, t: string, r: string)
    requires |t| <= |s| && t == s[|s| - |t|..]
    requires forall i :: 0 <= i < |s| - |t| ==> IsWhitespace(s[i])
    requires t == [] || !IsWhitespace(t[0])
    requires |r| <= |t| && r == t[..|r|]
    requires forall i :: |r| <= i < |t| ==> IsWhitespace(t[i])
    requires r == [] || !IsWhitespace(r[|r| - 1])
    ensures IsTrimmed(r)
    ensures r == [] <==> AllWhitespace(s)
    ensures exists a, b :: 0 <= a <= b <= |s| && r == s[a..b] && AllWhitespace(s[..a]) && AllWhitespace(s[b..])
  {
    var a := |s| - |t|;
    var b := a + |r|;
    assert r == s[a..b];
    assert forall i :: b <= i < |s| ==> s[i] == t[i - a];
    assert AllWhitespace(s[..a]) by {
      assert forall i :: 0 <= i < a ==> s[..a][i] == s[i];
    }
    assert AllWhitespace(s[b..]) by {
      assert forall k :: 0 <= k < |s| - b ==> s[b..][k] == s[b + k];
    }
    if r != [] {
      assert r[0] == t[0];
    } else {
      assert t == [];
      assert s[..a] == s;
    }
  }

  lemma {:induction false} TrimFixesTrimmed(s: string)
    requires IsTrimmed(s)
    ensures Trim(s) == s
  {
    assert TrimStart(s) == s;
    assert TrimEnd(s) == s;
  }

  /** Trimming twice is trimming once. */
  lemma {:induction false} TrimIdempotent(s: string)
    ensures Trim(Trim(s)) == Trim(s)
  {
    TrimFixesTrimmed(Trim(s));
  }

  // ---------------------------------------------------------------------------
  // lowercase

  predicate IsUpper(c: char)
  {
    'A' <= c <= 'Z'
  }

  function LowerChar(c: char): (d: char)
    ensures !IsUpper(d)
    ensures !IsUpper(c) ==> d == c
    ensures IsUpper(c) ==> d as int == c as int + 32
  {
    if IsUpper(c) then (c as int + 32) as char else c
  }

  predicate IsLowercase(s: string)
  {
    forall i :: 0 <= i < |s| ==> !IsUpper(s[i])
  }

  /** The `lowercase` setter on `email`: same length, each character lowered. */
  function Lower(s: string): (r: string)
    ensures |r| == |s|
    ensures forall i :: 0 <= i < |s| ==> r[i] == LowerChar(s[i])
    ensures IsLowercase(r)
  {
    if s == [] then [] else [LowerChar(s[0])] + Lower(s[1..])
  }

  lemma {:induction false} LowerFixesLowercase(s: string)
    requires IsLowercase(s)
    ensures Lower(s) == s
  {
    if s != [] {
      LowerFixesLowercase(s[1..]);
    }
  }

  /** Lowering twice is lowering once. */
  lemma LowerIdempotent(s: string)
    ensures Lower(Lower(s)) == Lower(s)
  {
    LowerFixesLowercase(Lower(s));
  }

  // ---------------------------------------------------------------------------
  // documents

  /** `new Member({...})`: the setters normalise `name` and `email`, and the defaults
      fill `startDate` with the current instant and `isActive` with true. */
  function NewMember(
    key: nat, gymId: int, name: string, email: string, phone: string, address: string,
    membershipType: MembershipType, expiryDate: Instant, price: int, now: Instant): (m: Member)
    ensures m.name == Trim(name) && m.email == Lower(email)
    ensures IsTrimmed(m.name) && IsLowercase(m.email)
    ensures m.isActive && m.startDate == now
    ensures m.key == key && m.gymId == gymId && m.phone == phone && m.address == address
    ensures m.membershipType == membershipType && m.expiryDate == expiryDate && m.price == price
    ensures ValidMember(m) <==> !AllWhitespace(name) && email != "" && phone != "" && address != ""
  {
    Member(key, gymId, Trim(name), Lower(email), phone, address,
           membershipType, now, expiryDate, true, price)
  }

  /** The `required` validators: no required string is empty (the enum, the dates and
      the price are always present in this typed model). */
  predicate ValidMember(m: Member)
  {
    m.name != "" && m.email != "" && m.phone != "" && m.address != ""
  }

  /** What the setters guarantee of every stored document. */
  predicate Normalised(m: Member)
  {
    IsTrimmed(m.name) && IsLowercase(m.email)
  }

  /** Two documents differ on every unique index: the internal id, gymId, email and phone. */
  predicate Distinct(a: Member, b: Member)
  {
    a.key != b.key && a.gymId != b.gymId && a.email != b.email && a.phone != b.phone
  }

  /** The unique indexes hold across the collection. */
  predicate UniqueFields(ms: seq<Member>)
  {
    forall i, j {:trigger Distinct(ms[i], ms[j])} :: 0 <= i < |ms| && 0 <= j < |ms| && i != j ==>
      Distinct(ms[i], ms[j])
  }

  /** No stored member clashes with `m` on a unique field. */
  predicate NoClash(ms: seq<Member>, m: Member)
  {
    forall i {:trigger Distinct(ms[i], m)} :: 0 <= i < |ms| ==> Distinct(ms[i], m)
  }

  /** `save()` succeeds: validation passes and no unique index is violated. */
  predicate Accepts(ms: seq<Member>, m: Member)
  {
    ValidMember(m) && NoClash(ms, m)
  }

  predicate ValidDirectory(ms: seq<Member>)
  {
    UniqueFields(ms) && forall i :: 0 <= i < |ms| ==> ValidMember(ms[i]) && Normalised(ms[i])
  }

  /** A document the store accepts keeps the collection valid. */
  lemma AcceptedKeepsValid(ms: seq<Member>, m: Member)
    requires ValidDirectory(ms) && Accepts(ms, m) && Normalised(m)
    ensures ValidDirectory(ms + [m])
  {
    var ms' := ms + [m];
    forall i, j | 0 <= i < |ms'| && 0 <= j < |ms'| && i != j
      ensures Distinct(ms'[i], ms'[j])
    {
      if i == |ms| {
        assert ms'[j] == ms[j] && Distinct(ms[j], m);
      } else if j == |ms| {
        assert ms'[i] == ms[i] && Distinct(ms[i], m);
      } else {
        assert ms'[i] == ms[i] && ms'[j] == ms[j] && Distinct(ms[i], ms[j]);
      }
    }
  }

  /** Removing one member keeps the collection valid, and what remains is every other
      member: exactly the members whose internal id differs from the removed one's. */
  lemma RemovalKeepsValid(ms: seq<Member>, k: nat)
    requires ValidDirectory(ms) && k < |ms|
    ensures ValidDirectory(ms[..k] + ms[k + 1..])
    ensures forall x :: x in ms[..k] + ms[k + 1..] <==> x in ms && x.key != ms[k].key
  {
    var ms' := ms[..k] + ms[k + 1..];
    assert forall i :: 0 <= i < |ms'| ==> ms'[i] == ms[if i < k then i else i + 1];
    forall i, j | 0 <= i < |ms'| && 0 <= j < |ms'| && i != j
      ensures Distinct(ms'[i], ms'[j])
    {
      assert Distinct(ms[if i < k then i else i + 1], ms[if j < k then j else j + 1]);
    }
    forall i | 0 <= i < |ms'|
      ensures ValidMember(ms'[i]) && Normalised(ms'[i])
    {
      assert ms'[i] == ms[if i < k then i else i + 1];
    }
    RemovalDropsOnlyKey(ms, k);
  }

  /** Removing the document at `k` removes exactly the documents with its key. */
  lemma RemovalDropsOnlyKey(ms: seq<Member>, k: nat)
    requires UniqueFields(ms) && k < |ms|
    ensures forall x :: x in ms[..k] + ms[k + 1..] <==> x in ms && x.key != ms[k].key
  {
    var ms' := ms[..k] + ms[k + 1..];
    assert forall i :: 0 <= i < |ms'| ==> ms'[i] == ms[if i < k then i else i + 1];
    forall x | x in ms'
      ensures x.key != ms[k].key
    {
      var i :| 0 <= i < |ms'| && ms'[i] == x;
      assert Distinct(ms[if i < k then i else i + 1], ms[k]);
    }
    forall x | x in ms && x.key != ms[k].key
      ensures x in ms'
    {
      var i :| 0 <= i < |ms| && ms[i] == x;
      assert ms'[if i < k then i else i - 1] == x;
    }
  }

  /** Email is unique ignoring case: two stored members never have emails that lower to
      the same string. */
  lemma {:induction false} EmailsDifferIgnoringCase(ms: seq<Member>, i: nat, j: nat)
    requires ValidDirectory(ms)
    requires i < |ms| && j < |ms| && i != j
    ensures Lower(ms[i].email) != Lower(ms[j].email)
  {
    assert Distinct(ms[i], ms[j]);
    LowerFixesLowercase(ms[i].email);
    LowerFixesLowercase(ms[j].email);
  }
}
