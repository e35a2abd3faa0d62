/**
 * The company repository: lookups by name and by membership, the verified
 * list and the search (both by name), the active-vacancy count, and the
 * membership operations on the CompanyUser table.
 */
module CompanyRepository {
  import opened Wrappers
  import opened Seqs
  import opened Tables
  import opened Entities
  import opened Store
  import Text

  /** The role of a company's owner, given to its creator; the member pages protect it. */
  const OwnerRole := "Admin"

  /** `OrderBy(c => c.Name)`. */
  function NameFirst(a: Row<Company>, b: Row<Company>): bool
  {
    Text.LexLe(a.val.name, b.val.name)
  }

  lemma NameFirstOrders()
    ensures TotalPreorder(NameFirst)
  {
    forall a: Row<Company>, b: Row<Company> ensures NameFirst(a, b) || NameFirst(b, a) {
      Text.LexTotal(a.val.name, b.val.name);
    }
    forall a: Row<Company>, b: Row<Company>, c: Row<Company> | NameFirst(a, b) && NameFirst(b, c)
      ensures NameFirst(a, c)
    {
      Text.LexTransitive(a.val.name, b.val.name, c.val.name);
    }
  }

  function IsVerifiedFilter(): Company -> bool
  {
    (c: Company) => c.isVerified
  }

  /** `GetVerifiedCompaniesAsync`: the verified companies, by name. */
  function Verified(companies: seq<Row<Company>>): (r: seq<Row<Company>>)
    ensures forall x :: x in r <==> x in companies && x.val.isVerified
    ensures multiset(r) == multiset(Where(companies, IsVerifiedFilter()))
    ensures Sorted(r, NameFirst)
  {
    NameFirstOrders();
    OrderedWhere(companies, IsVerifiedFilter(), NameFirst)
  }

  function NameFilter(name: string): Company -> bool
  {
    (c: Company) => Text.EqualsIgnoreCase(c.name, name)
  }

  /** `GetCompanyByNameAsync`: the first company whose lower-cased name equals the lower-cased `name`. */
  function ByName(companies: seq<Row<Company>>, name: string): (r: Option<Row<Company>>)
    ensures r.Some? ==> r.value in companies && Text.EqualsIgnoreCase(r.value.val.name, name)
    ensures r.None? <==> forall x :: x in companies ==> !Text.EqualsIgnoreCase(x.val.name, name)
  {
    match FirstWhere(companies, NameFilter(name))
    case Some(i) => Some(companies[i])
    case None => None
  }

  function ActiveOfFilter(companyId: int): Vacancy -> bool
  {
    (v: Vacancy) => v.companyId == companyId && v.isActive
  }

  /** `GetVacanciesCountAsync`: the company's active vacancies. */
  function VacanciesCount(vacancies: seq<Row<Vacancy>>, companyId: int): (n: nat)
    ensures n == |Where(vacancies, ActiveOfFilter(companyId))|
    ensures forall x :: x in Where(vacancies, ActiveOfFilter(companyId)) <==>
      x in vacancies && x.val.companyId == companyId && x.val.isActive
  {
    CountRows(vacancies, ActiveOfFilter(companyId))
  }

  /** `GetCompanyWithVacanciesAsync`: the company with only its active vacancies loaded. */
  function WithActiveVacancies(companies: seq<Row<Company>>, vacancies: seq<Row<Vacancy>>, id: int)
    : (r: Option<(Company, seq<Row<Vacancy>>)>)
    ensures r.Some? <==> id in Ids(companies)
    ensures r.Some? ==> Row(id, r.value.0) in companies
    ensures r.Some? ==> forall x :: x in r.value.1 <==> x in vacancies && x.val.companyId == id && x.val.isActive
  {
    match GetById(companies, id)
    case None => None
    case Some(c) => Some((c, Where(vacancies, ActiveOfFilter(id))))
  }

  function TermFilter(term: string): Company -> bool
  {
    (c: Company) => Text.ContainsIgnoreCase(c.name, term)
      || (c.description.Some? && Text.ContainsIgnoreCase(c.description.value, term))
  }

  /**
   * `SearchCompaniesAsync`: a blank term gives the whole table (`GetAllAsync`);
   * otherwise the companies whose name or description contains the term,
   * ignoring case, by name.
   */
  function Search(companies: seq<Row<Company>>, term: Option<string>): (r: seq<Row<Company>>)
    ensures Text.IsNullOrWhiteSpace(term) ==> r == companies
    ensures !Text.IsNullOrWhiteSpace(term) ==>
      forall x :: x in r <==>
        x in companies
        && (Text.ContainsIgnoreCase(x.val.name, term.value)
            || (x.val.description.Some? && Text.ContainsIgnoreCase(x.val.description.value, term.value)))
    ensures !Text.IsNullOrWhiteSpace(term) ==> multiset(r) == multiset(Where(companies, TermFilter(term.value)))
    ensures !Text.IsNullOrWhiteSpace(term) ==> Sorted(r, NameFirst)
  {
    if Text.IsNullOrWhiteSpace(term) then companies
    else
      NameFirstOrders();
      OrderedWhere(companies, TermFilter(term.value), NameFirst)
  }

  /** A matching term only narrows the search: every hit is a stored company. */
  lemma SearchNarrows(companies: seq<Row<Company>>, term: Option<string>)
    ensures forall x :: x in Search(companies, term) ==> x in companies
    ensures |Search(companies, term)| <= |companies|
  {
    if !Text.IsNullOrWhiteSpace(term) {
      var w := Where(companies, TermFilter(term.value));
      assert |multiset(Search(companies, term))| == |multiset(w)|;
    }
  }

  // ----- memberships -----

  function PairFilter(userId: string, companyId: int): CompanyUser -> bool
  {
    (m: CompanyUser) => m.userId == userId && m.companyId == companyId
  }

  /** The position of the (user, company) membership, if the user is a member. */
  function MembershipIndex(ms: seq<Row<CompanyUser>>, userId: string, companyId: int): (r: Option<nat>)
    ensures r.Some? ==> r.value < |ms| && ms[r.value].val.userId == userId && ms[r.value].val.companyId == companyId
    ensures r.None? <==> !IsMember(ms, userId, companyId)
  {
    var r := FirstWhere(ms, PairFilter(userId, companyId));
    assert r.None? ==> !IsMember(ms, userId, companyId) by {
      if r.None? {
        forall m | m in ms ensures !(m.val.userId == userId && m.val.companyId == companyId) {
          var k :| 0 <= k < |ms| && ms[k] == m;
          assert !PairFilter(userId, companyId)(ms[k].val);
        }
      }
    }
    r
  }

  /** `GetUserRoleInCompanyAsync`: the member's role; null for a non-member and for a member without one. */
  function RoleIn(ms: seq<Row<CompanyUser>>, userId: string, companyId: int): (r: Option<string>)
    ensures !IsMember(ms, userId, companyId) ==> r.None?
    ensures r.Some? ==> exists m :: m in ms && m.val == CompanyUser(userId, companyId, r, m.val.joinedAt)
  {
    match MembershipIndex(ms, userId, companyId)
    case None => None
    case Some(i) => ms[i].val.role
  }

  /** Under the unique (user, company) index, a member's role is the role of its one membership. */
  lemma RoleOfMember(ms: seq<Row<CompanyUser>>, m: Row<CompanyUser>)
    requires Increasing(ms) && OneMembershipPerPair(ms) && m in ms
    ensures RoleIn(ms, m.val.userId, m.val.companyId) == m.val.role
  {
    var i := MembershipIndex(ms, m.val.userId, m.val.companyId).value;
    var j :| 0 <= j < |ms| && ms[j] == m;
    assert ms[i].id == ms[j].id by { assert ms[i] in ms; }
    assert i == j;
  }

  /** `GetCompaniesByUserAsync`: the companies the user belongs to, in table order. */
  function CompaniesOf(companies: seq<Row<Company>>, ms: seq<Row<CompanyUser>>, userId: string): (r: seq<Row<Company>>)
    ensures forall x :: x in r <==> x in companies && IsMember(ms, userId, x.id)
    ensures Increasing(companies) ==> Increasing(r)
  {
    var r := Filter(companies, (x: Row<Company>) => IsMember(ms, userId, x.id));
    assert Increasing(companies) ==> Increasing(r) by {
      if Increasing(companies) {
        FilterIncreasing(companies, (x: Row<Company>) => IsMember(ms, userId, x.id));
      }
    }
    r
  }

  lemma {:induction false} FilterIncreasing<T(!new)>(rows: seq<Row<T>>, p: Row<T> -> bool)
    requires Increasing(rows)
    ensures Increasing(Filter(rows, p))
  {
    if rows != [] {
      var init, last := rows[..|rows| - 1], rows[|rows| - 1];
      forall i, j | 0 <= i < j < |init| ensures init[i].id < init[j].id {
        assert init[i] == rows[i] && init[j] == rows[j];
      }
      FilterIncreasing(init, p);
      var w := Filter(init, p);
      assert Filter(rows, p) == w + (if p(last) then [last] else []);
      if p(last) {
        forall x | x in w ensures x.id < last.id {
          var k :| 0 <= k < |init| && init[k] == x;
          assert rows[k] == x;
        }
        var r := w + [last];
        forall i, j | 0 <= i < j < |r| ensures r[i].id < r[j].id {
          assert r[i] in w;
          if j < |w| { assert r[i] == w[i] && r[j] == w[j]; }
        }
      }
    }
  }

  function OfCompanyFilter(companyId: int): CompanyUser -> bool
  {
    (m: CompanyUser) => m.companyId == companyId
  }

  /** `GetCompanyUsersWithDetailsAsync`: the company's memberships in table order. */
  function MembersOf(ms: seq<Row<CompanyUser>>, companyId: int): (r: seq<Row<CompanyUser>>)
    ensures forall x :: x in r <==> x in ms && x.val.companyId == companyId
    ensures Increasing(ms) ==> Increasing(r)
  {
    Where(ms, OfCompanyFilter(companyId))
  }

  /**
   * `AddUserToCompanyAsync`: refused (false, no change) when the company is
   * missing or the user already belongs to it; otherwise one membership
   * with the role and the join time is inserted.
   */
  method AddUserToCompany(db: Db, userId: string, companyId: int, role: Option<string>, now: int) returns (ok: bool)
    requires db.Valid()
    modifies db
    ensures db.Valid()
    ensures ok <==> companyId in old(Ids(db.companies)) && !old(IsMember(db.memberships, userId, companyId))
    ensures !ok ==> unchanged(db)
    ensures ok ==> db.State() == old(db.State()).(
      memberships := old(db.memberships) + [Row(old(db.nextId), NewMembership(userId, companyId, role, now))],
      nextId := old(db.nextId) + 1)
  {
    if IndexOf(db.companies, companyId).None? || IsMember(db.memberships, userId, companyId) {
      return false;
    }
    var _ := db.AddMembership(NewMembership(userId, companyId, role, now));
    ok := true;
  }

  /** `RemoveUserFromCompanyAsync`: false for a non-member; otherwise exactly that membership row goes. */
  method RemoveUserFromCompany(db: Db, userId: string, companyId: int) returns (ok: bool)
    requires db.Valid()
    modifies db
    ensures db.Valid()
    ensures ok <==> old(IsMember(db.memberships, userId, companyId))
    ensures !ok ==> unchanged(db)
    ensures ok ==> db.State() == old(db.State()).(
      memberships := RemoveAt(old(db.memberships), MembershipIndex(old(db.memberships), userId, companyId).value))
  {
    var found := MembershipIndex(db.memberships, userId, companyId);
    if found.None? {
      return false;
    }
    db.RemoveMembership(found.value);
    ok := true;
  }

  /** `UpdateUserRoleAsync`: false for a non-member; otherwise only that membership's role changes. */
  method UpdateUserRole(db: Db, userId: string, companyId: int, newRole: string) returns (ok: bool)
    requires db.Valid()
    modifies db
    ensures db.Valid()
    ensures ok <==> old(IsMember(db.memberships, userId, companyId))
    ensures !ok ==> unchanged(db)
    ensures ok ==>
      var i := MembershipIndex(old(db.memberships), userId, companyId).value;
      db.State() == old(db.State()).(memberships := Replace(old(db.memberships), i, old(db.memberships)[i].val.(role := Some(newRole))))
  {
    var found := MembershipIndex(db.memberships, userId, companyId);
    if found.None? {
      return false;
    }
    var i := found.value;
    db.SetMembership(i, db.memberships[i].val.(role := Some(newRole)));
    ok := true;
  }

  /** Removing a membership ends exactly that one: the user is no longer a member, every other row stays. */
  lemma RemovedMembership(ms: seq<Row<CompanyUser>>, next: int, userId: string, companyId: int)
    requires Keyed(ms, next) && OneMembershipPerPair(ms) && IsMember(ms, userId, companyId)
    ensures !IsMember(RemoveAt(ms, MembershipIndex(ms, userId, companyId).value), userId, companyId)
    ensures forall x :: x in ms && (x.val.userId != userId || x.val.companyId != companyId) ==>
      x in RemoveAt(ms, MembershipIndex(ms, userId, companyId).value)
  {
    var i := MembershipIndex(ms, userId, companyId).value;
    var r := RemoveAt(ms, i);
    RemoveMembers(ms, next, i);
    forall m | m in r ensures !(m.val.userId == userId && m.val.companyId == companyId) {
      assert ms[i] in ms;
    }
  }

  /** A role update keeps the membership set's pairs and puts the new role on the pair. */
  lemma UpdatedRole(ms: seq<Row<CompanyUser>>, next: int, userId: string, companyId: int, newRole: string)
    requires Keyed(ms, next) && OneMembershipPerPair(ms) && IsMember(ms, userId, companyId)
    ensures
      var i := MembershipIndex(ms, userId, companyId).value;
      RoleIn(Replace(ms, i, ms[i].val.(role := Some(newRole))), userId, companyId) == Some(newRole)
  {
    var i := MembershipIndex(ms, userId, companyId).value;
    var r := Replace(ms, i, ms[i].val.(role := Some(newRole)));
    assert r[i].val.userId == userId && r[i].val.companyId == companyId;
    assert IsMember(r, userId, companyId) by { assert r[i] in r; }
    forall k | 0 <= k < |r| && k != i ensures !(r[k].val.userId == userId && r[k].val.companyId == companyId) {
      assert r[k] == ms[k] && ms[k] in ms && ms[i] in ms;
    }
  }
  /** A user who joins under a role then holds exactly that role in the company. */
  lemma JoinedWithRole(ms: seq<Row<CompanyUser>>, next: int, m: CompanyUser)
    requires Keyed(ms, next) && OneMembershipPerPair(ms) && !IsMember(ms, m.userId, m.companyId)
    ensures IsMember(ms + [Row(next, m)], m.userId, m.companyId)
    ensures RoleIn(ms + [Row(next, m)], m.userId, m.companyId) == m.role
  {
    var r := ms + [Row(next, m)];
    assert Row(next, m) in r;
    forall a, b | a in r && b in r && a.id != b.id
      ensures a.val.userId != b.val.userId || a.val.companyId != b.val.companyId
    {
    }
    RoleOfMember(r, Row(next, m));
  }

  /**
   * `Company?.Name ?? fallback`: the name of the stored company under the
   * key, and the page's fallback text when there is none.
   */
  function CompanyNameOr(companies: seq<Row<Company>>, companyId: int, fallback: string): (r: string)
    ensures GetById(companies, companyId).Some? ==> r == GetById(companies, companyId).value.name
    ensures GetById(companies, companyId).None? ==> r == fallback
    ensures r == fallback || exists x :: x in companies && x.id == companyId && x.val.name == r
  {
    match GetById(companies, companyId)
    case Some(c) => c.name
    case None => fallback
  }
}
