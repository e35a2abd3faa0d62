/**
 * The employer's own companies: three counters, paging nine at a time with
 * each company's active-vacancy count, and the delete button.
 */
module MyCompaniesPage {
  import opened Wrappers
  import opened Seqs
  import opened Tables
  import opened Entities
  import opened Store
  import opened Web
  import opened Paging
  import Text
  import CompanyRepository

  const PageSize: nat := 9
  const CompanyDeleted := "Компания успешно удалена"

  /** `MyCompanyViewModel`. */
  datatype CompanyItem = CompanyItem(
    id: int,
    name: string,
    description: Option<string>,
    contactPerson: Option<string>,
    contactPhone: Option<string>,
    contactEmail: Option<string>,
    isVerified: bool,
    vacanciesCount: nat)

  function ItemOf(c: Row<Company>, vacancies: seq<Row<Vacancy>>): (r: CompanyItem)
    ensures r.id == c.id && r.name == c.val.name && r.description == c.val.description
    ensures r.contactPerson == c.val.contactPerson && r.contactPhone == c.val.contactPhone
    ensures r.contactEmail == c.val.contactEmail && r.isVerified == c.val.isVerified
    ensures r.vacanciesCount == CompanyRepository.VacanciesCount(vacancies, c.id)
  {
    CompanyItem(c.id, c.val.name, c.val.description, c.val.contactPerson, c.val.contactPhone,
                c.val.contactEmail, c.val.isVerified, CompanyRepository.VacanciesCount(vacancies, c.id))
  }

  function ItemsOf(cs: seq<Row<Company>>, vacancies: seq<Row<Vacancy>>): (r: seq<CompanyItem>)
    ensures |r| == |cs|
    ensures forall i :: 0 <= i < |cs| ==> r[i] == ItemOf(cs[i], vacancies)
  {
    seq(|cs|, i requires 0 <= i < |cs| => ItemOf(cs[i], vacancies))
  }

  /** `companiesList.Count(c => c.IsVerified)`: never more than the companies listed. */
  function VerifiedCount(listed: seq<Row<Company>>): (n: nat)
    ensures n <= |listed|
  {
    if listed == [] then 0
    else VerifiedCount(listed[..|listed| - 1]) + if listed[|listed| - 1].val.isVerified then 1 else 0
  }

  /** The counter is the length of the listing narrowed to verified companies. */
  lemma {:induction false} VerifiedCountCounts(listed: seq<Row<Company>>)
    ensures VerifiedCount(listed) == |Where(listed, CompanyRepository.IsVerifiedFilter())|
  {
    if listed != [] {
      VerifiedCountCounts(listed[..|listed| - 1]);
      assert CompanyRepository.IsVerifiedFilter()(listed[|listed| - 1].val) == listed[|listed| - 1].val.isVerified;
    }
  }

  function ActiveCountOf(vacancies: seq<Row<Vacancy>>): Row<Company> -> int
  {
    (c: Row<Company>) => CompanyRepository.VacanciesCount(vacancies, c.id)
  }

  /** The sum over the listed companies of their active-vacancy counts. */
  function TotalActive(listed: seq<Row<Company>>, vacancies: seq<Row<Vacancy>>): int
  {
    Sum(listed, ActiveCountOf(vacancies))
  }

  /** The `foreach` that adds up `GetVacanciesCountAsync` over the user's companies. */
  method SumVacancies(listed: seq<Row<Company>>, vacancies: seq<Row<Vacancy>>, start: int) returns (total: int)
    ensures total == start + TotalActive(listed, vacancies)
  {
    total := start;
    var k := 0;
    while k < |listed|
      invariant 0 <= k <= |listed|
      invariant total == start + Sum(listed[..k], ActiveCountOf(vacancies))
    {
      assert listed[..k + 1][..k] == listed[..k];
      total := total + CompanyRepository.VacanciesCount(vacancies, listed[k].id);
      k := k + 1;
    }
    assert listed[..k] == listed;
  }

  /** Active vacancies whose company is one of `ids`. */
  ghost function ActiveIn(ids: set<int>): Vacancy -> bool
  {
    (v: Vacancy) => v.isActive && v.companyId in ids
  }

  /** Counting over a union of disjoint company sets adds the counts. */
  lemma {:induction false} CountUnion(vacancies: seq<Row<Vacancy>>, ids: set<int>, k: int)
    requires k !in ids
    ensures CountRows(vacancies, ActiveIn(ids + {k}))
      == CountRows(vacancies, ActiveIn(ids)) + CountRows(vacancies, CompanyRepository.ActiveOfFilter(k))
  {
    if vacancies != [] {
      CountUnion(vacancies[..|vacancies| - 1], ids, k);
    }
  }

  /**
   * `TotalVacancies` counts each active vacancy of the user's companies once:
   * with the companies listed under distinct keys, the sum of the per-company
   * counts is the number of active vacancies belonging to any of them.
   */
  lemma {:induction false} TotalActiveCounts(listed: seq<Row<Company>>, vacancies: seq<Row<Vacancy>>)
    requires Increasing(listed)
    ensures TotalActive(listed, vacancies) == CountRows(vacancies, ActiveIn(Ids(listed)))
  {
    if listed == [] {
      assert Ids(listed) == {};
      CountNone(vacancies);
    } else {
      var init := listed[..|listed| - 1];
      var last := listed[|listed| - 1];
      assert Increasing(init);
      TotalActiveCounts(init, vacancies);
      assert TotalActive(listed, vacancies) == TotalActive(init, vacancies) + CompanyRepository.VacanciesCount(vacancies, last.id);
      IdsSnoc(listed);
      CountUnion(vacancies, Ids(init), last.id);
      calc {
        CountRows(vacancies, ActiveIn(Ids(listed)));
        { assert Ids(listed) == Ids(init) + {last.id}; }
        CountRows(vacancies, ActiveIn(Ids(init) + {last.id}));
        CountRows(vacancies, ActiveIn(Ids(init))) + CountRows(vacancies, CompanyRepository.ActiveOfFilter(last.id));
      }
    }
  }

  lemma {:induction false} CountNone(vacancies: seq<Row<Vacancy>>)
    ensures CountRows(vacancies, ActiveIn({})) == 0
  {
    if vacancies != [] {
      CountNone(vacancies[..|vacancies| - 1]);
    }
  }

  /** The `foreach` that maps the page's companies to view models, in order. */
  method AppendItems(shown: seq<CompanyItem>, window: seq<Row<Company>>, vacancies: seq<Row<Vacancy>>)
    returns (r: seq<CompanyItem>)
    ensures r == shown + ItemsOf(window, vacancies)
  {
    r := shown;
    var k := 0;
    while k < |window|
      invariant 0 <= k <= |window|
      invariant r == shown + ItemsOf(window[..k], vacancies)
    {
      assert window[..k + 1] == window[..k] + [window[k]];
      r := r + [ItemOf(window[k], vacancies)];
      k := k + 1;
    }
    assert window[..k] == window;
  }

  /** The paging of `LoadCompaniesAsync`. */
  method LoadPage(listed: seq<Row<Company>>, vacancies: seq<Row<Vacancy>>, page: int)
    returns (pages: nat, current: int, rows: seq<CompanyItem>)
    ensures pages == TotalPages(|listed|, PageSize)
    ensures current == ClampPage(page, pages)
    ensures rows == ItemsOf(PageWindow(listed, current, PageSize), vacancies)
    ensures |rows| <= PageSize
  {
    pages := TotalPages(|listed|, PageSize);
    current := page;
    if current < 1 {
      current := 1;
    }
    if current > pages && pages > 0 {
      current := pages;
    }
    rows := AppendItems([], PageWindow(listed, current, PageSize), vacancies);
  }

  /** The computations of `LoadCompaniesAsync`, from the user's companies and the current field values. */
  method Load(listed: seq<Row<Company>>, vacancies: seq<Row<Vacancy>>, page: int, totalVacancies: int)
    returns (count: nat, verified: nat, total: int, pages: nat, current: int, rows: seq<CompanyItem>)
    ensures count == |listed| && verified == VerifiedCount(listed)
    ensures total == totalVacancies + TotalActive(listed, vacancies)
    ensures pages == TotalPages(count, PageSize) && current == ClampPage(page, pages)
    ensures rows == ItemsOf(PageWindow(listed, current, PageSize), vacancies)
  {
    count := |listed|;
    verified := VerifiedCount(listed);
    total := SumVacancies(listed, vacancies, totalVacancies);
    pages, current, rows := LoadPage(listed, vacancies, page);
  }

  /**
   * Whatever the delete handler meets once the caller is admitted: a member
   * of a company always holds a membership row that refers to it, so the
   * restricting foreign key from memberships refuses the delete.
   */
  lemma MemberBlocksDelete(s: Snapshot, userId: string, id: int)
    requires Consistent(s) && IsMember(s.memberships, userId, id)
    ensures id in Ids(s.companies)
    ensures exists m :: m in s.memberships && m.val.companyId == id
  {
    var m :| m in s.memberships && m.val.userId == userId && m.val.companyId == id;
  }

  /** The store after a delete that first removes the company's memberships. */
  function Purged(s: Snapshot, i: nat): (r: Snapshot)
    requires i < |s.companies|
    ensures r.companies == RemoveAt(s.companies, i)
    ensures r.memberships == MembershipsOutside(s.memberships, s.companies[i].id)
  {
    s.(memberships := MembershipsOutside(s.memberships, s.companies[i].id), companies := RemoveAt(s.companies, i))
  }

  /**
   * With the memberships gone first, a company without vacancies can go:
   * the store stays consistent, the company is absent, and nobody is a
   * member of it any more.
   */
  lemma PurgedCompanyGone(s: Snapshot, i: nat, userId: string)
    requires Consistent(s) && i < |s.companies|
    requires forall v :: v in s.vacancies ==> v.val.companyId != s.companies[i].id
    ensures Consistent(Purged(s, i))
    ensures s.companies[i].id !in Ids(Purged(s, i).companies)
    ensures !IsMember(Purged(s, i).memberships, userId, s.companies[i].id)
  {
    var id := s.companies[i].id;
    RemoveMembershipsConsistent(s, id);
    var s1 := s.(memberships := MembershipsOutside(s.memberships, id));
    CompanyRemovalConsistent(s1, i);
    RemoveKeyed(s.companies, s.nextId, i);
    assert Purged(s, i) == s1.(companies := RemoveAt(s1.companies, i));
  }

  /**
   * The delete as it is meant to work: the caller must be a member, the
   * company must exist; its memberships go, then the company. A company that
   * still has vacancies is refused by their restricting foreign key, as before.
   */
  method DeleteWithMemberships(db: Db, caller: Option<string>, id: int) returns (resp: Response)
    requires db.Valid()
    modifies db
    ensures db.Valid()
    ensures caller.None? || !old(IsMember(db.memberships, caller.value, id)) ==> resp == Forbid && unchanged(db)
    ensures (caller.Some? && old(IsMember(db.memberships, caller.value, id))
             && old(exists v :: v in db.vacancies && v.val.companyId == id)) ==>
      resp == ServerError && unchanged(db)
    ensures (caller.Some? && old(IsMember(db.memberships, caller.value, id))
             && !old(exists v :: v in db.vacancies && v.val.companyId == id)) ==>
      resp == Redirect(Success(CompanyDeleted))
      && old(IndexOf(db.companies, id)).Some?
      && db.State() == Purged(old(db.State()), old(IndexOf(db.companies, id)).value)
  {
    if caller.None? || !IsMember(db.memberships, caller.value, id) {
      return Forbid;
    }
    MemberBlocksDelete(db.State(), caller.value, id);
    if exists v :: v in db.vacancies && v.val.companyId == id {
      return ServerError;
    }
    Purge(db, id);
    resp := Redirect(Success(CompanyDeleted));
  }

  /** The two removals of `DeleteWithMemberships`. */
  method Purge(db: Db, id: int)
    requires db.Valid() && id in Ids(db.companies)
    requires forall v :: v in db.vacancies ==> v.val.companyId != id
    modifies db
    ensures db.Valid()
    ensures old(IndexOf(db.companies, id)).Some?
    ensures db.State() == Purged(old(db.State()), old(IndexOf(db.companies, id)).value)
  {
    ghost var i := IndexOf(db.companies, id).value;
    db.RemoveMembershipsOf(id);
    var r := db.DeleteCompany(id);
    ghost var j :| 0 <= j < |db.companies| + 1 && old(db.companies)[j].id == id
      && db.State() == old(db.State()).(memberships := MembershipsOutside(old(db.memberships), id), companies := RemoveAt(old(db.companies), j));
    KeyedIndex(old(db.companies), old(db.nextId), j);
  }

  class MyCompaniesModel {
    var page: int
    var totalPages: nat
    var totalCount: nat
    var verifiedCount: nat
    var totalVacancies: int
    var companies: seq<CompanyItem>

    /** A request with its `Page` query value. */
    constructor (page: int)
      ensures this.page == page && totalPages == 0 && totalCount == 0 && verifiedCount == 0
      ensures totalVacancies == 0 && companies == []
    {
      this.page := page;
      totalPages := 0;
      totalCount := 0;
      verifiedCount := 0;
      totalVacancies := 0;
      companies := [];
    }

    /** `OnGetAsync`: nothing is loaded without a signed-in user; otherwise `LoadCompaniesAsync`. */
    method OnGet(db: Db, caller: Option<string>)
      modifies this
      ensures Text.IsNullOrEmpty(caller) ==> unchanged(this)
      ensures !Text.IsNullOrEmpty(caller) ==>
        totalCount == |CompanyRepository.CompaniesOf(db.companies, db.memberships, caller.value)|
      ensures !Text.IsNullOrEmpty(caller) ==>
        verifiedCount == VerifiedCount(CompanyRepository.CompaniesOf(db.companies, db.memberships, caller.value))
      ensures !Text.IsNullOrEmpty(caller) ==>
        totalVacancies == old(totalVacancies) + TotalActive(CompanyRepository.CompaniesOf(db.companies, db.memberships, caller.value), db.vacancies)
      ensures !Text.IsNullOrEmpty(caller) ==>
        totalPages == TotalPages(totalCount, PageSize) && page == ClampPage(old(page), totalPages)
      ensures !Text.IsNullOrEmpty(caller) ==>
        companies == ItemsOf(PageWindow(CompanyRepository.CompaniesOf(db.companies, db.memberships, caller.value), page, PageSize), db.vacancies)
    {
      if Text.IsNullOrEmpty(caller) {
        return;
      }
      LoadCompanies(CompanyRepository.CompaniesOf(db.companies, db.memberships, caller.value), db.vacancies);
    }

    /** `LoadCompaniesAsync` over the user's companies. */
    method LoadCompanies(listed: seq<Row<Company>>, vacancies: seq<Row<Vacancy>>)
      modifies this
      ensures totalCount == |listed|
      ensures verifiedCount == VerifiedCount(listed)
      ensures totalVacancies == old(totalVacancies) + TotalActive(listed, vacancies)
      ensures totalPages == TotalPages(totalCount, PageSize)
      ensures page == ClampPage(old(page), totalPages)
      ensures companies == ItemsOf(PageWindow(listed, page, PageSize), vacancies)
    {
      var count, verified, total, pages, current, rows := Load(listed, vacancies, page, totalVacancies);
      totalCount := count;
      verifiedCount := verified;
      totalVacancies := total;
      totalPages := pages;
      page := current;
      companies := rows;
    }

    /**
     * `OnPostDeleteAsync` as written: a caller who is not a member meets
     * `Forbid`; for a member the company exists, and the delete is refused
     * by the member's own membership, an exception the handler does not
     * catch. The success redirect is never reached and nothing changes.
     */
    method OnPostDelete(db: Db, caller: Option<string>, id: int) returns (resp: Response)
      requires db.Valid()
      modifies db
      ensures db.Valid()
      ensures unchanged(db)
      ensures caller.None? || !old(IsMember(db.memberships, caller.value, id)) ==> resp == Forbid
      ensures caller.Some? && old(IsMember(db.memberships, caller.value, id)) ==> resp == ServerError
    {
      if caller.None? || !IsMember(db.memberships, caller.value, id) {
        return Forbid;
      }
      if GetById(db.companies, id).None? {
        return NotFound;
      }
      MemberBlocksDelete(db.State(), caller.value, id);
      var result := db.DeleteCompany(id);
      if result == Deleted {
        resp := Redirect(Success(CompanyDeleted));
      } else {
        resp := ServerError;
      }
    }
  }
}
