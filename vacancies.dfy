/**
 * The vacancy repository: the active, seasonal, per-company and latest
 * listings (newest first), the search and the paged filter, the statistics,
 * and the three updates of a stored vacancy: publish, archive and the view
 * counter.
 */
module VacancyRepository {
  import opened Wrappers
  import opened Seqs
  import opened Tables
  import opened Entities
  import opened Store
  import Text
  import Paging
  import CompanyRepository

  /** `OrderByDescending(v => v.PostedDate)`: a later posting may come first. */
  function PostedLater(a: Row<Vacancy>, b: Row<Vacancy>): bool
  {
    a.val.postedDate >= b.val.postedDate
  }

  lemma PostedLaterOrders()
    ensures TotalPreorder(PostedLater)
  {
  }

  function IsActiveFilter(): Vacancy -> bool
  {
    (v: Vacancy) => v.isActive
  }

  /** `GetActiveVacanciesAsync`: the active vacancies, newest first. */
  function Active(vs: seq<Row<Vacancy>>): (r: seq<Row<Vacancy>>)
    ensures forall x :: x in r <==> x in vs && x.val.isActive
    ensures multiset(r) == multiset(Where(vs, IsActiveFilter()))
    ensures Sorted(r, PostedLater)
  {
    PostedLaterOrders();
    OrderedWhere(vs, IsActiveFilter(), PostedLater)
  }

  function SeasonalFilter(): Vacancy -> bool
  {
    (v: Vacancy) => v.isSeasonal && v.isActive
  }

  /** `GetSeasonalVacanciesAsync`: the active seasonal vacancies, newest first. */
  function Seasonal(vs: seq<Row<Vacancy>>): (r: seq<Row<Vacancy>>)
    ensures forall x :: x in r <==> x in vs && x.val.isSeasonal && x.val.isActive
    ensures multiset(r) == multiset(Where(vs, SeasonalFilter()))
    ensures Sorted(r, PostedLater)
  {
    PostedLaterOrders();
    OrderedWhere(vs, SeasonalFilter(), PostedLater)
  }

  /** `GetVacanciesByCompanyAsync`: the company's active vacancies, newest first. */
  function ByCompany(vs: seq<Row<Vacancy>>, companyId: int): (r: seq<Row<Vacancy>>)
    ensures forall x :: x in r <==> x in vs && x.val.companyId == companyId && x.val.isActive
    ensures Sorted(r, PostedLater)
    ensures |r| == CompanyRepository.VacanciesCount(vs, companyId)
  {
    PostedLaterOrders();
    var r := OrderedWhere(vs, CompanyRepository.ActiveOfFilter(companyId), PostedLater);
    assert |multiset(r)| == |multiset(Where(vs, CompanyRepository.ActiveOfFilter(companyId)))|;
    r
  }

  /**
   * `GetLatestVacanciesAsync(count)`: the `count` newest active vacancies;
   * every active vacancy left out is no newer than every one listed.
   */
  function Latest(vs: seq<Row<Vacancy>>, count: int): (r: seq<Row<Vacancy>>)
    ensures count <= 0 ==> r == []
    ensures count >= 0 ==> |r| <= count
    ensures |r| < count ==> |r| == |Active(vs)|
    ensures forall x :: x in r ==> x in vs && x.val.isActive
    ensures multiset(r) <= multiset(Active(vs))
    ensures Sorted(r, PostedLater)
    ensures forall i, j :: 0 <= i < |r| <= j < |Active(vs)| ==> r[i].val.postedDate >= Active(vs)[j].val.postedDate
  {
    var a := Active(vs);
    TakeLeads(a, count);
    TakeSub(a, count);
    Take(a, count)
  }

  /** A prefix of a newest-first list is newest first, and nothing after it is newer. */
  lemma TakeLeads(a: seq<Row<Vacancy>>, count: int)
    requires Sorted(a, PostedLater)
    ensures Sorted(Take(a, count), PostedLater)
    ensures forall x :: x in Take(a, count) ==> x in a
    ensures forall i, j :: 0 <= i < |Take(a, count)| <= j < |a| ==> Take(a, count)[i].val.postedDate >= a[j].val.postedDate
  {
    var r := Take(a, count);
    assert forall i :: 0 <= i < |r| ==> r[i] == a[i];
  }

  /** The company the vacancy belongs to exists and its name contains `term`, ignoring case. */
  predicate CompanyNameContains(companies: seq<Row<Company>>, companyId: int, term: string)
  {
    match GetById(companies, companyId)
    case Some(c) => Text.ContainsIgnoreCase(c.name, term)
    case None => false
  }

  /** The text match both the search and the filter use: title, description or company name. */
  predicate TextMatch(companies: seq<Row<Company>>, v: Vacancy, term: string)
  {
    Text.ContainsIgnoreCase(v.title, term)
    || Text.ContainsIgnoreCase(v.description, term)
    || CompanyNameContains(companies, v.companyId, term)
  }

  function SearchFilter(companies: seq<Row<Company>>, term: string): Vacancy -> bool
  {
    (v: Vacancy) => v.isActive && (TextMatch(companies, v, term) || Text.ContainsIgnoreCase(v.category, term))
  }

  /**
   * `SearchVacanciesAsync`: a blank term gives the active listing itself;
   * otherwise the active vacancies whose title, description, company name
   * or category contains the term, ignoring case, newest first.
   */
  function Search(vs: seq<Row<Vacancy>>, companies: seq<Row<Company>>, term: Option<string>): (r: seq<Row<Vacancy>>)
    ensures Text.IsNullOrWhiteSpace(term) ==> r == Active(vs)
    ensures !Text.IsNullOrWhiteSpace(term) ==>
      forall x :: x in r <==>
        x in vs && x.val.isActive
        && (TextMatch(companies, x.val, term.value) || Text.ContainsIgnoreCase(x.val.category, term.value))
    ensures !Text.IsNullOrWhiteSpace(term) ==> multiset(r) == multiset(Where(vs, SearchFilter(companies, term.value)))
    ensures Sorted(r, PostedLater)
  {
    if Text.IsNullOrWhiteSpace(term) then Active(vs)
    else
      PostedLaterOrders();
      OrderedWhere(vs, SearchFilter(companies, term.value), PostedLater)
  }

  /** Whatever the term, the search finds active vacancies only. */
  lemma SearchWithinActive(vs: seq<Row<Vacancy>>, companies: seq<Row<Company>>, term: Option<string>)
    ensures forall x :: x in Search(vs, companies, term) ==> x in Active(vs)
  {
  }

  /** The three counters of `GetVacancyStatsAsync`. */
  datatype VacancyStats = VacancyStats(total: nat, active: nat, seasonal: nat)

  function IsSeasonalFilter(): Vacancy -> bool
  {
    (v: Vacancy) => v.isSeasonal
  }

  /**
   * `GetVacancyStatsAsync`: all vacancies, the active ones (as many as the
   * active listing holds) and the seasonal ones, active or not.
   */
  function Stats(vs: seq<Row<Vacancy>>): (r: VacancyStats)
    ensures r.total == |vs|
    ensures r.active == |Active(vs)| && r.active <= r.total
    ensures r.seasonal == |Where(vs, IsSeasonalFilter())| && r.seasonal <= r.total
  {
    assert |multiset(Active(vs))| == |multiset(Where(vs, IsActiveFilter()))|;
    VacancyStats(|vs|, CountRows(vs, IsActiveFilter()), CountRows(vs, IsSeasonalFilter()))
  }

  /** The optional arguments of `FilterVacanciesAsync` that the model keeps. */
  datatype VacancyQuery = VacancyQuery(companyId: Option<int>, isSeasonal: Option<bool>, searchTerm: Option<string>)

  /** An active vacancy passing every filter that is given; an absent or blank one passes everything. */
  predicate Selects(companies: seq<Row<Company>>, q: VacancyQuery, v: Vacancy)
  {
    v.isActive
    && (q.companyId.Some? ==> v.companyId == q.companyId.value)
    && (q.isSeasonal.Some? ==> v.isSeasonal == q.isSeasonal.value)
    && (!Text.IsNullOrWhiteSpace(q.searchTerm) ==> TextMatch(companies, v, q.searchTerm.value))
  }

  function SelectsFilter(companies: seq<Row<Company>>, q: VacancyQuery): Vacancy -> bool
  {
    (v: Vacancy) => Selects(companies, q, v)
  }

  /** Every vacancy the filter selects, newest first, before the page is cut. */
  function Matching(vs: seq<Row<Vacancy>>, companies: seq<Row<Company>>, q: VacancyQuery): (r: seq<Row<Vacancy>>)
    ensures forall x :: x in r <==> x in vs && Selects(companies, q, x.val)
    ensures multiset(r) == multiset(Where(vs, SelectsFilter(companies, q)))
    ensures Sorted(r, PostedLater)
  {
    PostedLaterOrders();
    OrderedWhere(vs, SelectsFilter(companies, q), PostedLater)
  }

  /**
   * `FilterVacanciesAsync`: page `page` of `pageSize` items of the selected
   * vacancies; a page size of zero or less gives nothing.
   */
  function FilterVacancies(vs: seq<Row<Vacancy>>, companies: seq<Row<Company>>, q: VacancyQuery, page: int, pageSize: int)
    : (r: seq<Row<Vacancy>>)
    ensures pageSize <= 0 ==> r == []
    ensures pageSize > 0 ==> |r| <= pageSize
    ensures forall x :: x in r ==> x in vs && Selects(companies, q, x.val)
  {
    var m := Matching(vs, companies, q);
    if pageSize <= 0 then []
    else
      Paging.WindowWithin(m, page, pageSize);
      Paging.PageWindow(m, page, pageSize)
  }

  /** A page of the filter is a run of consecutive selected vacancies, starting at item `(page - 1) * pageSize`. */
  lemma FilterPage(vs: seq<Row<Vacancy>>, companies: seq<Row<Company>>, q: VacancyQuery, page: int, pageSize: int)
    requires page >= 1 && pageSize > 0
    ensures var m, r := Matching(vs, companies, q), FilterVacancies(vs, companies, q, page, pageSize);
      forall i :: 0 <= i < |r| ==> 0 <= (page - 1) * pageSize + i < |m| && r[i] == m[(page - 1) * pageSize + i]
  {
    var m := Matching(vs, companies, q);
    Paging.MulMonotone(page - 1, 0, pageSize);
    assert FilterVacancies(vs, companies, q, page, pageSize) == Paging.PageWindow(m, page, pageSize);
  }

  /** Each filter that is given only narrows the selection; without any, it is the active listing. */
  lemma FilterNarrows(vs: seq<Row<Vacancy>>, companies: seq<Row<Company>>, q: VacancyQuery)
    ensures forall x :: x in Matching(vs, companies, q) ==> x in Matching(vs, companies, q.(companyId := None))
    ensures forall x :: x in Matching(vs, companies, q) ==> x in Matching(vs, companies, q.(isSeasonal := None))
    ensures forall x :: x in Matching(vs, companies, q) ==> x in Matching(vs, companies, q.(searchTerm := None))
    ensures forall x :: x in Matching(vs, companies, VacancyQuery(None, None, None)) <==> x in Active(vs)
  {
  }

  // ----- updates of a stored vacancy -----

  /**
   * The vacancies table after `IsActive` is set to `flag` on the row with
   * key `id`: every row keeps its key, and a row either stays as it was or
   * differs only in `IsActive`.
   */
  function ActiveSet(vs: seq<Row<Vacancy>>, id: int, flag: bool): (r: seq<Row<Vacancy>>)
    ensures |r| == |vs|
    ensures forall k :: 0 <= k < |vs| ==> r[k].id == vs[k].id
    ensures forall k :: 0 <= k < |vs| && vs[k].id != id ==> r[k] == vs[k]
    ensures forall k :: 0 <= k < |vs| ==> r[k].val == vs[k].val || r[k].val == vs[k].val.(isActive := flag)
    ensures IndexOf(vs, id).None? ==> r == vs
  {
    match IndexOf(vs, id)
    case None => vs
    case Some(i) => Replace(vs, i, vs[i].val.(isActive := flag))
  }

  /** After the update, the id finds its vacancy with the new flag and nothing else changed; other ids find what they found. */
  lemma ActiveSetLookup(vs: seq<Row<Vacancy>>, next: int, id: int, flag: bool, other: int)
    requires Keyed(vs, next)
    ensures Keyed(ActiveSet(vs, id, flag), next)
    ensures GetById(vs, id).Some? ==> GetById(ActiveSet(vs, id, flag), id) == Some(GetById(vs, id).value.(isActive := flag))
    ensures other != id ==> GetById(ActiveSet(vs, id, flag), other) == GetById(vs, other)
  {
    match IndexOf(vs, id)
    case None =>
    case Some(i) => ReplaceLookup(vs, next, i, vs[i].val.(isActive := flag), other);
  }

  /** Publishing (or archiving) twice is the same as once. */
  lemma ActiveSetIdempotent(vs: seq<Row<Vacancy>>, id: int, flag: bool)
    ensures ActiveSet(ActiveSet(vs, id, flag), id, flag) == ActiveSet(vs, id, flag)
  {
    var r := ActiveSet(vs, id, flag);
    IndexOfSameKeys(vs, r, id);
    match IndexOf(vs, id)
    case None =>
    case Some(i) =>
      assert r[i].val.(isActive := flag) == r[i].val;
      assert Replace(r, i, r[i].val) == r;
  }

  /** A vacancy that already has the flag is left exactly as it was: publishing an active vacancy changes nothing. */
  lemma ActiveSetKeeps(vs: seq<Row<Vacancy>>, next: int, id: int, flag: bool)
    requires Keyed(vs, next)
    requires GetById(vs, id).Some? && GetById(vs, id).value.isActive == flag
    ensures ActiveSet(vs, id, flag) == vs
  {
    var i := IndexOf(vs, id).value;
    assert vs[i].val.(isActive := flag) == vs[i].val;
    assert Replace(vs, i, vs[i].val) == vs;
  }

  /**
   * `PublishVacancyAsync` (`flag` true) and `ArchiveVacancyAsync` (`flag`
   * false): false and no change for an unknown id; otherwise the vacancy's
   * `IsActive` takes `flag` and the answer is true.
   */
  method SetActive(db: Db, id: int, flag: bool) returns (ok: bool)
    requires db.Valid()
    modifies db
    ensures db.Valid()
    ensures ok <==> id in old(Ids(db.vacancies))
    ensures !ok ==> unchanged(db)
    ensures db.State() == old(db.State()).(vacancies := ActiveSet(old(db.vacancies), id, flag))
  {
    var at := IndexOf(db.vacancies, id);
    if at.None? {
      return false;
    }
    var i := at.value;
    var v := db.vacancies[i].val;
    assert db.vacancies[i] in db.vacancies;
    db.SetVacancy(i, v.(isActive := flag));
    ok := true;
  }

  /** `PublishVacancyAsync`. */
  method Publish(db: Db, id: int) returns (ok: bool)
    requires db.Valid()
    modifies db
    ensures db.Valid()
    ensures ok <==> id in old(Ids(db.vacancies))
    ensures !ok ==> unchanged(db)
    ensures db.State() == old(db.State()).(vacancies := ActiveSet(old(db.vacancies), id, true))
  {
    ok := SetActive(db, id, true);
  }

  /** `ArchiveVacancyAsync`. */
  method Archive(db: Db, id: int) returns (ok: bool)
    requires db.Valid()
    modifies db
    ensures db.Valid()
    ensures ok <==> id in old(Ids(db.vacancies))
    ensures !ok ==> unchanged(db)
    ensures db.State() == old(db.State()).(vacancies := ActiveSet(old(db.vacancies), id, false))
  {
    ok := SetActive(db, id, false);
  }

  /** The vacancies table after one more view of the vacancy with key `id`. */
  function Viewed(vs: seq<Row<Vacancy>>, id: int): (r: seq<Row<Vacancy>>)
    ensures |r| == |vs|
    ensures forall k :: 0 <= k < |vs| ==> r[k].id == vs[k].id
    ensures forall k :: 0 <= k < |vs| && vs[k].id != id ==> r[k] == vs[k]
    ensures forall k :: 0 <= k < |vs| ==> r[k].val == vs[k].val || r[k].val == vs[k].val.(viewsCount := vs[k].val.viewsCount + 1)
    ensures IndexOf(vs, id).None? ==> r == vs
  {
    match IndexOf(vs, id)
    case None => vs
    case Some(i) => Replace(vs, i, vs[i].val.(viewsCount := vs[i].val.viewsCount + 1))
  }

  /** A view adds exactly one to that vacancy's counter and touches nothing else. */
  lemma ViewedLookup(vs: seq<Row<Vacancy>>, next: int, id: int, other: int)
    requires Keyed(vs, next)
    ensures Keyed(Viewed(vs, id), next)
    ensures GetById(vs, id).Some? ==>
      GetById(Viewed(vs, id), id) == Some(GetById(vs, id).value.(viewsCount := GetById(vs, id).value.viewsCount + 1))
    ensures other != id ==> GetById(Viewed(vs, id), other) == GetById(vs, other)
  {
    match IndexOf(vs, id)
    case None =>
      assert Viewed(vs, id) == vs;
    case Some(i) =>
      var v := vs[i].val.(viewsCount := vs[i].val.viewsCount + 1);
      assert Viewed(vs, id) == Replace(vs, i, v);
      assert GetById(vs, id) == Some(vs[i].val);
      ReplaceLookup(vs, next, i, v, other);
  }

  /**
   * `IncrementViewsAsync`: 0 and no change for an unknown id; otherwise the
   * counter grows by one and its new value is the answer.
   */
  method IncrementViews(db: Db, id: int) returns (n: int)
    requires db.Valid()
    modifies db
    ensures db.Valid()
    ensures id !in old(Ids(db.vacancies)) ==> n == 0 && unchanged(db)
    ensures id in old(Ids(db.vacancies)) ==> n == old(GetById(db.vacancies, id)).value.viewsCount + 1
    ensures id in old(Ids(db.vacancies)) ==> GetById(db.vacancies, id) == Some(old(GetById(db.vacancies, id)).value.(viewsCount := n))
    ensures db.State() == old(db.State()).(vacancies := Viewed(old(db.vacancies), id))
  {
    var at := IndexOf(db.vacancies, id);
    if at.None? {
      return 0;
    }
    var i := at.value;
    var v := db.vacancies[i].val;
    assert db.vacancies[i] in db.vacancies;
    ViewedLookup(db.vacancies, db.nextId, id, id);
    db.SetVacancy(i, v.(viewsCount := v.viewsCount + 1));
    n := v.viewsCount + 1;
  }

  /** `Count(v => v.IsActive)`: the number of switched-on vacancies. */
  function ActiveCount(vs: seq<Row<Vacancy>>): (n: nat)
    ensures n <= |vs|
  {
    if vs == [] then 0
    else ActiveCount(vs[..|vs| - 1]) + (if vs[|vs| - 1].val.isActive then 1 else 0)
  }

  /** The count is the number of rows the `IsActive` filter keeps. */
  lemma {:induction false} ActiveCountCounts(vs: seq<Row<Vacancy>>)
    ensures ActiveCount(vs) == CountRows(vs, IsActiveFilter())
  {
    if vs != [] {
      ActiveCountCounts(vs[..|vs| - 1]);
    }
  }
}
