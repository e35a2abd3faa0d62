/**
 * The employer's own vacancies: four counters, paging ten at a time, and
 * the two row buttons that switch a vacancy on or off and delete it.
 */
module MyVacanciesPage {
  import opened Wrappers
  import opened Seqs
  import opened Tables
  import opened Entities
  import opened Store
  import opened Web
  import opened Paging
  import Text
  import VacancyRepository
  import Requirements = RequirementRepository
  import Offers = OfferRepository

  const PageSize: nat := 10
  const Unspecified := "Не указано"
  const Activated := "Вакансия активирована"
  const Deactivated := "Вакансия деактивирована"
  const VacancyDeleted := "Вакансия удалена"

  /** `MyVacancyViewModel`; the posting time is kept as stored, not as the relative text the page prints. */
  datatype VacancyItem = VacancyItem(
    id: int,
    title: string,
    company: string,
    location: string,
    salary: string,
    postedDate: int,
    isSeasonal: bool,
    isActive: bool,
    viewsCount: int)

  function CreatedByFilter(userId: string): Vacancy -> bool
  {
    (v: Vacancy) => v.createdById == Some(userId)
  }

  /** `FindAsync(v => v.CreatedById == userId)`: the user's vacancies, in table order. */
  function Mine(vs: seq<Row<Vacancy>>, userId: string): (r: seq<Row<Vacancy>>)
    ensures forall x :: x in r <==> x in vs && x.val.createdById == Some(userId)
  {
    Where(vs, CreatedByFilter(userId))
  }

  /**
   * The row of the list for one vacancy. The vacancies are read by a plain
   * `Where` with no `Include` and nothing loads their company afterwards, so
   * the company column is always the fallback "Не указано".
   */
  function ItemOf(v: Row<Vacancy>): (r: VacancyItem)
    ensures r.id == v.id && r.title == v.val.title && r.location == v.val.location && r.salary == v.val.salary
    ensures r.postedDate == v.val.postedDate && r.isSeasonal == v.val.isSeasonal
    ensures r.isActive == v.val.isActive && r.viewsCount == v.val.viewsCount
    ensures r.company == Unspecified
  {
    VacancyItem(v.id, v.val.title, Unspecified, v.val.location, v.val.salary,
                v.val.postedDate, v.val.isSeasonal, v.val.isActive, v.val.viewsCount)
  }

  function ItemsOf(vs: seq<Row<Vacancy>>): (r: seq<VacancyItem>)
    ensures |r| == |vs|
    ensures forall i :: 0 <= i < |vs| ==> r[i] == ItemOf(vs[i])
  {
    seq(|vs|, i requires 0 <= i < |vs| => ItemOf(vs[i]))
  }

  // ----- the counters -----

  function Bit(b: bool): nat
  {
    if b then 1 else 0
  }

  /** The number of switched-off vacancies, counted directly. */
  function InactiveCount(rows: seq<Row<Vacancy>>): (n: nat)
    ensures n <= |rows|
  {
    if rows == [] then 0 else InactiveCount(rows[..|rows| - 1]) + Bit(!rows[|rows| - 1].val.isActive)
  }

  function ViewsOf(): Row<Vacancy> -> int
  {
    (r: Row<Vacancy>) => r.val.viewsCount
  }

  /** `Sum(v => v.ViewsCount)`. */
  function TotalViews(rows: seq<Row<Vacancy>>): int
  {
    Sum(rows, ViewsOf())
  }

  /** Every vacancy is active or not: the two counts add up to the whole list. */
  lemma {:induction false} ActiveAndInactive(rows: seq<Row<Vacancy>>)
    ensures VacancyRepository.ActiveCount(rows) + InactiveCount(rows) == |rows|
  {
    if rows != [] {
      ActiveAndInactive(rows[..|rows| - 1]);
    }
  }

  /**
   * The statistics of `LoadVacanciesAsync`. `InactiveCount` is computed as a
   * difference, and it is exactly the number of switched-off vacancies.
   */
  method Counters(mine: seq<Row<Vacancy>>) returns (total: nat, active: nat, inactive: int, views: int)
    ensures total == |mine| && active == VacancyRepository.ActiveCount(mine) && active <= total
    ensures inactive == InactiveCount(mine) && inactive == total - active
    ensures views == TotalViews(mine)
  {
    total := |mine|;
    active := VacancyRepository.ActiveCount(mine);
    inactive := total - active;
    ActiveAndInactive(mine);
    views := TotalViews(mine);
  }

  /** One for an active vacancy, nothing otherwise. */
  function ActiveBit(): Row<Vacancy> -> int
  {
    (r: Row<Vacancy>) => Bit(r.val.isActive)
  }

  /** Counting the active vacancies is summing their flags. */
  lemma {:induction false} ActiveCountSum(xs: seq<Row<Vacancy>>)
    ensures VacancyRepository.ActiveCount(xs) == Sum(xs, ActiveBit())
  {
    if xs != [] {
      ActiveCountSum(xs[..|xs| - 1]);
    }
  }

  /**
   * A vacancy changed in place, keeping its key and creator: the user's list
   * keeps its length, and the two counters move by exactly what that
   * vacancy's flag and counter moved, when it is the user's.
   */
  lemma PointChange(vs: seq<Row<Vacancy>>, ws: seq<Row<Vacancy>>, i: nat, userId: string)
    requires |vs| == |ws| && i < |vs|
    requires forall k :: 0 <= k < |vs| && k != i ==> ws[k] == vs[k]
    requires ws[i].val.createdById == vs[i].val.createdById
    ensures |Mine(ws, userId)| == |Mine(vs, userId)|
    ensures TotalViews(Mine(ws, userId)) == TotalViews(Mine(vs, userId))
      + (if vs[i].val.createdById == Some(userId) then ws[i].val.viewsCount - vs[i].val.viewsCount else 0)
    ensures VacancyRepository.ActiveCount(Mine(ws, userId)) == VacancyRepository.ActiveCount(Mine(vs, userId))
      + (if vs[i].val.createdById == Some(userId) then Bit(ws[i].val.isActive) - Bit(vs[i].val.isActive) else 0)
  {
    PointChangeLength(vs, ws, i, userId);
    PointChangeSum(vs, ws, i, userId, ViewsOf());
    PointChangeSum(vs, ws, i, userId, ActiveBit());
    ActiveCountSum(Mine(vs, userId));
    ActiveCountSum(Mine(ws, userId));
  }

  /** The user's list keeps its length under a change that keeps the creator. */
  lemma {:induction false} PointChangeLength(vs: seq<Row<Vacancy>>, ws: seq<Row<Vacancy>>, i: nat, userId: string)
    requires |vs| == |ws| && i < |vs|
    requires forall k :: 0 <= k < |vs| && k != i ==> ws[k] == vs[k]
    requires ws[i].val.createdById == vs[i].val.createdById
    ensures |Mine(ws, userId)| == |Mine(vs, userId)|
  {
    var n := |vs| - 1;
    var vi, wi := vs[..n], ws[..n];
    if i == n {
      assert vi == wi;
    } else {
      PointChangeLength(vi, wi, i, userId);
      assert vi[i] == vs[i] && wi[i] == ws[i];
      assert ws[n] == vs[n];
    }
    assert ws[n].val.createdById == vs[n].val.createdById;
    MineSnoc(vs, userId);
    MineSnoc(ws, userId);
    var mv, mw := Mine(vi, userId), Mine(wi, userId);
    if vs[n].val.createdById == Some(userId) {
      assert Mine(vs, userId) == mv + [vs[n]] && Mine(ws, userId) == mw + [ws[n]];
    } else {
      assert Mine(vs, userId) == mv && Mine(ws, userId) == mw;
    }
  }

  /** A sum over the user's list moves by exactly the changed vacancy's difference, when it is the user's. */
  lemma PointChangeSum(vs: seq<Row<Vacancy>>, ws: seq<Row<Vacancy>>, i: nat, userId: string, f: Row<Vacancy> -> int)
    requires |vs| == |ws| && i < |vs|
    requires forall k :: 0 <= k < |vs| && k != i ==> ws[k] == vs[k]
    requires ws[i].val.createdById == vs[i].val.createdById
    ensures Sum(Mine(ws, userId), f) == Sum(Mine(vs, userId), f)
      + (if vs[i].val.createdById == Some(userId) then f(ws[i]) - f(vs[i]) else 0)
  {
    var p := CreatedByFilter(userId);
    var before, after := vs[..i], vs[i + 1..];
    assert vs == before + [vs[i]] + after;
    assert ws == before + [ws[i]] + after;
    var mb, ma := Where(before, p), Where(after, p);
    var tv, tw := OneRow(vs[i], p), OneRow(ws[i], p);
    WhereAppend(before + [vs[i]], after, p);
    WhereAppend(before, [vs[i]], p);
    WhereAppend(before + [ws[i]], after, p);
    WhereAppend(before, [ws[i]], p);
    SumAppend(mb + tv, ma, f);
    SumAppend(mb, tv, f);
    SumAppend(mb + tw, ma, f);
    SumAppend(mb, tw, f);
    SumSingle(vs[i], f);
    SumSingle(ws[i], f);
  }

  /** `Where` over a single row. */
  function OneRow(x: Row<Vacancy>, p: Vacancy -> bool): (r: seq<Row<Vacancy>>)
    ensures r == Where([x], p)
  {
    assert [x][..0] == [];
    if p(x.val) then [x] else []
  }

  /** The user's list of a table with one more row: that row joins it when the user created it. */
  lemma MineSnoc(vs: seq<Row<Vacancy>>, userId: string)
    requires vs != []
    ensures Mine(vs, userId) == Mine(vs[..|vs| - 1], userId)
      + if vs[|vs| - 1].val.createdById == Some(userId) then [vs[|vs| - 1]] else []
  {
    assert vs == vs[..|vs| - 1] + [vs[|vs| - 1]];
  }

  // ----- toggling -----

  /** The vacancies table after `vacancy.IsActive = !vacancy.IsActive` on the row with key `id`. */
  function Toggled(vs: seq<Row<Vacancy>>, id: int): (r: seq<Row<Vacancy>>)
    ensures GetById(vs, id).None? ==> r == vs
  {
    match GetById(vs, id)
    case None => vs
    case Some(v) => VacancyRepository.ActiveSet(vs, id, !v.isActive)
  }

  /** A toggled vacancy has the opposite flag and is otherwise the same; every other key finds what it found. */
  lemma ToggledLookup(vs: seq<Row<Vacancy>>, next: int, id: int, other: int)
    requires Keyed(vs, next)
    ensures Keyed(Toggled(vs, id), next)
    ensures GetById(vs, id).Some? ==>
      GetById(Toggled(vs, id), id) == Some(GetById(vs, id).value.(isActive := !GetById(vs, id).value.isActive))
    ensures other != id ==> GetById(Toggled(vs, id), other) == GetById(vs, other)
  {
    if GetById(vs, id).Some? {
      VacancyRepository.ActiveSetLookup(vs, next, id, !GetById(vs, id).value.isActive, other);
    }
  }

  /** Toggling twice gives back the table as it was. */
  lemma ToggleTwice(vs: seq<Row<Vacancy>>, next: int, id: int)
    requires Keyed(vs, next)
    ensures Toggled(Toggled(vs, id), id) == vs
  {
    match IndexOf(vs, id)
    case None =>
    case Some(i) =>
      var v := vs[i].val;
      var once := Replace(vs, i, v.(isActive := !v.isActive));
      assert Toggled(vs, id) == once;
      IndexOfSameKeys(vs, once, id);
      assert once[i].val.(isActive := !once[i].val.isActive) == v;
      assert Replace(once, i, v) == vs;
  }

  /**
   * Toggling one of the user's vacancies leaves the list length and the
   * view total as they were and moves the active count by one: down when
   * it was active, up when it was not.
   */
  lemma ToggleCounters(vs: seq<Row<Vacancy>>, next: int, id: int, userId: string)
    requires Keyed(vs, next)
    requires GetById(vs, id).Some? && GetById(vs, id).value.createdById == Some(userId)
    ensures |Mine(Toggled(vs, id), userId)| == |Mine(vs, userId)|
    ensures TotalViews(Mine(Toggled(vs, id), userId)) == TotalViews(Mine(vs, userId))
    ensures VacancyRepository.ActiveCount(Mine(Toggled(vs, id), userId))
      == VacancyRepository.ActiveCount(Mine(vs, userId)) + (if GetById(vs, id).value.isActive then -1 else 1)
  {
    var i := IndexOf(vs, id).value;
    PointChange(vs, Toggled(vs, id), i, userId);
  }

  /** One more view of one of the user's vacancies adds exactly one to `TotalViews` and changes no other counter. */
  lemma ViewCounted(vs: seq<Row<Vacancy>>, next: int, id: int, userId: string)
    requires Keyed(vs, next)
    requires GetById(vs, id).Some? && GetById(vs, id).value.createdById == Some(userId)
    ensures |Mine(VacancyRepository.Viewed(vs, id), userId)| == |Mine(vs, userId)|
    ensures TotalViews(Mine(VacancyRepository.Viewed(vs, id), userId)) == TotalViews(Mine(vs, userId)) + 1
    ensures VacancyRepository.ActiveCount(Mine(VacancyRepository.Viewed(vs, id), userId)) == VacancyRepository.ActiveCount(Mine(vs, userId))
  {
    var i := IndexOf(vs, id).value;
    PointChange(vs, VacancyRepository.Viewed(vs, id), i, userId);
  }

  /** The guard both buttons share: the vacancy exists and `CreatedById` equals the caller's id (two nulls are equal). */
  predicate Owns(vs: seq<Row<Vacancy>>, caller: Option<string>, id: int)
  {
    GetById(vs, id).Some? && GetById(vs, id).value.createdById == caller
  }

  /** The store after a vacancy is deleted with everything that cascades from it. */
  ghost predicate VacancyRemoved(s0: Snapshot, s1: Snapshot, id: int)
  {
    exists i :: 0 <= i < |s0.vacancies| && s0.vacancies[i].id == id
      && s1 == s0.(vacancies := RemoveAt(s0.vacancies, i),
                   requirements := RequirementsOutside(s0.requirements, id),
                   offers := OffersOutside(s0.offers, id),
                   vacancyTags := LinksOutside(s0.vacancyTags, id))
  }

  /** After the delete the vacancy is gone, and so are its requirements, offers and tag links. */
  lemma RemovedVacancyGone(s0: Snapshot, s1: Snapshot, id: int)
    requires Consistent(s0) && VacancyRemoved(s0, s1, id)
    ensures id !in Ids(s1.vacancies)
    ensures Requirements.ByVacancy(s1.requirements, id) == [] && Offers.ByVacancy(s1.offers, id) == []
    ensures forall l :: l in s1.vacancyTags ==> l.val.vacancyId != id
  {
    var i :| 0 <= i < |s0.vacancies| && s0.vacancies[i].id == id
      && s1 == s0.(vacancies := RemoveAt(s0.vacancies, i),
                   requirements := RequirementsOutside(s0.requirements, id),
                   offers := OffersOutside(s0.offers, id),
                   vacancyTags := LinksOutside(s0.vacancyTags, id));
    RemoveKeyed(s0.vacancies, s0.nextId, i);
    WhereNone(s1.requirements, Requirements.OfVacancyFilter(id));
    WhereNone(s1.offers, Offers.OfVacancyFilter(id));
  }

  /** The paging of `LoadVacanciesAsync`. */
  method LoadPage(mine: seq<Row<Vacancy>>, page: int)
    returns (pages: nat, current: int, rows: seq<VacancyItem>)
    ensures pages == TotalPages(|mine|, PageSize)
    ensures current == ClampPage(page, pages)
    ensures rows == ItemsOf(PageWindow(mine, current, PageSize))
    ensures |rows| <= PageSize
  {
    pages := TotalPages(|mine|, PageSize);
    current := page;
    if current < 1 {
      current := 1;
    }
    if current > pages && pages > 0 {
      current := pages;
    }
    rows := ItemsOf(PageWindow(mine, current, PageSize));
  }

  /** The computations of `LoadVacanciesAsync`, from the user's vacancies and the asked page. */
  method Load(mine: seq<Row<Vacancy>>, page: int)
    returns (total: nat, active: nat, inactive: int, views: int, pages: nat, current: int, rows: seq<VacancyItem>)
    ensures total == |mine| && active == VacancyRepository.ActiveCount(mine)
    ensures inactive == InactiveCount(mine) && active + inactive == total
    ensures views == TotalViews(mine)
    ensures pages == TotalPages(total, PageSize) && current == ClampPage(page, pages)
    ensures rows == ItemsOf(PageWindow(mine, current, PageSize))
  {
    total, active, inactive, views := Counters(mine);
    pages, current, rows := LoadPage(mine, page);
  }

  class MyVacanciesModel {
    var page: int
    var totalPages: nat
    var totalCount: nat
    var activeCount: nat
    var inactiveCount: int
    var totalViews: int
    var vacancies: seq<VacancyItem>

    /** A request with its `Page` query value. */
    constructor (page: int)
      ensures this.page == page && totalPages == 0 && totalCount == 0 && activeCount == 0
      ensures inactiveCount == 0 && totalViews == 0 && vacancies == []
    {
      this.page := page;
      totalPages := 0;
      totalCount := 0;
      activeCount := 0;
      inactiveCount := 0;
      totalViews := 0;
      vacancies := [];
    }

    /** `OnGetAsync`: nothing is loaded without a signed-in user; otherwise `LoadVacanciesAsync`. */
    method OnGet(db: Db, caller: Option<string>)
      modifies this
      ensures Text.IsNullOrEmpty(caller) ==> unchanged(this)
      ensures !Text.IsNullOrEmpty(caller) ==>
        totalCount == |Mine(db.vacancies, caller.value)| && activeCount == VacancyRepository.ActiveCount(Mine(db.vacancies, caller.value))
      ensures !Text.IsNullOrEmpty(caller) ==>
        inactiveCount == InactiveCount(Mine(db.vacancies, caller.value))
      ensures !Text.IsNullOrEmpty(caller) ==> totalViews == TotalViews(Mine(db.vacancies, caller.value))
      ensures !Text.IsNullOrEmpty(caller) ==>
        totalPages == TotalPages(totalCount, PageSize) && page == ClampPage(old(page), totalPages)
      ensures !Text.IsNullOrEmpty(caller) ==>
        vacancies == ItemsOf(PageWindow(Mine(db.vacancies, caller.value), page, PageSize))
    {
      if Text.IsNullOrEmpty(caller) {
        return;
      }
      LoadVacancies(Mine(db.vacancies, caller.value));
    }

    /** `LoadVacanciesAsync` over the user's vacancies. */
    method LoadVacancies(mine: seq<Row<Vacancy>>)
      modifies this
      ensures totalCount == |mine|
      ensures activeCount == VacancyRepository.ActiveCount(mine)
      ensures inactiveCount == InactiveCount(mine)
      ensures activeCount + inactiveCount == totalCount
      ensures totalViews == TotalViews(mine)
      ensures totalPages == TotalPages(totalCount, PageSize)
      ensures page == ClampPage(old(page), totalPages)
      ensures vacancies == ItemsOf(PageWindow(mine, page, PageSize))
    {
      var total, active, inactive, views, pages, current, rows := Load(mine, page);
      totalCount := total;
      activeCount := active;
      inactiveCount := inactive;
      totalViews := views;
      totalPages := pages;
      page := current;
      vacancies := rows;
    }
  }

  /**
   * `OnPostToggleStatusAsync`: `NotFound` and no change unless the caller
   * created the vacancy; otherwise its flag flips, nothing else changes,
   * and the notice says which way it went.
   */
  method OnPostToggleStatus(db: Db, caller: Option<string>, id: int) returns (resp: Response)
    requires db.Valid()
    modifies db
    ensures db.Valid()
    ensures !old(Owns(db.vacancies, caller, id)) ==> resp == NotFound && unchanged(db)
    ensures old(Owns(db.vacancies, caller, id)) ==>
      db.State() == old(db.State()).(vacancies := Toggled(old(db.vacancies), id))
      && resp == Redirect(Success(if old(GetById(db.vacancies, id)).value.isActive then Deactivated else Activated))
  {
    var vacancy := GetById(db.vacancies, id);
    if vacancy.None? || vacancy.value.createdById != caller {
      return NotFound;
    }
    var flag := !vacancy.value.isActive;
    var _ := VacancyRepository.SetActive(db, id, flag);
    resp := Redirect(Success(if flag then Activated else Deactivated));
  }

  /**
   * `OnPostDeleteAsync`: `NotFound` and no change unless the caller created
   * the vacancy. A vacancy that has applications is refused by their
   * restricting foreign key, an exception the handler does not catch;
   * otherwise the vacancy goes with its requirements, offers and tag links.
   */
  method OnPostDelete(db: Db, caller: Option<string>, id: int) returns (resp: Response)
    requires db.Valid()
    modifies db
    ensures db.Valid()
    ensures !old(Owns(db.vacancies, caller, id)) ==> resp == NotFound && unchanged(db)
    ensures old(Owns(db.vacancies, caller, id)) && old(HasApplications(db.applications, id)) ==>
      resp == ServerError && unchanged(db)
    ensures old(Owns(db.vacancies, caller, id)) && !old(HasApplications(db.applications, id)) ==>
      resp == Redirect(Success(VacancyDeleted)) && VacancyRemoved(old(db.State()), db.State(), id)
  {
    var vacancy := GetById(db.vacancies, id);
    if vacancy.None? || vacancy.value.createdById != caller {
      return NotFound;
    }
    var r := db.DeleteVacancy(id);
    if r == Deleted {
      resp := Redirect(Success(VacancyDeleted));
    } else {
      resp := ServerError;
    }
  }
}
