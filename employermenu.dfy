/**
 * The employer's dashboard: the companies the user belongs to, one of them
 * selected (the first when none is asked for), that company's vacancies,
 * newest first, and its ten most recent applications. The two vacancy
 * switches act on any id without asking whose vacancy it is.
 */
module EmployerMenuPage {
  import opened Wrappers
  import opened Seqs
  import opened Tables
  import opened Entities
  import opened Statuses
  import opened Store
  import opened Web
  import Text
  import CompanyRepository
  import VacancyRepository
  import ApplicationRepository

  const Unspecified := "Не указано"
  const RecentLimit := 10

  /** `CompanyViewModel`: a company card with its count of active vacancies. */
  datatype CompanyItem = CompanyItem(
    id: int,
    name: string,
    contactPerson: Option<string>,
    contactPhone: Option<string>,
    contactEmail: Option<string>,
    description: Option<string>,
    isVerified: bool,
    vacanciesCount: nat)

  function CompanyItemOf(c: Row<Company>, vacancies: seq<Row<Vacancy>>): (r: CompanyItem)
    ensures r.id == c.id && r.name == c.val.name && r.isVerified == c.val.isVerified
    ensures r.contactPerson == c.val.contactPerson && r.contactPhone == c.val.contactPhone
    ensures r.contactEmail == c.val.contactEmail && r.description == c.val.description
    ensures r.vacanciesCount == CompanyRepository.VacanciesCount(vacancies, c.id)
  {
    CompanyItem(c.id, c.val.name, c.val.contactPerson, c.val.contactPhone, c.val.contactEmail,
                c.val.description, c.val.isVerified, CompanyRepository.VacanciesCount(vacancies, c.id))
  }

  function CompanyItemsOf(cs: seq<Row<Company>>, vacancies: seq<Row<Vacancy>>): (r: seq<CompanyItem>)
    ensures |r| == |cs|
    ensures forall i :: 0 <= i < |cs| ==> r[i] == CompanyItemOf(cs[i], vacancies)
  {
    seq(|cs|, i requires 0 <= i < |cs| => CompanyItemOf(cs[i], vacancies))
  }

  /**
   * The selection after `OnGetAsync`'s default: an asked-for id stays, even
   * one of a company the user does not belong to; otherwise the first of the
   * user's companies, if there is one.
   */
  function Selection(asked: Option<int>, companies: seq<CompanyItem>): (r: Option<int>)
    ensures asked.Some? ==> r == asked
    ensures r.None? <==> asked.None? && companies == []
    ensures asked.None? && r.Some? ==> r.value == companies[0].id
  {
    if asked.None? && |companies| > 0 then Some(companies[0].id) else asked
  }

  /** `Companies.FirstOrDefault(c => c.Id == id)`. */
  function FindCompany(companies: seq<CompanyItem>, id: int): (r: Option<CompanyItem>)
    ensures r.Some? ==> r.value in companies && r.value.id == id
    ensures r.None? ==> forall c :: c in companies ==> c.id != id
  {
    if companies == [] then None
    else if companies[0].id == id then Some(companies[0])
    else FindCompany(companies[1..], id)
  }

  /** The default selection is always a card on the page. */
  lemma DefaultSelectionShown(companies: seq<CompanyItem>)
    requires companies != []
    ensures FindCompany(companies, Selection(None, companies).value) == Some(companies[0])
  {
  }

  /** `v.CompanyId == companyId`: every vacancy of the company, active or not. */
  function OfCompanyFilter(companyId: int): Vacancy -> bool
  {
    (v: Vacancy) => v.companyId == companyId
  }

  /** `FindAsync(v => v.CompanyId == companyId)` then `OrderByDescending(v => v.PostedDate)`. */
  function CompanyVacancies(vacancies: seq<Row<Vacancy>>, companyId: int): (r: seq<Row<Vacancy>>)
    ensures forall x :: x in r <==> x in vacancies && x.val.companyId == companyId
    ensures multiset(r) == multiset(Where(vacancies, OfCompanyFilter(companyId)))
    ensures Sorted(r, VacancyRepository.PostedLater)
  {
    VacancyRepository.PostedLaterOrders();
    OrderedWhere(vacancies, OfCompanyFilter(companyId), VacancyRepository.PostedLater)
  }

  /** `CountRows` only grows when the filter is weakened. */
  lemma {:induction false} CountWeaker<T(!new)>(rows: seq<Row<T>>, p: T -> bool, q: T -> bool)
    requires forall v :: p(v) ==> q(v)
    ensures CountRows(rows, p) <= CountRows(rows, q)
  {
    if rows != [] {
      CountWeaker(rows[..|rows| - 1], p, q);
    }
  }

  /**
   * The company card counts active vacancies only while the list shows them
   * all, so the card never shows more than the list below it.
   */
  lemma CardCountAtMostListed(vacancies: seq<Row<Vacancy>>, companyId: int)
    ensures CompanyRepository.VacanciesCount(vacancies, companyId) <= |CompanyVacancies(vacancies, companyId)|
  {
    CountWeaker(vacancies, CompanyRepository.ActiveOfFilter(companyId), OfCompanyFilter(companyId));
    var listed := CompanyVacancies(vacancies, companyId);
    assert |multiset(listed)| == |Where(vacancies, OfCompanyFilter(companyId))|;
  }

  /** `VacancyViewModel` without the location and category names; the date is kept as stored. */
  datatype VacancyItem = VacancyItem(
    id: int,
    title: string,
    company: string,
    salary: string,
    postedDate: int,
    isSeasonal: bool,
    isActive: bool,
    applicationsCount: nat,
    companyId: int)

  function VacancyItemOf(v: Row<Vacancy>, companies: seq<Row<Company>>, apps: seq<Row<Application>>): (r: VacancyItem)
    ensures r.id == v.id && r.title == v.val.title && r.salary == v.val.salary && r.postedDate == v.val.postedDate
    ensures r.isSeasonal == v.val.isSeasonal && r.isActive == v.val.isActive && r.companyId == v.val.companyId
    ensures r.company == CompanyRepository.CompanyNameOr(companies, v.val.companyId, Unspecified)
    ensures r.applicationsCount == |ApplicationRepository.ByVacancy(apps, v.id)|
  {
    VacancyItem(v.id, v.val.title, CompanyRepository.CompanyNameOr(companies, v.val.companyId, Unspecified), v.val.salary, v.val.postedDate,
                v.val.isSeasonal, v.val.isActive, ApplicationRepository.CountByVacancy(apps, v.id), v.val.companyId)
  }

  function VacancyItemsOf(vs: seq<Row<Vacancy>>, companies: seq<Row<Company>>, apps: seq<Row<Application>>): (r: seq<VacancyItem>)
    ensures |r| == |vs|
    ensures forall i :: 0 <= i < |vs| ==> r[i] == VacancyItemOf(vs[i], companies, apps)
  {
    seq(|vs|, i requires 0 <= i < |vs| => VacancyItemOf(vs[i], companies, apps))
  }

  /** The keys of the company's vacancies, in table order. */
  function VacancyIds(vacancies: seq<Row<Vacancy>>, companyId: int): (r: seq<int>)
    ensures forall id :: id in r <==> exists v :: v in vacancies && v.id == id && v.val.companyId == companyId
  {
    var w := Where(vacancies, OfCompanyFilter(companyId));
    var r := seq(|w|, i requires 0 <= i < |w| => w[i].id);
    assert forall id :: id in r ==> exists v :: v in w && v.id == id;
    forall id | exists v :: v in vacancies && v.id == id && v.val.companyId == companyId
      ensures id in r
    {
      var v :| v in vacancies && v.id == id && v.val.companyId == companyId;
      assert v in w;
      var i :| 0 <= i < |w| && w[i] == v;
      assert r[i] == id;
    }
    r
  }

  /** `GetApplicationsByVacancyAsync` as a function of the vacancy key. */
  function ByVacancyOf(apps: seq<Row<Application>>): int -> seq<Row<Application>>
  {
    (id: int) => ApplicationRepository.ByVacancy(apps, id)
  }

  /**
   * The `foreach` of `LoadRecentApplicationsAsync`: each vacancy's
   * applications, appended vacancy by vacancy.
   */
  method Gather(apps: seq<Row<Application>>, vacancyIds: seq<int>) returns (all: seq<Row<Application>>)
    ensures all == FlatMap(vacancyIds, ByVacancyOf(apps))
  {
    all := [];
    var k := 0;
    while k < |vacancyIds|
      invariant 0 <= k <= |vacancyIds|
      invariant all == FlatMap(vacancyIds[..k], ByVacancyOf(apps))
    {
      assert vacancyIds[..k + 1][..k] == vacancyIds[..k];
      all := all + ApplicationRepository.ByVacancy(apps, vacancyIds[k]);
      k := k + 1;
    }
    assert vacancyIds[..k] == vacancyIds;
  }

  /** Everything `Gather` collects for the company. */
  function CompanyApplications(vacancies: seq<Row<Vacancy>>, apps: seq<Row<Application>>, companyId: int): (r: seq<Row<Application>>)
    ensures forall x :: x in r ==> x in apps && x.val.vacancyId in VacancyIds(vacancies, companyId)
  {
    FlatMapMembers(VacancyIds(vacancies, companyId), ByVacancyOf(apps));
    FlatMap(VacancyIds(vacancies, companyId), ByVacancyOf(apps))
  }

  /**
   * The collected applications are exactly those to a vacancy of the
   * company, the same ones `GetApplicationsByCompanyAsync` lists.
   */
  lemma CompanyApplicationsMembers(vacancies: seq<Row<Vacancy>>, apps: seq<Row<Application>>, companyId: int)
    requires Increasing(vacancies)
    ensures forall x :: x in CompanyApplications(vacancies, apps, companyId) <==>
      x in apps && exists v :: v in vacancies && v.id == x.val.vacancyId && v.val.companyId == companyId
    ensures forall x :: x in CompanyApplications(vacancies, apps, companyId) <==>
      x in ApplicationRepository.ByCompany(apps, vacancies, companyId)
  {
    var ids := VacancyIds(vacancies, companyId);
    FlatMapMembers(ids, ByVacancyOf(apps));
    forall x ensures x in CompanyApplications(vacancies, apps, companyId) <==>
      x in apps && exists v :: v in vacancies && v.id == x.val.vacancyId && v.val.companyId == companyId
    {
      if x in apps && exists v :: v in vacancies && v.id == x.val.vacancyId && v.val.companyId == companyId {
        assert x.val.vacancyId in ids;
        assert x in ByVacancyOf(apps)(x.val.vacancyId);
      }
    }
  }

  /** `OrderByDescending(a => a.AppliedAt).Take(10)` over what was collected. */
  function Recent(vacancies: seq<Row<Vacancy>>, apps: seq<Row<Application>>, companyId: int): (r: seq<Row<Application>>)
    ensures |r| <= RecentLimit
    ensures |r| == RecentLimit || |r| == |CompanyApplications(vacancies, apps, companyId)|
    ensures multiset(r) <= multiset(CompanyApplications(vacancies, apps, companyId))
  {
    TopBy(CompanyApplications(vacancies, apps, companyId), ApplicationRepository.LaterApplied, RecentLimit)
  }

  /** The recent list is newest first, and none of the company's applications left out is newer than any listed. */
  lemma RecentAreNewest(vacancies: seq<Row<Vacancy>>, apps: seq<Row<Application>>, companyId: int)
    ensures Sorted(Recent(vacancies, apps, companyId), ApplicationRepository.LaterApplied)
    ensures forall x, y ::
      (x in Recent(vacancies, apps, companyId) && y in CompanyApplications(vacancies, apps, companyId)
       && y !in Recent(vacancies, apps, companyId)) ==> y.val.appliedAt <= x.val.appliedAt
  {
    ApplicationRepository.LaterAppliedOrders();
    TopByBest(CompanyApplications(vacancies, apps, companyId), ApplicationRepository.LaterApplied, RecentLimit);
  }

  /** The recent list holds only applications to the company's vacancies. */
  lemma RecentOfCompany(vacancies: seq<Row<Vacancy>>, apps: seq<Row<Application>>, companyId: int)
    requires Increasing(vacancies)
    ensures forall x :: x in Recent(vacancies, apps, companyId) ==>
      x in apps && exists v :: v in vacancies && v.id == x.val.vacancyId && v.val.companyId == companyId
  {
    ApplicationRepository.LaterAppliedOrders();
    TopByBest(CompanyApplications(vacancies, apps, companyId), ApplicationRepository.LaterApplied, RecentLimit);
    CompanyApplicationsMembers(vacancies, apps, companyId);
  }

  /** `RecentApplicationViewModel` of the employer's dashboard. */
  datatype RecentItem = RecentItem(
    id: int,
    vacancyId: int,
    vacancyTitle: string,
    companyName: string,
    applicantName: string,
    applicantEmail: Option<string>,
    appliedAt: int,
    status: string,
    statusCode: string,
    hasResume: bool)

  /** One recent application: its vacancy and company by name, the applicant from the identity store, the status twice. */
  function RecentItemOf(a: Row<Application>, vacancies: seq<Row<Vacancy>>, companies: seq<Row<Company>>,
                        users: map<string, Profile>): (r: RecentItem)
    ensures r.id == a.id && r.vacancyId == a.val.vacancyId && r.appliedAt == a.val.appliedAt
    ensures r.hasResume <==> a.val.resumeId.Some?
    ensures r.status == MenuDisplayName(a.val.status) && r.statusCode == StatusCode(a.val.status)
    ensures GetById(vacancies, a.val.vacancyId).None? ==> r.vacancyTitle == Unspecified && r.companyName == Unspecified
    ensures GetById(vacancies, a.val.vacancyId).Some? ==>
      r.vacancyTitle == GetById(vacancies, a.val.vacancyId).value.title
      && r.companyName == CompanyRepository.CompanyNameOr(companies, GetById(vacancies, a.val.vacancyId).value.companyId, Unspecified)
    ensures r.applicantName == NameOr(FindUser(users, a.val.userId), a.val.userId)
    ensures a.val.userId in users ==> r.applicantEmail == users[a.val.userId].email
    ensures a.val.userId !in users ==> r.applicantEmail.None?
  {
    var vacancy := GetById(vacancies, a.val.vacancyId);
    var user := FindUser(users, a.val.userId);
    RecentItem(
      a.id,
      a.val.vacancyId,
      if vacancy.Some? then vacancy.value.title else Unspecified,
      if vacancy.Some? then CompanyRepository.CompanyNameOr(companies, vacancy.value.companyId, Unspecified) else Unspecified,
      NameOr(user, a.val.userId),
      if user.Some? then user.value.email else None,
      a.val.appliedAt,
      MenuDisplayName(a.val.status),
      StatusCode(a.val.status),
      a.val.resumeId.Some?)
  }

  /** The status code the dashboard writes is read back as the same status by the applicant list's parser. */
  lemma RecentCodeParses(a: Row<Application>, vacancies: seq<Row<Vacancy>>, companies: seq<Row<Company>>,
                         users: map<string, Profile>)
    ensures ParseCode(RecentItemOf(a, vacancies, companies, users).statusCode) == Some(a.val.status)
  {
    CodeRoundTrip(a.val.status, StatusCode(a.val.status));
  }

  function RecentItemsOf(apps: seq<Row<Application>>, vacancies: seq<Row<Vacancy>>, companies: seq<Row<Company>>,
                         users: map<string, Profile>): (r: seq<RecentItem>)
    ensures |r| == |apps|
    ensures forall i :: 0 <= i < |apps| ==> r[i] == RecentItemOf(apps[i], vacancies, companies, users)
  {
    seq(|apps|, i requires 0 <= i < |apps| => RecentItemOf(apps[i], vacancies, companies, users))
  }

  /** `LoadRecentApplicationsAsync`: gather, keep the ten newest, describe each. */
  method LoadRecent(vacancies: seq<Row<Vacancy>>, companies: seq<Row<Company>>, apps: seq<Row<Application>>,
                    users: map<string, Profile>, companyId: int)
    returns (rows: seq<RecentItem>)
    ensures rows == RecentItemsOf(Recent(vacancies, apps, companyId), vacancies, companies, users)
    ensures |rows| <= RecentLimit
  {
    var all := Gather(apps, VacancyIds(vacancies, companyId));
    var recent := TopBy(all, ApplicationRepository.LaterApplied, RecentLimit);
    rows := RecentItemsOf(recent, vacancies, companies, users);
  }

  /** What `OnGetAsync` shows a signed-in user. */
  datatype Dashboard = Dashboard(
    cards: seq<CompanyItem>,
    selection: Option<int>,
    card: Option<CompanyItem>,
    vacancies: seq<VacancyItem>,
    recent: seq<RecentItem>)

  /**
   * The dashboard: the user's company cards, the selection, and for a
   * selected company its card if the user has it, its vacancies and its
   * recent applications; nothing more without a selection.
   */
  function View(companies: seq<Row<Company>>, memberships: seq<Row<CompanyUser>>, vacancies: seq<Row<Vacancy>>,
                apps: seq<Row<Application>>, users: map<string, Profile>, userId: string, asked: Option<int>): (d: Dashboard)
    ensures d.cards == CompanyItemsOf(CompanyRepository.CompaniesOf(companies, memberships, userId), vacancies)
    ensures d.selection == Selection(asked, d.cards)
    ensures d.selection.None? ==> d.card.None? && d.vacancies == [] && d.recent == []
    ensures |d.recent| <= RecentLimit
  {
    var cards := CompanyItemsOf(CompanyRepository.CompaniesOf(companies, memberships, userId), vacancies);
    var selection := Selection(asked, cards);
    match selection
    case None => Dashboard(cards, None, None, [], [])
    case Some(id) =>
      Dashboard(cards, selection, FindCompany(cards, id),
                VacancyItemsOf(CompanyVacancies(vacancies, id), companies, apps),
                RecentItemsOf(Recent(vacancies, apps, id), vacancies, companies, users))
  }

  /** The selected company's card, vacancies and recent applications are those of the chosen company. */
  lemma ViewOfSelection(companies: seq<Row<Company>>, memberships: seq<Row<CompanyUser>>, vacancies: seq<Row<Vacancy>>,
                        apps: seq<Row<Application>>, users: map<string, Profile>, userId: string, asked: Option<int>)
    requires View(companies, memberships, vacancies, apps, users, userId, asked).selection.Some?
    ensures var d := View(companies, memberships, vacancies, apps, users, userId, asked);
      d.card == FindCompany(d.cards, d.selection.value)
      && d.vacancies == VacancyItemsOf(CompanyVacancies(vacancies, d.selection.value), companies, apps)
      && d.recent == RecentItemsOf(Recent(vacancies, apps, d.selection.value), vacancies, companies, users)
  {
  }

  /** `OnGetAsync`'s loading, with the `foreach` loops of the recent applications. */
  method Load(companies: seq<Row<Company>>, memberships: seq<Row<CompanyUser>>, vacancies: seq<Row<Vacancy>>,
              apps: seq<Row<Application>>, users: map<string, Profile>, userId: string, asked: Option<int>)
    returns (d: Dashboard)
    ensures d == View(companies, memberships, vacancies, apps, users, userId, asked)
  {
    var cards := CompanyItemsOf(CompanyRepository.CompaniesOf(companies, memberships, userId), vacancies);
    var selection := Selection(asked, cards);
    if selection.None? {
      return Dashboard(cards, None, None, [], []);
    }
    var id := selection.value;
    var rrows := LoadRecent(vacancies, companies, apps, users, id);
    d := Dashboard(cards, selection, FindCompany(cards, id), VacancyItemsOf(CompanyVacancies(vacancies, id), companies, apps), rrows);
  }

  /**
   * What the page shows after loading `d` over what it showed before: the
   * cards and the selection always, the selected company's fields only when
   * a company is selected.
   */
  function Shows(prev: Dashboard, d: Dashboard): (r: Dashboard)
    ensures r.cards == d.cards && r.selection == d.selection
    ensures d.selection.Some? ==> r == d
    ensures d.selection.None? ==> r.card == prev.card && r.vacancies == prev.vacancies && r.recent == prev.recent
  {
    if d.selection.Some? then d else prev.(cards := d.cards, selection := None)
  }

  class EmployerMenuModel {
    var selectedCompanyId: Option<int>
    var companies: seq<CompanyItem>
    var vacancies: seq<VacancyItem>
    var recent: seq<RecentItem>
    var selectedCompany: Option<CompanyItem>
    var applicationsCount: nat

    /** A request with its `SelectedCompanyId` query value. */
    constructor (selectedCompanyId: Option<int>)
      ensures this.selectedCompanyId == selectedCompanyId
      ensures companies == [] && vacancies == [] && recent == [] && selectedCompany.None? && applicationsCount == 0
    {
      this.selectedCompanyId := selectedCompanyId;
      companies := [];
      vacancies := [];
      recent := [];
      selectedCompany := None;
      applicationsCount := 0;
    }

    /** The page's fields, read as a dashboard. */
    function Shown(): Dashboard
      reads this
    {
      Dashboard(companies, selectedCompanyId, selectedCompany, vacancies, recent)
    }

    /**
     * `OnGetAsync`: nothing without a signed-in user; otherwise the
     * dashboard, with the fields of the selected company left as they were
     * when nothing is selected, and the number of recent applications as the
     * applications counter.
     */
    method OnGet(db: Db, users: map<string, Profile>, caller: Option<string>)
      modifies this
      ensures Text.IsNullOrEmpty(caller) ==> unchanged(this)
      ensures !Text.IsNullOrEmpty(caller) ==>
        Shown() == Shows(old(Shown()), View(db.companies, db.memberships, db.vacancies, db.applications, users, caller.value, old(selectedCompanyId)))
      ensures !Text.IsNullOrEmpty(caller) ==> applicationsCount == |recent|
    {
      if Text.IsNullOrEmpty(caller) {
        return;
      }
      var d := Load(db.companies, db.memberships, db.vacancies, db.applications, users, caller.value, selectedCompanyId);
      var next := Shows(Shown(), d);
      Show(next);
    }

    /** The fields take the dashboard's values, and the applications counter its number of recent applications. */
    method Show(d: Dashboard)
      modifies this
      ensures Shown() == d
      ensures applicationsCount == |recent|
    {
      companies := d.cards;
      selectedCompanyId := d.selection;
      selectedCompany := d.card;
      vacancies := d.vacancies;
      recent := d.recent;
      applicationsCount := |recent|;
    }
  }

  /** `OnPostActivateVacancyAsync`: any vacancy the id names becomes active; the caller is not consulted. */
  method OnPostActivateVacancy(db: Db, vacancyId: int) returns (resp: Response)
    requires db.Valid()
    modifies db
    ensures db.Valid() && resp == Redirect(NoNotice)
    ensures db.State() == old(db.State()).(vacancies := VacancyRepository.ActiveSet(old(db.vacancies), vacancyId, true))
  {
    var _ := VacancyRepository.Publish(db, vacancyId);
    resp := Redirect(NoNotice);
  }

  /** `OnPostDeactivateVacancyAsync`: any vacancy the id names becomes inactive; the caller is not consulted. */
  method OnPostDeactivateVacancy(db: Db, vacancyId: int) returns (resp: Response)
    requires db.Valid()
    modifies db
    ensures db.Valid() && resp == Redirect(NoNotice)
    ensures db.State() == old(db.State()).(vacancies := VacancyRepository.ActiveSet(old(db.vacancies), vacancyId, false))
  {
    var _ := VacancyRepository.Archive(db, vacancyId);
    resp := Redirect(NoNotice);
  }
}
