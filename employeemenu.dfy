/**
 * The applicant's menu: their resumes, most recently changed first, the
 * five newest of their applications with the total count, and a delete
 * button that quietly does nothing unless the resume is the caller's.
 */
module EmployeeMenuPage {
  import opened Wrappers
  import opened Seqs
  import opened Tables
  import opened Entities
  import opened Statuses
  import opened Store
  import opened Web
  import Text
  import ResumeRepository
  import ApplicationRepository
  import MyResumesPage
  import CompanyRepository

  const Unspecified := "Не указана"
  const RecentLimit: nat := 5

  /** `ResumeViewModel`. */
  datatype ResumeItem = ResumeItem(
    id: int,
    title: string,
    specialization: string,
    experience: int,
    desiredSalary: string,
    isActive: bool,
    isPublished: bool,
    updatedAt: int)

  /** `UpdatedAt ?? CreatedAt`: the last change, or the creation when there was none. */
  function ChangedAt(r: Resume): (t: int)
    ensures r.updatedAt.Some? ==> t == r.updatedAt.value
    ensures r.updatedAt.None? ==> t == r.createdAt
  {
    match r.updatedAt
    case Some(u) => u
    case None => r.createdAt
  }

  /**
   * One resume card. The category is not loaded with the resume, so the
   * specialization always falls back; a missing experience reads as 0 and a
   * missing salary as the fallback text.
   */
  function ItemOf(r: Row<Resume>): (item: ResumeItem)
    ensures item.id == r.id && item.title == r.val.title
    ensures item.specialization == Unspecified
    ensures r.val.experienceYears.None? ==> item.experience == 0
    ensures r.val.experienceYears.Some? ==> item.experience == r.val.experienceYears.value
    ensures r.val.desiredSalary.None? ==> item.desiredSalary == Unspecified
    ensures r.val.desiredSalary.Some? ==> item.desiredSalary == r.val.desiredSalary.value
    ensures item.isActive == r.val.isActive && item.isPublished == r.val.isPublished
    ensures item.updatedAt == ChangedAt(r.val)
  {
    ResumeItem(
      r.id,
      r.val.title,
      Unspecified,
      if r.val.experienceYears.Some? then r.val.experienceYears.value else 0,
      if r.val.desiredSalary.Some? then r.val.desiredSalary.value else Unspecified,
      r.val.isActive,
      r.val.isPublished,
      ChangedAt(r.val))
  }

  function ItemsOf(rs: seq<Row<Resume>>): (r: seq<ResumeItem>)
    ensures |r| == |rs|
    ensures forall i :: 0 <= i < |rs| ==> r[i] == ItemOf(rs[i])
  {
    seq(|rs|, i requires 0 <= i < |rs| => ItemOf(rs[i]))
  }

  /** `OrderByDescending(r => r.UpdatedAt)` over the cards. */
  function ChangedLater(a: Row<Resume>, b: Row<Resume>): bool
  {
    ChangedAt(a.val) >= ChangedAt(b.val)
  }

  lemma ChangedLaterOrders()
    ensures TotalPreorder(ChangedLater)
  {
  }

  /** `LoadResumesAsync`: the user's resumes in table order, then by last change, newest first. */
  function Resumes(rs: seq<Row<Resume>>, userId: string): seq<ResumeItem>
  {
    ItemsOf(OrderedWhere(rs, ResumeRepository.OfUserFilter(userId), ChangedLater))
  }

  /** A card never follows one changed earlier. */
  lemma ResumesOrdered(rs: seq<Row<Resume>>, userId: string)
    ensures forall i, j :: 0 <= i < j < |Resumes(rs, userId)| ==>
      Resumes(rs, userId)[i].updatedAt >= Resumes(rs, userId)[j].updatedAt
  {
    var rows := OrderedWhere(rs, ResumeRepository.OfUserFilter(userId), ChangedLater);
    var items := ItemsOf(rows);
    ChangedLaterOrders();
    forall i, j | 0 <= i < j < |items| ensures items[i].updatedAt >= items[j].updatedAt {
      assert ChangedLater(rows[i], rows[j]);
    }
  }

  /** The cards are exactly the cards of the user's resumes, as many as the repository counts for the user. */
  lemma ResumesListed(rs: seq<Row<Resume>>, userId: string)
    ensures forall r :: r in rs && r.val.userId == userId ==> ItemOf(r) in Resumes(rs, userId)
    ensures forall x :: x in Resumes(rs, userId) ==> exists r :: r in rs && r.val.userId == userId && x == ItemOf(r)
    ensures |Resumes(rs, userId)| == ResumeRepository.CountByUser(rs, userId)
  {
    var rows := OrderedWhere(rs, ResumeRepository.OfUserFilter(userId), ChangedLater);
    var items := ItemsOf(rows);
    forall r | r in rs && r.val.userId == userId ensures ItemOf(r) in items {
      assert r in rows;
      var k :| 0 <= k < |rows| && rows[k] == r;
      assert items[k] == ItemOf(r);
    }
    forall x | x in items ensures exists r :: r in rs && r.val.userId == userId && x == ItemOf(r) {
      var k :| 0 <= k < |items| && items[k] == x;
      assert rows[k] in rows;
    }
    ResumesCounted(rs, userId);
  }

  lemma ResumesCounted(rs: seq<Row<Resume>>, userId: string)
    ensures |OrderedWhere(rs, ResumeRepository.OfUserFilter(userId), ChangedLater)| == ResumeRepository.CountByUser(rs, userId)
  {
    var rows := OrderedWhere(rs, ResumeRepository.OfUserFilter(userId), ChangedLater);
    assert |multiset(rows)| == |multiset(ResumeRepository.ByUser(rs, userId))|;
  }

  /** `Take(5)` of the user's applications ordered by `AppliedAt`, newest first. */
  function Recent(apps: seq<Row<Application>>, userId: string): (r: seq<Row<Application>>)
    ensures |r| == if ApplicationRepository.CountByUser(apps, userId) < RecentLimit
      then ApplicationRepository.CountByUser(apps, userId) else RecentLimit
    ensures multiset(r) <= multiset(ApplicationRepository.ByUser(apps, userId))
  {
    TopBy(ApplicationRepository.ByUser(apps, userId), ApplicationRepository.LaterApplied, RecentLimit)
  }

  /**
   * The recent applications are the user's own, newest first, and every
   * application of the user left out is no newer than any shown.
   */
  lemma RecentAreNewest(apps: seq<Row<Application>>, userId: string)
    ensures forall i, j :: 0 <= i < j < |Recent(apps, userId)| ==>
      Recent(apps, userId)[i].val.appliedAt >= Recent(apps, userId)[j].val.appliedAt
    ensures forall x :: x in Recent(apps, userId) ==> x in apps && x.val.userId == userId
    ensures forall x, y :: (x in Recent(apps, userId) && y in apps && y.val.userId == userId
      && y !in Recent(apps, userId)) ==> x.val.appliedAt >= y.val.appliedAt
  {
    var mine := ApplicationRepository.ByUser(apps, userId);
    var r := Recent(apps, userId);
    ApplicationRepository.LaterAppliedOrders();
    TopByBest(mine, ApplicationRepository.LaterApplied, RecentLimit);
    forall i, j | 0 <= i < j < |r| ensures r[i].val.appliedAt >= r[j].val.appliedAt {
      assert ApplicationRepository.LaterApplied(r[i], r[j]);
    }
    forall x, y | x in r && y in apps && y.val.userId == userId && y !in r
      ensures x.val.appliedAt >= y.val.appliedAt
    {
      assert y in mine;
      assert ApplicationRepository.LaterApplied(x, y);
    }
  }

  /** `RecentApplicationViewModel`. */
  datatype RecentItem = RecentItem(
    id: int,
    vacancyTitle: string,
    companyName: string,
    appliedDate: int,
    status: string,
    statusCode: string,
    salary: string,
    vacancyId: int)

  /**
   * One recent application: its vacancy's title, company and salary, the
   * menu wording of the status and its lowercase code. A vacancy the
   * application does not find, where the page would throw, is shown with
   * empty texts; a consistent store rules that case out (`VacancyFound`).
   */
  function RecentItemOf(a: Row<Application>, vacancies: seq<Row<Vacancy>>, companies: seq<Row<Company>>): (r: RecentItem)
    ensures r.id == a.id && r.vacancyId == a.val.vacancyId && r.appliedDate == a.val.appliedAt
    ensures r.status == MenuDisplayName(a.val.status) && r.statusCode == StatusCode(a.val.status)
    ensures GetById(vacancies, a.val.vacancyId).Some? ==>
      r.vacancyTitle == GetById(vacancies, a.val.vacancyId).value.title
      && r.salary == GetById(vacancies, a.val.vacancyId).value.salary
      && r.companyName == CompanyRepository.CompanyNameOr(companies, GetById(vacancies, a.val.vacancyId).value.companyId, Unspecified)
  {
    var vacancy := GetById(vacancies, a.val.vacancyId);
    RecentItem(
      a.id,
      if vacancy.Some? then vacancy.value.title else "",
      if vacancy.Some? then CompanyRepository.CompanyNameOr(companies, vacancy.value.companyId, Unspecified) else "",
      a.val.appliedAt,
      MenuDisplayName(a.val.status),
      StatusCode(a.val.status),
      if vacancy.Some? then vacancy.value.salary else "",
      a.val.vacancyId)
  }

  /** The status code on a card is one the applicant-side filter reads back as the same status. */
  lemma RecentCodeParses(a: Row<Application>, vacancies: seq<Row<Vacancy>>, companies: seq<Row<Company>>)
    ensures ParseCode(RecentItemOf(a, vacancies, companies).statusCode) == Some(a.val.status)
  {
    CodeRoundTrip(a.val.status, StatusCode(a.val.status));
  }

  /** In a consistent store every application's vacancy is found, so a card never shows the empty fallback. */
  lemma VacancyFound(s: Snapshot, a: Row<Application>)
    requires Consistent(s) && a in s.applications
    ensures GetById(s.vacancies, a.val.vacancyId).Some?
    ensures RecentItemOf(a, s.vacancies, s.companies).vacancyTitle == GetById(s.vacancies, a.val.vacancyId).value.title
  {
  }

  function RecentItemsOf(apps: seq<Row<Application>>, vacancies: seq<Row<Vacancy>>, companies: seq<Row<Company>>): (r: seq<RecentItem>)
    ensures |r| == |apps|
    ensures forall i :: 0 <= i < |apps| ==> r[i] == RecentItemOf(apps[i], vacancies, companies)
  {
    seq(|apps|, i requires 0 <= i < |apps| => RecentItemOf(apps[i], vacancies, companies))
  }

  /** `LoadRecentApplicationsAsync`: the count of all the user's applications and the cards of the five newest. */
  method LoadRecent(apps: seq<Row<Application>>, vacancies: seq<Row<Vacancy>>, companies: seq<Row<Company>>, userId: string)
    returns (total: nat, rows: seq<RecentItem>)
    ensures total == ApplicationRepository.CountByUser(apps, userId)
    ensures rows == RecentItemsOf(Recent(apps, userId), vacancies, companies)
    ensures |rows| <= RecentLimit && |rows| <= total
  {
    var mine := ApplicationRepository.ByUser(apps, userId);
    total := |mine|;
    var recent := TopBy(mine, ApplicationRepository.LaterApplied, RecentLimit);
    rows := RecentItemsOf(recent, vacancies, companies);
  }

  class EmployeeMenuModel {
    var resumes: seq<ResumeItem>
    var recentApplications: seq<RecentItem>
    var totalApplicationsCount: nat

    constructor ()
      ensures resumes == [] && recentApplications == [] && totalApplicationsCount == 0
    {
      resumes := [];
      recentApplications := [];
      totalApplicationsCount := 0;
    }

    /** `OnGetAsync`: nothing without a signed-in user; otherwise the resumes, the count and the recent applications. */
    method OnGet(db: Db, caller: Option<string>)
      modifies this
      ensures Text.IsNullOrEmpty(caller) ==> unchanged(this)
      ensures !Text.IsNullOrEmpty(caller) ==> resumes == Resumes(db.resumes, caller.value)
      ensures !Text.IsNullOrEmpty(caller) ==>
        totalApplicationsCount == ApplicationRepository.CountByUser(db.applications, caller.value)
      ensures !Text.IsNullOrEmpty(caller) ==>
        recentApplications == RecentItemsOf(Recent(db.applications, caller.value), db.vacancies, db.companies)
    {
      if Text.IsNullOrEmpty(caller) {
        return;
      }
      var userId := caller.value;
      resumes := Resumes(db.resumes, userId);
      var total, rows := LoadRecent(db.applications, db.vacancies, db.companies, userId);
      totalApplicationsCount := total;
      recentApplications := rows;
    }
  }

  /**
   * `OnPostDeleteResumeAsync`: the resume goes, and the applications that
   * used it stay without it, only when it exists and belongs to the caller;
   * otherwise nothing changes. Either way the page redirects to itself.
   */
  method OnPostDeleteResume(db: Db, caller: Option<string>, resumeId: int) returns (resp: Response)
    requires db.Valid()
    modifies db
    ensures db.Valid() && resp == Redirect(NoNotice)
    ensures !old(MyResumesPage.Owns(db.resumes, caller, resumeId)) ==> unchanged(db)
    ensures old(MyResumesPage.Owns(db.resumes, caller, resumeId)) ==>
      MyResumesPage.ResumeRemoved(old(db.State()), db.State(), resumeId)
  {
    var resume := GetById(db.resumes, resumeId);
    if resume.Some? && caller == Some(resume.value.userId) {
      var _ := db.DeleteResume(resumeId);
    }
    resp := Redirect(NoNotice);
  }
}
