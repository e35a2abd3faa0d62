/**
 * The employer's list of the applications to one vacancy: the access gate,
 * the label filter, paging ten at a time, the rows with cover-letter
 * previews, and three counters.
 */
module VacancyApplicationsPage {
  import opened Wrappers
  import opened Seqs
  import opened Tables
  import opened Statuses
  import opened Entities
  import opened Store
  import opened Web
  import opened Paging
  import opened ApplicationLists
  import Text
  import ApplicationRepository

  const PageSize: nat := 10

  /** `ApplicationListItemViewModel`, without the relative-date text. */
  datatype ListItem = ListItem(
    id: int,
    vacancyId: int,
    vacancyTitle: string,
    applicantName: string,
    applicantEmail: string,
    applicantPhone: Option<string>,
    resumeTitle: Option<string>,
    resumeId: Option<int>,
    status: Status,
    statusDisplay: string,
    statusColor: string,
    appliedAt: int,
    coverLetterPreview: Option<string>)

  /**
   * The checks of `OnGetAsync` before loading: a signed-in caller, an
   * existing vacancy, and the access rule. `None` lets the handler go on.
   */
  function Gate(s: Snapshot, caller: Option<string>, isAdmin: bool, vacancyId: int): (r: Option<Response>)
    ensures r == Some(Challenge) <==> Text.IsNullOrEmpty(caller)
    ensures r == Some(NotFound) <==> !Text.IsNullOrEmpty(caller) && GetById(s.vacancies, vacancyId).None?
    ensures r == Some(Forbid) <==>
      !Text.IsNullOrEmpty(caller) && GetById(s.vacancies, vacancyId).Some?
      && !HasVacancyAccess(GetById(s.vacancies, vacancyId).value, s.memberships, caller.value, isAdmin)
    ensures r.None? ==> GetById(s.vacancies, vacancyId).Some?
  {
    if Text.IsNullOrEmpty(caller) then Some(Challenge)
    else match GetById(s.vacancies, vacancyId)
      case None => Some(NotFound)
      case Some(v) => if !HasVacancyAccess(v, s.memberships, caller.value, isAdmin) then Some(Forbid) else None
  }

  /** One row: the application's own fields, the applicant from the identity store, the resume if it still exists, the preview. */
  function ItemOf(app: Row<Application>, vacancyId: int, vacancyTitle: string, users: map<string, Profile>, resumes: seq<Row<Resume>>): (r: ListItem)
    ensures r.id == app.id && r.vacancyId == vacancyId && r.vacancyTitle == vacancyTitle
    ensures r.status == app.val.status && r.statusDisplay == DisplayName(app.val.status) && r.statusColor == ColorClass(app.val.status)
    ensures r.appliedAt == app.val.appliedAt
    ensures r.coverLetterPreview == CoverLetterPreview(app.val.coverLetter)
    ensures r.applicantName == NameOr(FindUser(users, app.val.userId), app.val.userId)
    ensures r.applicantEmail == EmailOrUnknown(FindUser(users, app.val.userId))
    ensures r.applicantPhone == PhoneOf(FindUser(users, app.val.userId))
    ensures r.resumeId.Some? ==> r.resumeId == app.val.resumeId && GetById(resumes, r.resumeId.value).Some?
    ensures app.val.resumeId.Some? && GetById(resumes, app.val.resumeId.value).Some? ==>
      r.resumeId == app.val.resumeId && r.resumeTitle == Some(GetById(resumes, app.val.resumeId.value).value.title)
    ensures r.resumeTitle.Some? <==> r.resumeId.Some?
  {
    var user := FindUser(users, app.val.userId);
    var resume := if app.val.resumeId.Some? then GetById(resumes, app.val.resumeId.value) else None;
    ListItem(
      app.id,
      vacancyId,
      vacancyTitle,
      NameOr(user, app.val.userId),
      EmailOrUnknown(user),
      PhoneOf(user),
      if resume.Some? then Some(resume.value.title) else None,
      if resume.Some? then app.val.resumeId else None,
      app.val.status,
      DisplayName(app.val.status),
      ColorClass(app.val.status),
      app.val.appliedAt,
      if app.val.coverLetter.Some? && |app.val.coverLetter.value| > 100
      then Some(app.val.coverLetter.value[..100] + "...") else app.val.coverLetter)
  }

  function ItemsOf(apps: seq<Row<Application>>, vacancyId: int, vacancyTitle: string, users: map<string, Profile>, resumes: seq<Row<Resume>>): (r: seq<ListItem>)
    ensures |r| == |apps|
    ensures forall i :: 0 <= i < |apps| ==> r[i] == ItemOf(apps[i], vacancyId, vacancyTitle, users, resumes)
  {
    seq(|apps|, i requires 0 <= i < |apps| => ItemOf(apps[i], vacancyId, vacancyTitle, users, resumes))
  }

  /** The `foreach` of `LoadApplicationsAsync`: one row per application of the page, appended in order. */
  method AppendItems(shown: seq<ListItem>, window: seq<Row<Application>>, vacancyId: int, vacancyTitle: string,
                     users: map<string, Profile>, resumes: seq<Row<Resume>>)
    returns (r: seq<ListItem>)
    ensures r == shown + ItemsOf(window, vacancyId, vacancyTitle, users, resumes)
  {
    r := shown;
    var k := 0;
    while k < |window|
      invariant 0 <= k <= |window|
      invariant r == shown + ItemsOf(window[..k], vacancyId, vacancyTitle, users, resumes)
    {
      assert window[..k + 1] == window[..k] + [window[k]];
      r := r + [ItemOf(window[k], vacancyId, vacancyTitle, users, resumes)];
      k := k + 1;
    }
    assert window[..k] == window;
  }

  /** The applications listed before paging: the vacancy's, newest first, narrowed by the label. */
  function Listed(apps: seq<Row<Application>>, vacancyId: int, status: Option<string>): (r: seq<Row<Application>>)
    ensures forall x :: x in r <==>
      x in apps && x.val.vacancyId == vacancyId
      && (LabelFilter(status).None? || x.val.status == LabelFilter(status).value)
    ensures Sorted(r, ApplicationRepository.LaterApplied)
  {
    Narrow(ApplicationRepository.ByVacancy(apps, vacancyId), LabelFilter(status))
  }

  /** No label selects the withdrawn applications alone: a filtered list never holds one. */
  lemma WithdrawnNeverSelected(apps: seq<Row<Application>>, vacancyId: int, caption: string)
    requires caption != ""
    requires LabelFilter(Some(caption)).Some?
    ensures forall x :: x in Listed(apps, vacancyId, Some(caption)) ==> x.val.status != Withdrawn
  {
  }

  /** The paging of `LoadApplicationsAsync`. */
  method LoadPage(listed: seq<Row<Application>>, vacancyId: int, vacancyTitle: string, users: map<string, Profile>,
                  resumes: seq<Row<Resume>>, page: int, shown: seq<ListItem>)
    returns (count: nat, pages: nat, current: int, rows: seq<ListItem>)
    ensures count == |listed| && pages == TotalPages(count, PageSize)
    ensures current == ClampPage(page, pages)
    ensures rows == shown + ItemsOf(PageWindow(listed, current, PageSize), vacancyId, vacancyTitle, users, resumes)
  {
    count := |listed|;
    pages := TotalPages(count, PageSize);
    current := page;
    if current < 1 {
      current := 1;
    }
    if current > pages && pages > 0 {
      current := pages;
    }
    rows := AppendItems(shown, PageWindow(listed, current, PageSize), vacancyId, vacancyTitle, users, resumes);
  }

  /** `vacancy.Company?.Name ?? "Не указано"`. */
  function CompanyNameOf(companies: seq<Row<Company>>, v: Vacancy): (r: string)
    ensures GetById(companies, v.companyId).None? ==> r == "Не указано"
    ensures GetById(companies, v.companyId).Some? ==> r == GetById(companies, v.companyId).value.name
  {
    match GetById(companies, v.companyId)
    case Some(c) => c.name
    case None => "Не указано"
  }

  class VacancyApplicationsModel {
    const vacancyId: int
    const status: Option<string>
    var page: int
    var totalPages: nat
    var vacancyTitle: string
    var companyName: string
    var totalCount: nat
    var pendingCount: nat
    var viewedCount: nat
    var acceptedCount: nat
    var applications: seq<ListItem>

    /** A request with its route `VacancyId` and its `Status` and `Page` query values. */
    constructor (vacancyId: int, status: Option<string>, page: int)
      ensures this.vacancyId == vacancyId && this.status == status && this.page == page
      ensures totalPages == 0 && vacancyTitle == "" && companyName == "" && totalCount == 0
      ensures pendingCount == 0 && viewedCount == 0 && acceptedCount == 0 && applications == []
    {
      this.vacancyId := vacancyId;
      this.status := status;
      this.page := page;
      totalPages := 0;
      vacancyTitle := "";
      companyName := "";
      totalCount := 0;
      pendingCount := 0;
      viewedCount := 0;
      acceptedCount := 0;
      applications := [];
    }

    /**
     * `OnGetAsync`: the gate's answer with nothing loaded; otherwise the
     * vacancy's title and company, the page of rows and the counters over
     * the unfiltered list. The route's vacancy id is the handler's argument.
     */
    method OnGet(db: Db, caller: Option<string>, isAdmin: bool, users: map<string, Profile>)
      returns (resp: Response)
      modifies this
      ensures Gate(db.State(), caller, isAdmin, vacancyId).Some? ==>
        resp == Gate(db.State(), caller, isAdmin, vacancyId).value && unchanged(this)
      ensures Gate(db.State(), caller, isAdmin, vacancyId).None? ==> resp == ShowPage
      ensures Gate(db.State(), caller, isAdmin, vacancyId).None? ==>
        vacancyTitle == GetById(db.vacancies, vacancyId).value.title
      ensures Gate(db.State(), caller, isAdmin, vacancyId).None? ==>
        companyName == CompanyNameOf(db.companies, GetById(db.vacancies, vacancyId).value)
      ensures Gate(db.State(), caller, isAdmin, vacancyId).None? ==>
        totalCount == |Listed(db.applications, vacancyId, status)|
      ensures Gate(db.State(), caller, isAdmin, vacancyId).None? ==>
        totalPages == TotalPages(totalCount, PageSize) && page == ClampPage(old(page), totalPages)
      ensures Gate(db.State(), caller, isAdmin, vacancyId).None? ==>
        applications == old(applications)
          + ItemsOf(PageWindow(Listed(db.applications, vacancyId, status), page, PageSize), vacancyId, vacancyTitle, users, db.resumes)
      ensures Gate(db.State(), caller, isAdmin, vacancyId).None? ==>
        pendingCount == StatusCount(ApplicationRepository.ByVacancy(db.applications, vacancyId), Pending)
        && viewedCount == StatusCount(ApplicationRepository.ByVacancy(db.applications, vacancyId), Viewed)
        && acceptedCount == StatusCount(ApplicationRepository.ByVacancy(db.applications, vacancyId), Accepted)
    {
      var gate := Gate(db.State(), caller, isAdmin, vacancyId);
      if gate.Some? {
        return gate.value;
      }
      var v := GetById(db.vacancies, vacancyId).value;
      vacancyTitle := v.title;
      companyName := CompanyNameOf(db.companies, v);
      LoadApplications(Listed(db.applications, vacancyId, status), users, db.resumes);
      LoadStatistics(ApplicationRepository.ByVacancy(db.applications, vacancyId));
      resp := ShowPage;
    }

    /** `LoadApplicationsAsync` over the listed applications: count, clamp, and append the rows of the current page. */
    method LoadApplications(listed: seq<Row<Application>>, users: map<string, Profile>, resumes: seq<Row<Resume>>)
      modifies this
      ensures totalCount == |listed|
      ensures totalPages == TotalPages(totalCount, PageSize)
      ensures page == ClampPage(old(page), totalPages)
      ensures applications == old(applications) + ItemsOf(PageWindow(listed, page, PageSize), vacancyId, vacancyTitle, users, resumes)
      ensures vacancyTitle == old(vacancyTitle) && companyName == old(companyName)
      ensures pendingCount == old(pendingCount) && viewedCount == old(viewedCount) && acceptedCount == old(acceptedCount)
    {
      var count, pages, current, rows := LoadPage(listed, vacancyId, vacancyTitle, users, resumes, page, applications);
      totalCount := count;
      totalPages := pages;
      page := current;
      applications := rows;
    }

    /** `LoadStatisticsAsync`: three counters over `all`, the vacancy's whole listing. */
    method LoadStatistics(all: seq<Row<Application>>)
      modifies this
      ensures pendingCount == StatusCount(all, Pending)
      ensures viewedCount == StatusCount(all, Viewed)
      ensures acceptedCount == StatusCount(all, Accepted)
      ensures page == old(page) && totalPages == old(totalPages) && totalCount == old(totalCount)
      ensures vacancyTitle == old(vacancyTitle) && companyName == old(companyName) && applications == old(applications)
    {
      pendingCount := StatusCount(all, Pending);
      viewedCount := StatusCount(all, Viewed);
      acceptedCount := StatusCount(all, Accepted);
    }
  }
}
