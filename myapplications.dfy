/**
 * The applicant's "my applications" page: the own listing narrowed by a
 * status code, paged ten at a time, the per-status counters, and withdrawal.
 */
module MyApplicationsPage {
  import opened Wrappers
  import opened Seqs
  import opened Tables
  import opened Statuses
  import opened Entities
  import opened Store
  import opened Web
  import opened Paging
  import opened ApplicationLists
  import Text
  import ApplicationRepository

  const PageSize: nat := 10
  const WithdrawRefused := "Нельзя отменить этот отклик"
  const WithdrawDone := "Отклик успешно отменен"
  const WithdrawComment := "Отменено соискателем"

  /** One row of the page (`MyApplicationViewModel`), without the relative-date texts. */
  datatype Item = Item(
    id: int,
    vacancyId: int,
    vacancyTitle: string,
    companyName: string,
    location: string,
    salary: string,
    status: Status,
    statusDisplay: string,
    statusColor: string,
    appliedAt: int,
    statusUpdatedAt: Option<int>,
    coverLetter: Option<string>,
    employerComment: Option<string>,
    canWithdraw: bool)

  /**
   * The row of one application: its own fields, the vacancy's title, company
   * name, location and salary, or the fallback texts when the vacancy is gone.
   */
  function ItemOf(app: Row<Application>, vacancies: seq<Row<Vacancy>>, companies: seq<Row<Company>>): (r: Item)
    ensures r.id == app.id && r.vacancyId == app.val.vacancyId && r.status == app.val.status
    ensures r.appliedAt == app.val.appliedAt && r.statusUpdatedAt == app.val.statusUpdatedAt
    ensures r.coverLetter == app.val.coverLetter && r.employerComment == app.val.employerComment
    ensures r.statusDisplay == DisplayName(app.val.status) && r.statusColor == ColorClass(app.val.status)
    ensures r.canWithdraw <==> CanWithdraw(app.val.status)
    ensures GetById(vacancies, app.val.vacancyId).None? ==>
      r.vacancyTitle == "Вакансия удалена" && r.companyName == "Не указано"
      && r.location == "Не указано" && r.salary == "Не указана"
    ensures GetById(vacancies, app.val.vacancyId).Some? ==>
      var v := GetById(vacancies, app.val.vacancyId).value;
      r.vacancyTitle == v.title && r.location == v.location && r.salary == v.salary
      && r.companyName == GetById(companies, v.companyId).GetOr(Company("Не указано", None, None, None, None, false)).name
  {
    var vacancy := GetById(vacancies, app.val.vacancyId);
    var company := if vacancy.Some? then GetById(companies, vacancy.value.companyId) else None;
    Item(
      app.id,
      app.val.vacancyId,
      if vacancy.Some? then vacancy.value.title else "Вакансия удалена",
      if company.Some? then company.value.name else "Не указано",
      if vacancy.Some? then vacancy.value.location else "Не указано",
      if vacancy.Some? then vacancy.value.salary else "Не указана",
      app.val.status,
      DisplayName(app.val.status),
      ColorClass(app.val.status),
      app.val.appliedAt,
      app.val.statusUpdatedAt,
      app.val.coverLetter,
      app.val.employerComment,
      app.val.status == Pending || app.val.status == Viewed)
  }

  /** The rows of a page of applications, one per application, in order. */
  function ItemsOf(apps: seq<Row<Application>>, vacancies: seq<Row<Vacancy>>, companies: seq<Row<Company>>): (r: seq<Item>)
    ensures |r| == |apps|
    ensures forall i :: 0 <= i < |apps| ==> r[i] == ItemOf(apps[i], vacancies, companies)
  {
    seq(|apps|, i requires 0 <= i < |apps| => ItemOf(apps[i], vacancies, companies))
  }

  /** The `foreach` of `LoadApplicationsAsync`: one row per application of the page, appended in order. */
  method AppendItems(shown: seq<Item>, window: seq<Row<Application>>, vacancies: seq<Row<Vacancy>>, companies: seq<Row<Company>>)
    returns (r: seq<Item>)
    ensures r == shown + ItemsOf(window, vacancies, companies)
  {
    r := shown;
    var k := 0;
    while k < |window|
      invariant 0 <= k <= |window|
      invariant r == shown + ItemsOf(window[..k], vacancies, companies)
    {
      assert window[..k + 1] == window[..k] + [window[k]];
      r := r + [ItemOf(window[k], vacancies, companies)];
      k := k + 1;
    }
    assert window[..k] == window;
  }

  /**
   * The paging of `LoadApplicationsAsync`: the count, the page count, the
   * clamped page and the shown rows with that page's rows appended.
   */
  method LoadPage(listed: seq<Row<Application>>, vacancies: seq<Row<Vacancy>>, companies: seq<Row<Company>>, page: int, shown: seq<Item>)
    returns (count: nat, pages: nat, current: int, rows: seq<Item>)
    ensures count == |listed| && pages == TotalPages(count, PageSize)
    ensures current == ClampPage(page, pages)
    ensures rows == shown + ItemsOf(PageWindow(listed, current, PageSize), vacancies, companies)
  {
    count := |listed|;
    pages := TotalPages(count, PageSize);
    current := page;
    if current < 1 {
      current := 1;
    }
    if current > pages && pages > 0 {
      current := pages;
    }
    rows := AppendItems(shown, PageWindow(listed, current, PageSize), vacancies, companies);
  }

  /** The applications the page lists before paging: the user's own, newest first, narrowed by the status code. */
  function Listed(apps: seq<Row<Application>>, userId: string, status: Option<string>): (r: seq<Row<Application>>)
    ensures forall x :: x in r <==>
      x in apps && x.val.userId == userId
      && (CodeFilter(status).None? || x.val.status == CodeFilter(status).value)
    ensures Sorted(r, ApplicationRepository.LaterApplied)
  {
    Narrow(ApplicationRepository.ByUser(apps, userId), CodeFilter(status))
  }

  /** Every row shown belongs to the user and, when a known code was given, has that status. */
  lemma ShownAreOwn(apps: seq<Row<Application>>, vacancies: seq<Row<Vacancy>>, companies: seq<Row<Company>>,
                    userId: string, status: Option<string>, page: int, it: Item)
    requires page >= 1
    requires it in ItemsOf(PageWindow(Listed(apps, userId, status), page, PageSize), vacancies, companies)
    ensures exists x :: x in apps && x.id == it.id && x.val.userId == userId && x.val.status == it.status
    ensures CodeFilter(status).Some? ==> it.status == CodeFilter(status).value
  {
    var listed := Listed(apps, userId, status);
    var window := PageWindow(listed, page, PageSize);
    WindowShape(listed, page, PageSize);
    var items := ItemsOf(window, vacancies, companies);
    var k :| 0 <= k < |items| && items[k] == it;
    var x := window[k];
    assert x == listed[(page - 1) * PageSize + k];
    assert x in listed;
    assert it == ItemOf(x, vacancies, companies);
  }

  /** `Challenge()`, `NotFound()` or the redirect with its notice, as the withdraw handler decides it. */
  function WithdrawResponse(apps: seq<Row<Application>>, caller: Option<string>, applicationId: int): (r: Response)
    ensures r == Challenge <==> Text.IsNullOrEmpty(caller)
    ensures r == NotFound <==>
      !Text.IsNullOrEmpty(caller)
      && (GetById(apps, applicationId).None? || GetById(apps, applicationId).value.userId != caller.value)
    ensures r == Redirect(Success(WithdrawDone)) <==>
      !Text.IsNullOrEmpty(caller)
      && GetById(apps, applicationId).Some? && GetById(apps, applicationId).value.userId == caller.value
      && CanWithdraw(GetById(apps, applicationId).value.status)
    ensures r in {Challenge, NotFound, Redirect(Failure(WithdrawRefused)), Redirect(Success(WithdrawDone))}
  {
    if Text.IsNullOrEmpty(caller) then Challenge
    else match GetById(apps, applicationId)
      case None => NotFound
      case Some(a) =>
        if a.userId != caller.value then NotFound
        else if a.status != Pending && a.status != Viewed then Redirect(Failure(WithdrawRefused))
        else Redirect(Success(WithdrawDone))
  }

  /** The withdraw button is offered exactly on the rows whose withdrawal the handler accepts. */
  lemma WithdrawMatchesButton(apps: seq<Row<Application>>, vacancies: seq<Row<Vacancy>>, companies: seq<Row<Company>>,
                              userId: string, x: Row<Application>)
    requires Increasing(apps) && userId != ""
    requires x in ApplicationRepository.ByUser(apps, userId)
    ensures WithdrawResponse(apps, Some(userId), x.id) == Redirect(Success(WithdrawDone))
      <==> ItemOf(x, vacancies, companies).canWithdraw
  {
    ApplicationRepository.IncreasingStored(apps, x);
  }

  /** Once withdrawn, a second withdrawal of the same application is refused. */
  lemma WithdrawOnce(apps: seq<Row<Application>>, next: int, userId: string, id: int, now: int)
    requires Keyed(apps, next) && userId != ""
    requires WithdrawResponse(apps, Some(userId), id) == Redirect(Success(WithdrawDone))
    ensures var after := ApplicationRepository.StatusUpdated(apps, id, Withdrawn, Some(WithdrawComment), now);
      WithdrawResponse(after, Some(userId), id) == Redirect(Failure(WithdrawRefused))
  {
    ApplicationRepository.StatusUpdatedLookup(apps, next, id, Withdrawn, Some(WithdrawComment), now, id);
  }

  /** The page model: its query parameters, the numbers it shows and the rows of the current page. */
  class MyApplicationsModel {
    const status: Option<string>
    var page: int
    var totalPages: nat
    var totalCount: nat
    var pendingCount: nat
    var viewedCount: nat
    var invitedCount: nat
    var acceptedCount: nat
    var rejectedCount: nat
    var applications: seq<Item>

    /** A request with its `Status` and `Page` query values (`Page` defaults to 1). */
    constructor (status: Option<string>, page: int)
      ensures this.status == status && this.page == page
      ensures totalPages == 0 && totalCount == 0 && applications == []
      ensures pendingCount == 0 && viewedCount == 0 && invitedCount == 0 && acceptedCount == 0 && rejectedCount == 0
    {
      this.status := status;
      this.page := page;
      totalPages := 0;
      totalCount := 0;
      pendingCount := 0;
      viewedCount := 0;
      invitedCount := 0;
      acceptedCount := 0;
      rejectedCount := 0;
      applications := [];
    }

    /**
     * `OnGetAsync`: without a user, `Challenge()` and nothing loaded;
     * otherwise the listing is counted, the page clamped, its window mapped
     * to rows and appended, and the counters taken over the unfiltered list.
     */
    method OnGet(db: Db, caller: Option<string>) returns (resp: Response)
      modifies this
      ensures Text.IsNullOrEmpty(caller) ==> resp == Challenge && unchanged(this)
      ensures !Text.IsNullOrEmpty(caller) ==>
        var listed := Listed(db.applications, caller.value, status);
        var all := ApplicationRepository.ByUser(db.applications, caller.value);
        && resp == ShowPage
        && totalCount == |listed|
        && totalPages == TotalPages(totalCount, PageSize)
        && page == ClampPage(old(page), totalPages)
        && applications == old(applications) + ItemsOf(PageWindow(listed, page, PageSize), db.vacancies, db.companies)
        && pendingCount == StatusCount(all, Pending) && viewedCount == StatusCount(all, Viewed)
        && invitedCount == StatusCount(all, Invited) && acceptedCount == StatusCount(all, Accepted)
        && rejectedCount == StatusCount(all, Rejected)
    {
      if Text.IsNullOrEmpty(caller) {
        return Challenge;
      }
      LoadApplications(Listed(db.applications, caller.value, status), db.vacancies, db.companies);
      LoadStatistics(ApplicationRepository.ByUser(db.applications, caller.value));
      resp := ShowPage;
    }

    /** `LoadApplicationsAsync`: count, clamp, and append the rows of the current page of `listed`. */
    method LoadApplications(listed: seq<Row<Application>>, vacancies: seq<Row<Vacancy>>, companies: seq<Row<Company>>)
      modifies this
      ensures totalCount == |listed|
      ensures totalPages == TotalPages(totalCount, PageSize)
      ensures page == ClampPage(old(page), totalPages)
      ensures applications == old(applications) + ItemsOf(PageWindow(listed, page, PageSize), vacancies, companies)
      ensures pendingCount == old(pendingCount) && viewedCount == old(viewedCount) && invitedCount == old(invitedCount)
      ensures acceptedCount == old(acceptedCount) && rejectedCount == old(rejectedCount)
    {
      var count, pages, current, rows := LoadPage(listed, vacancies, companies, page, applications);
      totalCount := count;
      totalPages := pages;
      page := current;
      applications := rows;
    }

    /** `LoadStatisticsAsync`: five counters over `all`, the user's whole listing. */
    method LoadStatistics(all: seq<Row<Application>>)
      modifies this
      ensures pendingCount == StatusCount(all, Pending) && viewedCount == StatusCount(all, Viewed)
      ensures invitedCount == StatusCount(all, Invited) && acceptedCount == StatusCount(all, Accepted)
      ensures rejectedCount == StatusCount(all, Rejected)
      ensures page == old(page) && totalPages == old(totalPages)
      ensures totalCount == old(totalCount) && applications == old(applications)
    {
      pendingCount := StatusCount(all, Pending);
      viewedCount := StatusCount(all, Viewed);
      invitedCount := StatusCount(all, Invited);
      acceptedCount := StatusCount(all, Accepted);
      rejectedCount := StatusCount(all, Rejected);
    }

    /**
     * `OnPostWithdrawAsync`: only the owner may withdraw, and only a
     * `Pending` or `Viewed` application; then it becomes `Withdrawn` with the
     * applicant's comment. Every refusal leaves the store as it was.
     */
    method OnPostWithdraw(db: Db, caller: Option<string>, applicationId: int, now: int) returns (resp: Response)
      requires db.Valid()
      modifies db
      ensures db.Valid()
      ensures resp == WithdrawResponse(old(db.applications), caller, applicationId)
      ensures resp != Redirect(Success(WithdrawDone)) ==> unchanged(db)
      ensures resp == Redirect(Success(WithdrawDone)) ==>
        db.State() == old(db.State()).(applications :=
          ApplicationRepository.StatusUpdated(old(db.applications), applicationId, Withdrawn, Some(WithdrawComment), now))
    {
      resp := WithdrawResponse(db.applications, caller, applicationId);
      if resp != Redirect(Success(WithdrawDone)) {
        return;
      }
      var ok := ApplicationRepository.UpdateStatus(db, applicationId, Withdrawn, Some(WithdrawComment), now);
    }
  }
}
