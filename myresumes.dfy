/**
 * The applicant's own resumes: three counters, paging nine at a time, and
 * the delete button, which leaves the applications sent with a resume in
 * place without it.
 */
module MyResumesPage {
  import opened Wrappers
  import opened Tables
  import opened Entities
  import opened Store
  import opened Web
  import opened Paging
  import Text
  import ResumeRepository
  import ApplicationRepository

  const PageSize: nat := 9
  const ResumeDeleted := "Резюме успешно удалено"

  /** `MyResumeViewModel`; the creation time is kept as stored, not as the relative text the page prints. */
  datatype ResumeItem = ResumeItem(
    id: int,
    title: string,
    fullName: string,
    desiredSalary: Option<string>,
    experienceYears: Option<int>,
    location: Option<string>,
    readyToRelocate: bool,
    readyForBusinessTrips: bool,
    isActive: bool,
    isPublished: bool,
    createdAt: int)

  function ItemOf(r: Row<Resume>): (item: ResumeItem)
    ensures item.id == r.id && item.title == r.val.title && item.fullName == r.val.fullName
    ensures item.desiredSalary == r.val.desiredSalary && item.experienceYears == r.val.experienceYears
    ensures item.location == r.val.location && item.readyToRelocate == r.val.readyToRelocate
    ensures item.readyForBusinessTrips == r.val.readyForBusinessTrips
    ensures item.isActive == r.val.isActive && item.isPublished == r.val.isPublished
    ensures item.createdAt == r.val.createdAt
  {
    ResumeItem(r.id, r.val.title, r.val.fullName, r.val.desiredSalary, r.val.experienceYears, r.val.location,
               r.val.readyToRelocate, r.val.readyForBusinessTrips, r.val.isActive, r.val.isPublished, r.val.createdAt)
  }

  function ItemsOf(rs: seq<Row<Resume>>): (r: seq<ResumeItem>)
    ensures |r| == |rs|
    ensures forall i :: 0 <= i < |rs| ==> r[i] == ItemOf(rs[i])
  {
    seq(|rs|, i requires 0 <= i < |rs| => ItemOf(rs[i]))
  }

  function VisibleBit(r: Row<Resume>): nat
  {
    if ResumeRepository.Visible(r.val) then 1 else 0
  }

  /** `Count(r => r.IsActive && r.IsPublished)`. */
  function VisibleCount(rs: seq<Row<Resume>>): (n: nat)
    ensures n <= |rs|
  {
    if rs == [] then 0 else VisibleCount(rs[..|rs| - 1]) + VisibleBit(rs[|rs| - 1])
  }

  /**
   * `ActiveCount` counts the resumes the public search would show: with no
   * term and no category the search finds as many of the user's resumes.
   */
  lemma {:induction false} VisibleCountSearch(rs: seq<Row<Resume>>)
    ensures VisibleCount(rs) == |Where(rs, ResumeRepository.SearchFilter(None, None))|
  {
    if rs != [] {
      VisibleCountSearch(rs[..|rs| - 1]);
    }
  }

  /** The paging of `LoadResumesAsync`. */
  method LoadPage(mine: seq<Row<Resume>>, page: int) returns (pages: nat, current: int, rows: seq<ResumeItem>)
    ensures pages == TotalPages(|mine|, PageSize)
    ensures current == ClampPage(page, pages)
    ensures rows == ItemsOf(PageWindow(mine, current, PageSize))
    ensures |rows| <= PageSize
  {
    pages := TotalPages(|mine|, PageSize);
    current := page;
    if current < 1 {
      current := 1;
    }
    if current > pages && pages > 0 {
      current := pages;
    }
    rows := ItemsOf(PageWindow(mine, current, PageSize));
  }

  /** The computations of `LoadResumesAsync`, from the user's resumes and the asked page. */
  method Load(mine: seq<Row<Resume>>, apps: seq<Row<Application>>, userId: string, page: int)
    returns (total: nat, active: nat, applied: nat, pages: nat, current: int, rows: seq<ResumeItem>)
    ensures total == |mine| && active == VisibleCount(mine) && active <= total
    ensures applied == ApplicationRepository.CountByUser(apps, userId)
    ensures pages == TotalPages(total, PageSize) && current == ClampPage(page, pages)
    ensures rows == ItemsOf(PageWindow(mine, current, PageSize))
  {
    pages, current, rows := LoadPage(mine, page);
    total := |mine|;
    active := VisibleCount(mine);
    applied := ApplicationRepository.CountByUser(apps, userId);
  }

  /** Deleting a resume keeps every application: each user's application count is what it was. */
  lemma DetachKeepsCount(apps: seq<Row<Application>>, resumeId: int, userId: string)
    ensures CountRows(DetachResume(apps, resumeId), ApplicationRepository.ByUserFilter(userId))
      == CountRows(apps, ApplicationRepository.ByUserFilter(userId))
  {
    var p := ApplicationRepository.ByUserFilter(userId);
    var d := DetachResume(apps, resumeId);
    assert forall k :: 0 <= k < |apps| ==> d[k].val.userId == apps[k].val.userId;
    CountRowsAlike(d, apps, p);
  }

  /** The delete guard: the resume exists and its owner is the caller. */
  predicate Owns(rs: seq<Row<Resume>>, caller: Option<string>, id: int)
  {
    GetById(rs, id).Some? && caller == Some(GetById(rs, id).value.userId)
  }

  /** The store after resume `id` is deleted: its row gone, and the applications that used it without a resume. */
  ghost predicate ResumeRemoved(s0: Snapshot, s1: Snapshot, id: int)
  {
    exists i :: 0 <= i < |s0.resumes| && s0.resumes[i].id == id
      && s1 == s0.(resumes := RemoveAt(s0.resumes, i), applications := DetachResume(s0.applications, id))
  }

  /**
   * After an owner's delete the resume is gone and no application names it,
   * while every application is still there under its key.
   */
  lemma DeletedResumeGone(rs: seq<Row<Resume>>, apps: seq<Row<Application>>, next: int, i: nat)
    requires Keyed(rs, next) && i < |rs|
    ensures rs[i].id !in Ids(RemoveAt(rs, i))
    ensures forall a :: a in DetachResume(apps, rs[i].id) ==> a.val.resumeId != Some(rs[i].id)
    ensures Ids(DetachResume(apps, rs[i].id)) == Ids(apps)
  {
    var id := rs[i].id;
    var detached := DetachResume(apps, id);
    RemoveKeyed(rs, next, i);
    forall a | a in detached ensures a.val.resumeId != Some(id) {
      var k :| 0 <= k < |detached| && detached[k] == a;
    }
    forall x ensures x in Ids(detached) <==> x in Ids(apps) {
      if x in Ids(detached) {
        var a :| a in detached && a.id == x;
        var k :| 0 <= k < |detached| && detached[k] == a;
        assert apps[k] in apps;
      }
      if x in Ids(apps) {
        var a :| a in apps && a.id == x;
        var k :| 0 <= k < |apps| && apps[k] == a;
        assert detached[k] in detached;
      }
    }
  }

  /** `ApplicationsCount` on this page is the same before and after a resume is deleted. */
  lemma DeleteKeepsApplicationsCount(apps: seq<Row<Application>>, resumeId: int, userId: string)
    ensures ApplicationRepository.CountByUser(DetachResume(apps, resumeId), userId)
      == ApplicationRepository.CountByUser(apps, userId)
  {
    DetachKeepsCount(apps, resumeId, userId);
  }

  class MyResumesModel {
    var page: int
    var totalPages: nat
    var totalCount: nat
    var activeCount: nat
    var applicationsCount: nat
    var resumes: seq<ResumeItem>

    /** A request with its `Page` query value. */
    constructor (page: int)
      ensures this.page == page && totalPages == 0 && totalCount == 0 && activeCount == 0
      ensures applicationsCount == 0 && resumes == []
    {
      this.page := page;
      totalPages := 0;
      totalCount := 0;
      activeCount := 0;
      applicationsCount := 0;
      resumes := [];
    }

    /** `OnGetAsync`: nothing is loaded without a signed-in user; otherwise `LoadResumesAsync`. */
    method OnGet(db: Db, caller: Option<string>)
      modifies this
      ensures Text.IsNullOrEmpty(caller) ==> unchanged(this)
      ensures !Text.IsNullOrEmpty(caller) ==>
        totalCount == |ResumeRepository.ByUser(db.resumes, caller.value)|
        && activeCount == VisibleCount(ResumeRepository.ByUser(db.resumes, caller.value))
      ensures !Text.IsNullOrEmpty(caller) ==>
        applicationsCount == ApplicationRepository.CountByUser(db.applications, caller.value)
      ensures !Text.IsNullOrEmpty(caller) ==>
        totalPages == TotalPages(totalCount, PageSize) && page == ClampPage(old(page), totalPages)
      ensures !Text.IsNullOrEmpty(caller) ==>
        resumes == ItemsOf(PageWindow(ResumeRepository.ByUser(db.resumes, caller.value), page, PageSize))
    {
      if Text.IsNullOrEmpty(caller) {
        return;
      }
      LoadResumes(ResumeRepository.ByUser(db.resumes, caller.value), db.applications, caller.value);
    }

    /** `LoadResumesAsync` over the user's resumes, newest first. */
    method LoadResumes(mine: seq<Row<Resume>>, apps: seq<Row<Application>>, userId: string)
      modifies this
      ensures totalCount == |mine|
      ensures activeCount == VisibleCount(mine)
      ensures activeCount <= totalCount
      ensures applicationsCount == ApplicationRepository.CountByUser(apps, userId)
      ensures totalPages == TotalPages(totalCount, PageSize)
      ensures page == ClampPage(old(page), totalPages)
      ensures resumes == ItemsOf(PageWindow(mine, page, PageSize))
    {
      var total, active, applied, pages, current, rows := Load(mine, apps, userId, page);
      totalCount, activeCount, applicationsCount := total, active, applied;
      totalPages, page, resumes := pages, current, rows;
    }
  }

  /**
   * `OnPostDeleteAsync`: `NotFound` and no change unless the resume exists
   * and belongs to the caller; otherwise it goes, and the applications that
   * used it stay without a resume.
   */
  method OnPostDelete(db: Db, caller: Option<string>, id: int) returns (resp: Response)
    requires db.Valid()
    modifies db
    ensures db.Valid()
    ensures !old(Owns(db.resumes, caller, id)) ==> resp == NotFound && unchanged(db)
    ensures old(Owns(db.resumes, caller, id)) ==>
      resp == Redirect(Success(ResumeDeleted)) && ResumeRemoved(old(db.State()), db.State(), id)
  {
    var resume := GetById(db.resumes, id);
    if resume.None? || caller != Some(resume.value.userId) {
      return NotFound;
    }
    var _ := db.DeleteResume(id);
    resp := Redirect(Success(ResumeDeleted));
  }
}
