/**
 * The employer's view of one application: the access gate, the automatic
 * `Pending` to `Viewed` step on the first authorised view, and the status
 * update form.
 */
module ApplicationDetailPage {
  import opened Wrappers
  import opened Tables
  import opened Statuses
  import opened Entities
  import opened Store
  import opened Web
  import opened ApplicationLists
  import Text
  import ApplicationRepository

  /** `ApplicationDetailViewModel`, without the relative-date text and the loaded resume object. */
  datatype DetailView = DetailView(
    id: int,
    vacancyId: int,
    vacancyTitle: string,
    companyName: string,
    userId: string,
    applicantName: string,
    applicantEmail: string,
    applicantPhone: Option<string>,
    resumeId: Option<int>,
    resumeTitle: Option<string>,
    status: Status,
    statusDisplay: string,
    statusColor: string,
    coverLetter: Option<string>,
    appliedAt: int,
    statusUpdatedAt: Option<int>,
    employerComment: Option<string>)

  /**
   * The checks both handlers make before anything else: a signed-in caller,
   * an existing application, an existing vacancy, and the access rule.
   * `None` lets the handler go on.
   */
  function Gate(s: Snapshot, caller: Option<string>, isAdmin: bool, id: int): (r: Option<Response>)
    ensures r == Some(Challenge) <==> Text.IsNullOrEmpty(caller)
    ensures r == Some(NotFound) <==>
      !Text.IsNullOrEmpty(caller)
      && (GetById(s.applications, id).None? || GetById(s.vacancies, GetById(s.applications, id).value.vacancyId).None?)
    ensures r == Some(Forbid) <==>
      !Text.IsNullOrEmpty(caller) && GetById(s.applications, id).Some?
      && GetById(s.vacancies, GetById(s.applications, id).value.vacancyId).Some?
      && !HasVacancyAccess(GetById(s.vacancies, GetById(s.applications, id).value.vacancyId).value, s.memberships, caller.value, isAdmin)
    ensures r.None? || r == Some(Challenge) || r == Some(NotFound) || r == Some(Forbid)
    ensures r.None? ==> GetById(s.applications, id).Some?
  {
    if Text.IsNullOrEmpty(caller) then Some(Challenge)
    else match GetById(s.applications, id)
      case None => Some(NotFound)
      case Some(a) =>
        match GetById(s.vacancies, a.vacancyId)
        case None => Some(NotFound)
        case Some(v) =>
          if !HasVacancyAccess(v, s.memberships, caller.value, isAdmin) then Some(Forbid) else None
  }

  /** An admitted caller is one the vacancy grants access to; a caller from outside meets `Forbid`. */
  lemma GateAdmits(s: Snapshot, caller: string, isAdmin: bool, id: int, a: Application, v: Vacancy)
    requires caller != ""
    requires GetById(s.applications, id) == Some(a) && GetById(s.vacancies, a.vacancyId) == Some(v)
    ensures Gate(s, Some(caller), isAdmin, id).None? <==>
      v.createdById == Some(caller) || IsMember(s.memberships, caller, v.companyId) || isAdmin
  {
  }

  /**
   * The table after an authorised view: a `Pending` application becomes
   * `Viewed` (no comment, so the employer's comment is kept); any other
   * status is left alone.
   */
  function AfterView(apps: seq<Row<Application>>, id: int, now: int): (r: seq<Row<Application>>)
    ensures GetById(apps, id).None? || GetById(apps, id).value.status != Pending ==> r == apps
    ensures GetById(apps, id).Some? && GetById(apps, id).value.status == Pending ==>
      r == ApplicationRepository.StatusUpdated(apps, id, Viewed, None, now)
  {
    match GetById(apps, id)
    case Some(a) =>
      if a.status == Pending then ApplicationRepository.StatusUpdated(apps, id, Viewed, None, now) else apps
    case None => apps
  }

  /** Viewing a second time changes nothing that the first view did not. */
  lemma ViewTwice(apps: seq<Row<Application>>, next: int, id: int, t1: int, t2: int)
    requires Keyed(apps, next)
    ensures AfterView(AfterView(apps, id, t1), id, t2) == AfterView(apps, id, t1)
  {
    ApplicationRepository.StatusUpdatedLookup(apps, next, id, Viewed, None, t1, id);
  }

  /** After a view the application is no longer `Pending`, and its comment is the one it had. */
  lemma ViewKeepsComment(apps: seq<Row<Application>>, next: int, id: int, now: int)
    requires Keyed(apps, next) && GetById(apps, id).Some?
    ensures GetById(AfterView(apps, id, now), id).Some?
    ensures GetById(AfterView(apps, id, now), id).value.status != Pending
    ensures GetById(AfterView(apps, id, now), id).value.employerComment == GetById(apps, id).value.employerComment
  {
    ApplicationRepository.StatusUpdatedLookup(apps, next, id, Viewed, None, now, id);
  }

  /** `LoadApplicationAsync`: the view of the application as stored, with its vacancy, company, applicant and resume. */
  function ViewOf(a: Row<Application>, s: Snapshot, users: map<string, Profile>): (r: DetailView)
    ensures r.id == a.id && r.vacancyId == a.val.vacancyId && r.userId == a.val.userId
    ensures r.status == a.val.status && r.statusDisplay == DisplayName(a.val.status) && r.statusColor == ColorClass(a.val.status)
    ensures r.coverLetter == a.val.coverLetter && r.appliedAt == a.val.appliedAt
    ensures r.statusUpdatedAt == a.val.statusUpdatedAt && r.employerComment == a.val.employerComment
    ensures GetById(s.vacancies, a.val.vacancyId).None? ==> r.vacancyTitle == "Не указано" && r.companyName == "Не указано"
    ensures GetById(s.vacancies, a.val.vacancyId).Some? ==> r.vacancyTitle == GetById(s.vacancies, a.val.vacancyId).value.title
    ensures GetById(s.vacancies, a.val.vacancyId).Some? ==>
      var c := GetById(s.companies, GetById(s.vacancies, a.val.vacancyId).value.companyId);
      r.companyName == if c.Some? then c.value.name else "Не указано"
    ensures r.applicantEmail == EmailOrUnknown(FindUser(users, a.val.userId))
    ensures r.applicantPhone == PhoneOf(FindUser(users, a.val.userId))
    ensures a.val.resumeId.Some? && GetById(s.resumes, a.val.resumeId.value).Some? ==>
      r.resumeId == a.val.resumeId && r.resumeTitle == Some(GetById(s.resumes, a.val.resumeId.value).value.title)
    ensures r.applicantName == NameOr(FindUser(users, a.val.userId), a.val.userId)
    ensures r.resumeId.Some? ==> r.resumeId == a.val.resumeId && GetById(s.resumes, r.resumeId.value).Some?
    ensures r.resumeTitle.Some? <==> r.resumeId.Some?
  {
    var vacancy := GetById(s.vacancies, a.val.vacancyId);
    var company := if vacancy.Some? then GetById(s.companies, vacancy.value.companyId) else None;
    var user := FindUser(users, a.val.userId);
    var resume := if a.val.resumeId.Some? then GetById(s.resumes, a.val.resumeId.value) else None;
    DetailView(
      a.id,
      a.val.vacancyId,
      if vacancy.Some? then vacancy.value.title else "Не указано",
      if company.Some? then company.value.name else "Не указано",
      a.val.userId,
      NameOr(user, a.val.userId),
      EmailOrUnknown(user),
      PhoneOf(user),
      if resume.Some? then a.val.resumeId else None,
      if resume.Some? then Some(resume.value.title) else None,
      a.val.status,
      DisplayName(a.val.status),
      ColorClass(a.val.status),
      a.val.coverLetter,
      a.val.appliedAt,
      a.val.statusUpdatedAt,
      a.val.employerComment)
  }

  /** `TempData["SuccessMessage"]` after an update. */
  function UpdatedNotice(status: Status): string
  {
    "Статус отклика изменен на " + DisplayName(status)
  }

  class ApplicationDetailModel {
    const id: int
    var application: Option<DetailView>

    constructor (id: int)
      ensures this.id == id && application == None
    {
      this.id := id;
      application := None;
    }

    /**
     * `OnGetAsync`: the gate's answer with nothing changed; otherwise the
     * automatic view step and the view of the application as now stored.
     */
    method OnGet(db: Db, caller: Option<string>, isAdmin: bool, id: int, users: map<string, Profile>, now: int)
      returns (resp: Response)
      requires db.Valid()
      modifies this, db
      ensures db.Valid()
      ensures Gate(old(db.State()), caller, isAdmin, id).Some? ==>
        resp == Gate(old(db.State()), caller, isAdmin, id).value && unchanged(db) && unchanged(this)
      ensures Gate(old(db.State()), caller, isAdmin, id).None? ==> resp == ShowPage
      ensures Gate(old(db.State()), caller, isAdmin, id).None? ==>
        db.State() == old(db.State()).(applications := AfterView(old(db.applications), id, now))
      ensures Gate(old(db.State()), caller, isAdmin, id).None? ==>
        GetById(db.applications, id).Some?
        && application == Some(ViewOf(Row(id, GetById(db.applications, id).value), db.State(), users))
    {
      var gate := Gate(db.State(), caller, isAdmin, id);
      if gate.Some? {
        return gate.value;
      }
      var view := Open(db, id, users, now);
      ghost var after := db.State();
      assert (this as object) != (db as object);
      application := Some(view);
      assert db.State() == after;
      resp := ShowPage;
    }

    /**
     * `OnPostUpdateStatusAsync`: the gate's answer with nothing changed;
     * otherwise any status, from any status, with the given comment, and a
     * redirect with the notice naming the new status.
     */
    method OnPostUpdateStatus(db: Db, caller: Option<string>, isAdmin: bool, applicationId: int,
                              newStatus: Status, employerComment: Option<string>, now: int)
      returns (resp: Response)
      requires db.Valid()
      modifies db
      ensures db.Valid()
      ensures Gate(old(db.State()), caller, isAdmin, applicationId).Some? ==>
        resp == Gate(old(db.State()), caller, isAdmin, applicationId).value && unchanged(db)
      ensures Gate(old(db.State()), caller, isAdmin, applicationId).None? ==>
        && resp == Redirect(Success(UpdatedNotice(newStatus)))
        && db.State() == old(db.State()).(applications :=
             ApplicationRepository.StatusUpdated(old(db.applications), applicationId, newStatus, employerComment, now))
    {
      var gate := Gate(db.State(), caller, isAdmin, applicationId);
      if gate.Some? {
        return gate.value;
      }
      var ok := ApplicationRepository.UpdateStatus(db, applicationId, newStatus, employerComment, now);
      resp := Redirect(Success(UpdatedNotice(newStatus)));
    }
  }

  /** The admitted path of `OnGetAsync`: the view step, then `LoadApplicationAsync` on the stored record. */
  method Open(db: Db, id: int, users: map<string, Profile>, now: int) returns (view: DetailView)
    requires db.Valid() && GetById(db.applications, id).Some?
    modifies db
    ensures db.Valid()
    ensures db.State() == old(db.State()).(applications := AfterView(old(db.applications), id, now))
    ensures GetById(db.applications, id).Some?
    ensures view == ViewOf(Row(id, GetById(db.applications, id).value), db.State(), users)
  {
    MarkViewed(db, id, now);
    var stored := GetById(db.applications, id);
    view := ViewOf(Row(id, stored.value), db.State(), users);
  }

  /** The `if (application.Status == Pending)` step of `OnGetAsync`. */
  method MarkViewed(db: Db, id: int, now: int)
    requires db.Valid() && GetById(db.applications, id).Some?
    modifies db
    ensures db.Valid()
    ensures db.State() == old(db.State()).(applications := AfterView(old(db.applications), id, now))
    ensures GetById(db.applications, id).Some?
  {
    ApplicationRepository.StatusUpdatedLookup(db.applications, db.nextId, id, Viewed, None, now, id);
    var stored := GetById(db.applications, id);
    if stored.value.status == Pending {
      var ok := ApplicationRepository.UpdateStatus(db, id, Viewed, None, now);
    }
  }
}
