/**
 * The application repository: listings by applicant, vacancy and company,
 * newest first; the counts that go with them; and the status update.
 */
module ApplicationRepository {
  import opened Wrappers
  import opened Tables
  import opened Seqs
  import opened Statuses
  import opened Entities
  import opened Store

  /** `OrderByDescending(a => a.AppliedAt)`: a later application may come first. */
  function LaterApplied(a: Row<Application>, b: Row<Application>): bool
  {
    a.val.appliedAt >= b.val.appliedAt
  }

  lemma LaterAppliedOrders()
    ensures TotalPreorder(LaterApplied)
  {
  }

  function ByUserFilter(userId: string): Application -> bool
  {
    (a: Application) => a.userId == userId
  }

  function ByVacancyFilter(vacancyId: int): Application -> bool
  {
    (a: Application) => a.vacancyId == vacancyId
  }

  /** `GetApplicationsByUserAsync`: the user's applications, newest first. */
  function ByUser(apps: seq<Row<Application>>, userId: string): (r: seq<Row<Application>>)
    ensures forall x :: x in r <==> x in apps && x.val.userId == userId
    ensures multiset(r) == multiset(Where(apps, ByUserFilter(userId)))
    ensures Sorted(r, LaterApplied)
  {
    LaterAppliedOrders();
    OrderedWhere(apps, ByUserFilter(userId), LaterApplied)
  }

  /** `GetApplicationsByVacancyAsync`: the vacancy's applications, newest first. */
  function ByVacancy(apps: seq<Row<Application>>, vacancyId: int): (r: seq<Row<Application>>)
    ensures forall x :: x in r <==> x in apps && x.val.vacancyId == vacancyId
    ensures multiset(r) == multiset(Where(apps, ByVacancyFilter(vacancyId)))
    ensures Sorted(r, LaterApplied)
  {
    LaterAppliedOrders();
    OrderedWhere(apps, ByVacancyFilter(vacancyId), LaterApplied)
  }

  /** The application's vacancy belongs to company `companyId` (`a.Vacancy.CompanyId == companyId`). */
  function ByCompanyFilter(vacancies: seq<Row<Vacancy>>, companyId: int): Application -> bool
  {
    (a: Application) => match GetById(vacancies, a.vacancyId)
      case Some(v) => v.companyId == companyId
      case None => false
  }

  /**
   * `GetApplicationsByCompanyAsync`: the applications to any vacancy of the
   * company, newest first.
   */
  function ByCompany(apps: seq<Row<Application>>, vacancies: seq<Row<Vacancy>>, companyId: int): (r: seq<Row<Application>>)
    requires Increasing(vacancies)
    ensures forall x :: x in r <==>
      x in apps && exists v :: v in vacancies && v.id == x.val.vacancyId && v.val.companyId == companyId
    ensures multiset(r) == multiset(Where(apps, ByCompanyFilter(vacancies, companyId)))
    ensures Sorted(r, LaterApplied)
  {
    LaterAppliedOrders();
    var r := OrderedWhere(apps, ByCompanyFilter(vacancies, companyId), LaterApplied);
    forall x ensures x in r <==>
      x in apps && exists v :: v in vacancies && v.id == x.val.vacancyId && v.val.companyId == companyId
    {
      if x in apps && exists v :: v in vacancies && v.id == x.val.vacancyId && v.val.companyId == companyId {
        var v :| v in vacancies && v.id == x.val.vacancyId && v.val.companyId == companyId;
        IncreasingStored(vacancies, v);
      }
    }
    r
  }

  /** In a table with distinct keys, a stored row is what its key finds. */
  lemma IncreasingStored<T>(rows: seq<Row<T>>, x: Row<T>)
    requires Increasing(rows) && x in rows
    ensures GetById(rows, x.id) == Some(x.val)
  {
    var i :| 0 <= i < |rows| && rows[i] == x;
    var j := IndexOf(rows, x.id).value;
    assert !(i < j) && !(j < i);
  }

  /** `GetApplicationsCountByVacancyAsync`: as many as the vacancy listing holds. */
  function CountByVacancy(apps: seq<Row<Application>>, vacancyId: int): (n: nat)
    ensures n == |ByVacancy(apps, vacancyId)|
  {
    CountRows(apps, ByVacancyFilter(vacancyId))
  }

  /** `GetApplicationsCountByUserAsync`: as many as the user's listing holds. */
  function CountByUser(apps: seq<Row<Application>>, userId: string): (n: nat)
    ensures n == |ByUser(apps, userId)|
  {
    CountRows(apps, ByUserFilter(userId))
  }

  /** `HasUserAppliedToVacancyAsync` finds exactly the applications the user's listing shows for that vacancy. */
  lemma HasAppliedMatchesListing(apps: seq<Row<Application>>, userId: string, vacancyId: int)
    ensures HasApplied(apps, userId, vacancyId) <==> exists x :: x in ByUser(apps, userId) && x.val.vacancyId == vacancyId
    ensures HasApplied(apps, userId, vacancyId) <==> exists x :: x in ByVacancy(apps, vacancyId) && x.val.userId == userId
  {
  }

  /**
   * The record `UpdateStatusAsync` saves: the new status, stamped now; the
   * comment replaced only when one is given; everything else as it was.
   */
  function WithStatus(a: Application, status: Status, comment: Option<string>, now: int): (r: Application)
    ensures r.status == status && r.statusUpdatedAt == Some(now)
    ensures comment.Some? ==> r.employerComment == comment
    ensures comment.None? ==> r.employerComment == a.employerComment
    ensures r.vacancyId == a.vacancyId && r.userId == a.userId && r.resumeId == a.resumeId
    ensures r.coverLetter == a.coverLetter && r.appliedAt == a.appliedAt
  {
    a.(status := status, statusUpdatedAt := Some(now),
       employerComment := if comment.Some? then comment else a.employerComment)
  }

  /** Repeating the same update changes nothing more. */
  lemma WithStatusIdempotent(a: Application, status: Status, comment: Option<string>, now: int)
    ensures WithStatus(WithStatus(a, status, comment, now), status, comment, now) == WithStatus(a, status, comment, now)
  {
  }

  /** The last of two updates decides the status and stamp; a later comment wins, a missing one keeps the earlier. */
  lemma WithStatusTwice(a: Application, s1: Status, c1: Option<string>, t1: int, s2: Status, c2: Option<string>, t2: int)
    ensures WithStatus(WithStatus(a, s1, c1, t1), s2, c2, t2)
      == WithStatus(a, s2, if c2.Some? then c2 else c1, t2)
  {
  }

  /**
   * The applications table after `UpdateStatusAsync(id, …)`: unchanged for
   * an unknown id, otherwise the row with that id takes `WithStatus` in place.
   */
  function StatusUpdated(apps: seq<Row<Application>>, id: int, status: Status, comment: Option<string>, now: int): (r: seq<Row<Application>>)
    ensures |r| == |apps|
    ensures forall k :: 0 <= k < |apps| ==> r[k].id == apps[k].id
    ensures forall k :: 0 <= k < |apps| && apps[k].id != id ==> r[k] == apps[k]
    ensures IndexOf(apps, id).None? ==> r == apps
  {
    match IndexOf(apps, id)
    case None => apps
    case Some(i) => Replace(apps, i, WithStatus(apps[i].val, status, comment, now))
  }

  /** After the update, looking the id up finds the updated record, and every other id finds what it found before. */
  lemma StatusUpdatedLookup(apps: seq<Row<Application>>, next: int, id: int, status: Status, comment: Option<string>, now: int, other: int)
    requires Keyed(apps, next)
    ensures Keyed(StatusUpdated(apps, id, status, comment, now), next)
    ensures GetById(apps, id).Some? ==>
      GetById(StatusUpdated(apps, id, status, comment, now), id) == Some(WithStatus(GetById(apps, id).value, status, comment, now))
    ensures other != id ==> GetById(StatusUpdated(apps, id, status, comment, now), other) == GetById(apps, other)
  {
    var r := StatusUpdated(apps, id, status, comment, now);
    match IndexOf(apps, id)
    case None =>
    case Some(i) =>
      ReplaceKeyed(apps, next, i, WithStatus(apps[i].val, status, comment, now));
      assert r[i] in r;
      GetStored(r, next, id, r[i].val);
      if other != id && GetById(apps, other).Some? {
        GetStored(r, next, other, GetById(apps, other).value);
      }
  }

  /**
   * `UpdateStatusAsync`: false and no change for an unknown id; otherwise the
   * application takes `WithStatus` in place and the answer is true.
   */
  method UpdateStatus(db: Db, id: int, status: Status, comment: Option<string>, now: int) returns (ok: bool)
    requires db.Valid()
    modifies db
    ensures db.Valid()
    ensures ok <==> id in old(Ids(db.applications))
    ensures !ok ==> unchanged(db)
    ensures db.State() == old(db.State()).(applications := StatusUpdated(old(db.applications), id, status, comment, now))
  {
    var at := IndexOf(db.applications, id);
    if at.None? {
      return false;
    }
    var i := at.value;
    db.SetApplication(i, WithStatus(db.applications[i].val, status, comment, now));
    ok := true;
  }
}
