/**
 * The job seeker's start page: the user's resumes and applications, the
 * active vacancies of the whole board, two fixed placeholder counters, and
 * the three newest vacancies as "recently viewed".
 */
module EmployeeCountersPage {
  import opened Wrappers
  import opened Tables
  import opened Entities
  import opened Store
  import Text
  import VacancyRepository
  import ResumeRepository
  import ApplicationRepository
  import CompanyRepository

  /** How many vacancies the "recently viewed" block shows. */
  const RecentCount: int := 3
  /** The placeholder values of the recommendation and favourite counters. */
  const RecommendedPlaceholder: int := 12
  const FavoritesPlaceholder: int := 3
  const Unspecified := "Не указано"

  /** `RecentVacancyViewModel`. */
  datatype RecentVacancy = RecentVacancy(id: int, title: string, company: string, salary: string)

  /**
   * One recent vacancy. The newest-vacancies query includes the company, so
   * its name is shown when it is stored; the salary is a non-null string and
   * is shown as stored.
   */
  function RecentOf(v: Row<Vacancy>, companies: seq<Row<Company>>): (r: RecentVacancy)
    ensures r.id == v.id && r.title == v.val.title && r.salary == v.val.salary
    ensures GetById(companies, v.val.companyId).Some? ==> r.company == GetById(companies, v.val.companyId).value.name
    ensures GetById(companies, v.val.companyId).None? ==> r.company == Unspecified
  {
    RecentVacancy(v.id, v.val.title, CompanyRepository.CompanyNameOr(companies, v.val.companyId, Unspecified), v.val.salary)
  }

  function RecentsOf(vs: seq<Row<Vacancy>>, companies: seq<Row<Company>>): (r: seq<RecentVacancy>)
    ensures |r| == |vs|
    ensures forall i :: 0 <= i < |vs| ==> r[i] == RecentOf(vs[i], companies)
  {
    seq(|vs|, i requires 0 <= i < |vs| => RecentOf(vs[i], companies))
  }

  /**
   * The recent block never shows more than three vacancies nor more than the
   * active-vacancy counter says there are, and it is full whenever at least
   * three vacancies are active.
   */
  lemma RecentWithinActive(vs: seq<Row<Vacancy>>, companies: seq<Row<Company>>)
    ensures var r := RecentsOf(VacancyRepository.Latest(vs, RecentCount), companies);
      |r| <= RecentCount && |r| <= VacancyRepository.ActiveCount(vs)
      && (VacancyRepository.ActiveCount(vs) >= RecentCount ==> |r| == RecentCount)
  {
    var a := VacancyRepository.Active(vs);
    VacancyRepository.ActiveCountCounts(vs);
    assert |multiset(a)| == |multiset(Where(vs, VacancyRepository.IsActiveFilter()))|;
  }

  /** `LoadCountersAsync`'s three counted values. */
  method Counters(rs: seq<Row<Resume>>, apps: seq<Row<Application>>, vs: seq<Row<Vacancy>>, userId: string)
    returns (resumes: int, applications: int, active: int)
    ensures resumes == |ResumeRepository.ByUser(rs, userId)|
    ensures applications == |ApplicationRepository.ByUser(apps, userId)|
    ensures active == VacancyRepository.ActiveCount(vs)
  {
    resumes := |ResumeRepository.ByUser(rs, userId)|;
    applications := ApplicationRepository.CountByUser(apps, userId);
    active := VacancyRepository.ActiveCount(vs);
  }

  /** `LoadRecentVacanciesAsync`: the three newest active vacancies. */
  method LoadRecent(vs: seq<Row<Vacancy>>, companies: seq<Row<Company>>) returns (recent: seq<RecentVacancy>)
    ensures recent == RecentsOf(VacancyRepository.Latest(vs, RecentCount), companies)
  {
    recent := RecentsOf(VacancyRepository.Latest(vs, RecentCount), companies);
  }

  class EmployeeCountersModel {
    var resumesCount: int
    var applicationsCount: int
    var favoritesCount: int
    var totalVacancies: int
    var recommendedCount: int
    var recentVacancies: seq<RecentVacancy>

    /** A fresh page model: every counter zero and no recent vacancies. */
    constructor ()
      ensures resumesCount == 0 && applicationsCount == 0 && favoritesCount == 0
      ensures totalVacancies == 0 && recommendedCount == 0 && recentVacancies == []
    {
      resumesCount := 0;
      applicationsCount := 0;
      favoritesCount := 0;
      totalVacancies := 0;
      recommendedCount := 0;
      recentVacancies := [];
    }

    /**
     * `OnGetAsync`: nothing is loaded without a signed-in user. Otherwise the
     * user's resumes and applications are counted, the active vacancies of
     * the whole board are counted, the two placeholders are set, and the
     * three newest active vacancies are listed.
     */
    method OnGet(db: Db, caller: Option<string>)
      modifies this
      ensures Text.IsNullOrEmpty(caller) ==> unchanged(this)
      ensures !Text.IsNullOrEmpty(caller) ==>
        resumesCount == |ResumeRepository.ByUser(db.resumes, caller.value)|
        && applicationsCount == |ApplicationRepository.ByUser(db.applications, caller.value)|
      ensures !Text.IsNullOrEmpty(caller) ==> totalVacancies == VacancyRepository.ActiveCount(db.vacancies)
      ensures !Text.IsNullOrEmpty(caller) ==>
        recommendedCount == RecommendedPlaceholder && favoritesCount == FavoritesPlaceholder
      ensures !Text.IsNullOrEmpty(caller) ==>
        recentVacancies == RecentsOf(VacancyRepository.Latest(db.vacancies, RecentCount), db.companies)
    {
      if Text.IsNullOrEmpty(caller) {
        return;
      }
      Load(db.resumes, db.applications, db.vacancies, db.companies, caller.value);
    }

    /** `LoadCountersAsync` and `LoadRecentVacanciesAsync` for a signed-in user. */
    method Load(rs: seq<Row<Resume>>, apps: seq<Row<Application>>, vs: seq<Row<Vacancy>>,
                companies: seq<Row<Company>>, userId: string)
      modifies this
      ensures resumesCount == |ResumeRepository.ByUser(rs, userId)|
      ensures applicationsCount == |ApplicationRepository.ByUser(apps, userId)|
      ensures totalVacancies == VacancyRepository.ActiveCount(vs)
      ensures recommendedCount == RecommendedPlaceholder && favoritesCount == FavoritesPlaceholder
      ensures recentVacancies == RecentsOf(VacancyRepository.Latest(vs, RecentCount), companies)
    {
      var resumes, applications, active := Counters(rs, apps, vs, userId);
      SetCounters(resumes, applications, active);
      var recent := LoadRecent(vs, companies);
      recentVacancies := recent;
    }

    /** The assignments of `LoadCountersAsync`: the three counts and the two placeholders; the recent rows stay as they were. */
    method SetCounters(resumes: int, applications: int, active: int)
      modifies this
      ensures resumesCount == resumes && applicationsCount == applications && totalVacancies == active
      ensures recommendedCount == RecommendedPlaceholder && favoritesCount == FavoritesPlaceholder
      ensures recentVacancies == old(recentVacancies)
    {
      resumesCount := resumes;
      applicationsCount := applications;
      totalVacancies := active;
      recommendedCount := RecommendedPlaceholder;
      favoritesCount := FavoritesPlaceholder;
    }
  }
}
