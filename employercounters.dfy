/**
 * The employer's start page: three counters — the companies the user
 * belongs to, the vacancies the user created, and the applications to those
 * vacancies, summed vacancy by vacancy.
 */
module EmployerCountersPage {
  import opened Seqs
  import opened Tables
  import opened Entities
  import opened Store
  import opened Wrappers
  import Text
  import CompanyRepository
  import ApplicationRepository
  import MyVacanciesPage

  /** The number of applications a vacancy has. */
  function CountOf(apps: seq<Row<Application>>): Row<Vacancy> -> int
  {
    (v: Row<Vacancy>) => ApplicationRepository.CountByVacancy(apps, v.id)
  }

  /** The counter the loop builds: each vacancy's applications, added up. */
  function ApplicationsTotal(apps: seq<Row<Application>>, vs: seq<Row<Vacancy>>): int
  {
    Sum(vs, CountOf(apps))
  }

  /** `LoadCountersAsync`'s loop: one application count per vacancy, added to the running total. */
  method SumApplications(apps: seq<Row<Application>>, vs: seq<Row<Vacancy>>) returns (total: int)
    ensures total == ApplicationsTotal(apps, vs)
  {
    total := 0;
    for k := 0 to |vs|
      invariant total == Sum(vs[..k], CountOf(apps))
    {
      assert vs[..k + 1][..k] == vs[..k];
      total := total + ApplicationRepository.CountByVacancy(apps, vs[k].id);
    }
    assert vs[..|vs|] == vs;
  }

  /** The application goes to one of the vacancies `ids`. */
  function ToVacanciesFilter(ids: set<int>): Application -> bool
  {
    (a: Application) => a.vacancyId in ids
  }

  /** Counting applications to a set of vacancies and one more vacancy outside it adds that vacancy's count. */
  lemma {:induction false} CountSplit(apps: seq<Row<Application>>, ids: set<int>, id: int)
    requires id !in ids
    ensures CountRows(apps, ToVacanciesFilter(ids + {id}))
      == CountRows(apps, ToVacanciesFilter(ids)) + CountRows(apps, ApplicationRepository.ByVacancyFilter(id))
  {
    if apps != [] {
      CountSplit(apps[..|apps| - 1], ids, id);
    }
  }

  /**
   * Because vacancy keys are distinct, the summed counter counts every
   * application to the listed vacancies exactly once.
   */
  lemma {:induction false} TotalCountsDistinct(apps: seq<Row<Application>>, vs: seq<Row<Vacancy>>)
    requires Increasing(vs)
    ensures ApplicationsTotal(apps, vs) == CountRows(apps, ToVacanciesFilter(Ids(vs)))
  {
    if vs == [] {
      assert Ids(vs) == {};
      WhereNone(apps, ToVacanciesFilter({}));
    } else {
      var init, last := vs[..|vs| - 1], vs[|vs| - 1];
      assert Increasing(init);
      TotalCountsDistinct(apps, init);
      IdsSnoc(vs);
      CountSplit(apps, Ids(init), last.id);
      calc {
        ApplicationsTotal(apps, vs);
        ApplicationsTotal(apps, init) + ApplicationRepository.CountByVacancy(apps, last.id);
        CountRows(apps, ToVacanciesFilter(Ids(init))) + CountRows(apps, ApplicationRepository.ByVacancyFilter(last.id));
      }
    }
  }

  /** In a consistent store `ApplicationsCount` is the number of applications to vacancies the user created. */
  lemma ApplicationsCounted(s: Snapshot, userId: string)
    requires Consistent(s)
    ensures ApplicationsTotal(s.applications, MyVacanciesPage.Mine(s.vacancies, userId))
      == CountRows(s.applications, ToVacanciesFilter(Ids(MyVacanciesPage.Mine(s.vacancies, userId))))
  {
    TotalCountsDistinct(s.applications, MyVacanciesPage.Mine(s.vacancies, userId));
  }

  class EmployerCountersModel {
    var vacanciesCount: int
    var applicationsCount: int
    var companiesCount: int

    constructor ()
      ensures vacanciesCount == 0 && applicationsCount == 0 && companiesCount == 0
    {
      vacanciesCount := 0;
      applicationsCount := 0;
      companiesCount := 0;
    }

    /** `OnGetAsync`: the counters stay as they were without a signed-in user; otherwise `LoadCountersAsync`. */
    method OnGet(db: Db, caller: Option<string>)
      modifies this
      ensures Text.IsNullOrEmpty(caller) ==> unchanged(this)
      ensures !Text.IsNullOrEmpty(caller) ==>
        companiesCount == |CompanyRepository.CompaniesOf(db.companies, db.memberships, caller.value)|
      ensures !Text.IsNullOrEmpty(caller) ==> vacanciesCount == |MyVacanciesPage.Mine(db.vacancies, caller.value)|
      ensures !Text.IsNullOrEmpty(caller) ==>
        applicationsCount == ApplicationsTotal(db.applications, MyVacanciesPage.Mine(db.vacancies, caller.value))
    {
      if Text.IsNullOrEmpty(caller) {
        return;
      }
      var userId := caller.value;
      companiesCount := |CompanyRepository.CompaniesOf(db.companies, db.memberships, userId)|;
      var mine := MyVacanciesPage.Mine(db.vacancies, userId);
      vacanciesCount := |mine|;
      applicationsCount := SumApplications(db.applications, mine);
    }
  }
}
