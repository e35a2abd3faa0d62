/**
 * The start page: the active vacancies narrowed by a filter chip and a
 * search text, the first `VisibleCount` of them as cards, and "show more",
 * which asks for three more.
 */
module IndexPage {
  import opened Wrappers
  import opened Seqs
  import opened Tables
  import opened Entities
  import opened Store
  import opened Web
  import opened VacancyCards
  import Text

  const AllFilter := "all"
  const SeasonalFilter := "сезонные"
  const FirstVisible: int := 6
  const LoadStep: int := 3

  /** The rows a vacancy brings along when it is read: its company's name, if loaded, and its tags' names. */
  datatype Related = Related(company: Option<string>, tags: seq<string>)

  /** The company and the tags looked up by key. */
  function Resolved(companies: seq<Row<Company>>, tags: seq<Row<Tag>>, links: seq<Row<VacancyTag>>, v: Row<Vacancy>): (r: Related)
    ensures r.company.Some? <==> GetById(companies, v.val.companyId).Some?
    ensures r.company.Some? ==> r.company.value == GetById(companies, v.val.companyId).value.name
    ensures r.tags == TagNames(tags, links, v.id)
  {
    var company := match GetById(companies, v.val.companyId)
      case Some(c) => Some(c.name)
      case None => None;
    Related(company, TagNames(tags, links, v.id))
  }

  /**
   * The related rows the page sees: resolved when `loaded`; otherwise none,
   * which is what the plain `GetAllAsync` read gives, since it includes
   * neither the company nor the tag links and nothing loads them later.
   */
  function RelatedOf(companies: seq<Row<Company>>, tags: seq<Row<Tag>>, links: seq<Row<VacancyTag>>,
                     loaded: bool, v: Row<Vacancy>): Related
  {
    if loaded then Resolved(companies, tags, links, v) else Related(None, [])
  }

  /** The filter chip: everything for "all", the seasonal vacancies for the seasonal chip, else a category compared ignoring case. */
  predicate InFilter(current: string, v: Vacancy)
  {
    current == AllFilter
    || (current == SeasonalFilter && v.isSeasonal)
    || (current != SeasonalFilter && v.category != "" && Text.EqualsIgnoreCase(v.category, current))
  }

  /** `VacancyTags.Any(vt => vt.Tag.Name.ToLower().Contains(term))`. */
  predicate AnyContains(names: seq<string>, term: string)
  {
    exists i :: 0 <= i < |names| && Text.ContainsIgnoreCase(names[i], term)
  }

  /** The search: no text finds everything; else the title, company, description, category, location or a tag contains it, ignoring case. */
  predicate SearchHit(v: Vacancy, rel: Related, term: string)
  {
    term == ""
    || Text.ContainsIgnoreCase(v.title, term)
    || (rel.company.Some? && Text.ContainsIgnoreCase(rel.company.value, term))
    || Text.ContainsIgnoreCase(v.description, term)
    || (v.category != "" && Text.ContainsIgnoreCase(v.category, term))
    || (v.location != "" && Text.ContainsIgnoreCase(v.location, term))
    || AnyContains(rel.tags, term)
  }

  /** An active vacancy that passes the chip and the search. */
  predicate Shows(companies: seq<Row<Company>>, tags: seq<Row<Tag>>, links: seq<Row<VacancyTag>>, loaded: bool,
                  filter: string, term: string, v: Row<Vacancy>)
  {
    v.val.isActive && InFilter(filter, v.val) && SearchHit(v.val, RelatedOf(companies, tags, links, loaded, v), term)
  }

  function ShowsFilter(companies: seq<Row<Company>>, tags: seq<Row<Tag>>, links: seq<Row<VacancyTag>>, loaded: bool,
                       filter: string, term: string): Row<Vacancy> -> bool
  {
    (v: Row<Vacancy>) => Shows(companies, tags, links, loaded, filter, term, v)
  }

  /** `filteredList`: the vacancies the page would show, in table order. */
  function Matching(vs: seq<Row<Vacancy>>, companies: seq<Row<Company>>, tags: seq<Row<Tag>>, links: seq<Row<VacancyTag>>,
                    loaded: bool, filter: string, term: string): seq<Row<Vacancy>>
  {
    Filter(vs, ShowsFilter(companies, tags, links, loaded, filter, term))
  }

  /** `Company?.Name ?? "Не указано"`. */
  function CompanyOr(name: Option<string>): (r: string)
    ensures name.Some? ==> r == name.value
    ensures name.None? ==> r == NotGiven
  {
    match name
    case Some(n) => n
    case None => NotGiven
  }

  /** One start-page card: every tag name as it is, and no description. */
  function IndexCard(rel: Related, v: Row<Vacancy>): (c: Card)
    ensures c.id == v.id && c.title == v.val.title && c.company == CompanyOr(rel.company)
    ensures c.location == v.val.location && c.salary == v.val.salary && c.category == v.val.category
    ensures c.tags == rel.tags && c.description == ""
    ensures c.postedDate == v.val.postedDate && c.isSeasonal == v.val.isSeasonal
  {
    Card(v.id, v.val.title, CompanyOr(rel.company), v.val.location, v.val.salary, rel.tags, v.val.category,
         v.val.postedDate, v.val.isSeasonal, "")
  }

  function Cards(rows: seq<Row<Vacancy>>, companies: seq<Row<Company>>, tags: seq<Row<Tag>>, links: seq<Row<VacancyTag>>,
                 loaded: bool): (r: seq<Card>)
    ensures |r| == |rows|
    ensures forall i :: 0 <= i < |rows| ==> r[i] == IndexCard(RelatedOf(companies, tags, links, loaded, rows[i]), rows[i])
  {
    seq(|rows|, i requires 0 <= i < |rows| => IndexCard(RelatedOf(companies, tags, links, loaded, rows[i]), rows[i]))
  }

  /** What one request shows: the chip, the search text, the visible count, the cards and whether more remain. */
  datatype Front = Front(filter: string, search: string, visible: int, cards: seq<Card>, hasMore: bool)

  /** `LoadVacanciesAsync`: the first `visible` matches as cards, and whether the list is longer. */
  function FrontOf(vs: seq<Row<Vacancy>>, companies: seq<Row<Company>>, tags: seq<Row<Tag>>, links: seq<Row<VacancyTag>>,
                   loaded: bool, filter: string, term: string, visible: int): (r: Front)
    ensures r.filter == filter && r.search == term && r.visible == visible
    ensures r.hasMore <==> |Matching(vs, companies, tags, links, loaded, filter, term)| > visible
    ensures |r.cards| == if visible <= 0 then 0 else if visible < |Matching(vs, companies, tags, links, loaded, filter, term)|
                         then visible else |Matching(vs, companies, tags, links, loaded, filter, term)|
    ensures forall i :: 0 <= i < |r.cards| ==>
      var m := Matching(vs, companies, tags, links, loaded, filter, term);
      r.cards[i] == IndexCard(RelatedOf(companies, tags, links, loaded, m[i]), m[i])
  {
    var m := Matching(vs, companies, tags, links, loaded, filter, term);
    Front(filter, term, visible, Cards(Take(m, visible), companies, tags, links, loaded), |m| > visible)
  }

  /** `currentVisibleCount + 3` in 32-bit arithmetic, which wraps past `int.MaxValue`. */
  function NextVisible(n: int): (r: int)
    requires -0x8000_0000 <= n < 0x8000_0000
    ensures -0x8000_0000 <= r < 0x8000_0000
    ensures n < 0x8000_0000 - LoadStep ==> r == n + LoadStep
    ensures n >= 0x8000_0000 - LoadStep ==> r == n + LoadStep - 0x1_0000_0000 && r < 0
  {
    if n + LoadStep < 0x8000_0000 then n + LoadStep else n + LoadStep - 0x1_0000_0000
  }

  // ----- what the page promises -----

  /** The "all" chip with no search lists exactly the active vacancies. */
  lemma AllListsActive(vs: seq<Row<Vacancy>>, companies: seq<Row<Company>>, tags: seq<Row<Tag>>, links: seq<Row<VacancyTag>>,
                       loaded: bool)
    ensures forall v :: v in Matching(vs, companies, tags, links, loaded, AllFilter, "") <==> v in vs && v.val.isActive
  {
  }

  /** An empty chip value matches no category, since lower-casing keeps a name non-empty: nothing is listed. */
  lemma EmptyFilterListsNothing(vs: seq<Row<Vacancy>>, companies: seq<Row<Company>>, tags: seq<Row<Tag>>,
                                links: seq<Row<VacancyTag>>, loaded: bool, term: string)
    ensures Matching(vs, companies, tags, links, loaded, "", term) == []
  {
    forall v | v in vs ensures !ShowsFilter(companies, tags, links, loaded, "", term)(v) {
      if v.val.category != "" {
        assert |Text.Lower(v.val.category)| != |Text.Lower("")|;
      }
    }
    FilterNone(vs, ShowsFilter(companies, tags, links, loaded, "", term));
  }

  /** The search ignores case: lower-casing the search text changes nothing. */
  lemma SearchIgnoresCase(v: Vacancy, rel: Related, term: string)
    ensures SearchHit(v, rel, term) <==> SearchHit(v, rel, Text.Lower(term))
  {
    Text.LowerIdempotent(term);
    assert term == "" <==> Text.Lower(term) == "";
  }

  /**
   * "Show more" exactly when some match is not shown; the cards are the
   * first matches in table order, each a stored active vacancy passing the
   * chip and the search.
   */
  lemma HasMoreIffHidden(vs: seq<Row<Vacancy>>, companies: seq<Row<Company>>, tags: seq<Row<Tag>>, links: seq<Row<VacancyTag>>,
                         loaded: bool, filter: string, term: string, visible: int)
    requires visible >= 0
    ensures var f := FrontOf(vs, companies, tags, links, loaded, filter, term, visible);
      var m := Matching(vs, companies, tags, links, loaded, filter, term);
      (f.hasMore <==> |f.cards| < |m|)
      && |f.cards| <= visible
      && forall i :: 0 <= i < |f.cards| ==> f.cards[i].id == m[i].id && m[i] in vs && m[i].val.isActive
  {
    var m := Matching(vs, companies, tags, links, loaded, filter, term);
    assert forall i :: 0 <= i < |m| ==> m[i] in m;
  }

  /** Asking for more keeps every card already shown, in place, and adds the next matches after them. */
  lemma LoadMoreExtends(vs: seq<Row<Vacancy>>, companies: seq<Row<Company>>, tags: seq<Row<Tag>>, links: seq<Row<VacancyTag>>,
                        loaded: bool, filter: string, term: string, visible: int)
    requires 0 <= visible < 0x8000_0000 - LoadStep
    ensures var before := FrontOf(vs, companies, tags, links, loaded, filter, term, visible);
      var after := FrontOf(vs, companies, tags, links, loaded, filter, term, NextVisible(visible));
      before.cards <= after.cards && |after.cards| <= |before.cards| + LoadStep
      && (before.hasMore <==> |after.cards| > |before.cards|)
  {
    var m := Matching(vs, companies, tags, links, loaded, filter, term);
    var a := Take(m, visible);
    var b := Take(m, visible + LoadStep);
    assert a == b[..|a|];
  }

  /** With the related rows resolved, a match on the company's name is found and the card names the company. */
  lemma CompanyFound(vs: seq<Row<Vacancy>>, companies: seq<Row<Company>>, tags: seq<Row<Tag>>, links: seq<Row<VacancyTag>>,
                     filter: string, term: string, v: Row<Vacancy>, c: Company)
    requires v in vs && v.val.isActive && InFilter(filter, v.val)
    requires GetById(companies, v.val.companyId) == Some(c) && Text.ContainsIgnoreCase(c.name, term)
    ensures v in Matching(vs, companies, tags, links, true, filter, term)
    ensures IndexCard(RelatedOf(companies, tags, links, true, v), v).company == c.name
  {
    assert Shows(companies, tags, links, true, filter, term, v);
  }

  /**
   * As written the page reads the vacancies without their company: a vacancy
   * whose only match is its company's name is not listed, though it is once
   * the company is resolved, and its card says "Не указано".
   */
  lemma CompanySearchMissedAsWritten()
    ensures var v := Row(1, Vacancy("", "", "", 0, 0, false, true, "", "", 7, None));
      var companies := [Row(7, Company("Agro", None, None, None, None, false))];
      v !in Matching([v], companies, [], [], false, AllFilter, "agro")
      && v in Matching([v], companies, [], [], true, AllFilter, "agro")
      && IndexCard(RelatedOf(companies, [], [], false, v), v).company == NotGiven
  {
    var v := Row(1, Vacancy("", "", "", 0, 0, false, true, "", "", 7, None));
    var companies := [Row(7, Company("Agro", None, None, None, None, false))];
    assert Text.Lower("agro") == "agro";
    assert Text.Lower("Agro") == "agro";
    assert Text.OccursAt(Text.Lower("Agro"), Text.Lower("agro"), 0);
    assert GetById(companies, 7) == Some(companies[0].val);
    assert !Shows(companies, [], [], false, AllFilter, "agro", v);
    assert Shows(companies, [], [], true, AllFilter, "agro", v);
  }

  class IndexModel {
    var currentFilter: string
    var searchTerm: string
    var visibleCount: int
    var displayedVacancies: seq<Card>
    var hasMoreVacancies: bool

    /** A fresh page model: the "all" chip, no search, six cards. */
    constructor ()
      ensures Shown() == Front(AllFilter, "", FirstVisible, [], false)
    {
      currentFilter := AllFilter;
      searchTerm := "";
      visibleCount := FirstVisible;
      displayedVacancies := [];
      hasMoreVacancies := false;
    }

    function Shown(): Front
      reads this
    {
      Front(currentFilter, searchTerm, visibleCount, displayedVacancies, hasMoreVacancies)
    }

    method Show(f: Front)
      modifies this
      ensures Shown() == f
    {
      currentFilter := f.filter;
      searchTerm := f.search;
      visibleCount := f.visible;
      displayedVacancies := f.cards;
      hasMoreVacancies := f.hasMore;
    }

    /**
     * `OnGetAsync`: a missing chip means "all", a missing search means none;
     * the visible count stays. The vacancies are read as written, without
     * their company and tags.
     */
    method OnGet(db: Db, filter: Option<string>, search: Option<string>)
      modifies this
      ensures Shown() == FrontOf(db.vacancies, db.companies, db.tags, db.vacancyTags, false,
                                 filter.GetOr(AllFilter), search.GetOr(""), old(visibleCount))
    {
      var f := FrontOf(db.vacancies, db.companies, db.tags, db.vacancyTags, false,
                       filter.GetOr(AllFilter), search.GetOr(""), visibleCount);
      Show(f);
    }

    /**
     * `OnPostLoadMoreAsync`: the posted chip and three more cards than the
     * posted count. The search text is not posted, so the page keeps the
     * one it holds — none, on a fresh page model.
     */
    method OnPostLoadMore(db: Db, postedFilter: string, postedVisible: int) returns (resp: Response)
      requires -0x8000_0000 <= postedVisible < 0x8000_0000
      modifies this
      ensures resp == ShowPage
      ensures Shown() == FrontOf(db.vacancies, db.companies, db.tags, db.vacancyTags, false,
                                 postedFilter, old(searchTerm), NextVisible(postedVisible))
    {
      var f := FrontOf(db.vacancies, db.companies, db.tags, db.vacancyTags, false,
                       postedFilter, searchTerm, NextVisible(postedVisible));
      Show(f);
      resp := ShowPage;
    }
  }
}
