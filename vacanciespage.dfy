/**
 * The public vacancy list: seven counters over the active vacancies, a
 * filter by category, employment type and search text, six cards a page,
 * and a headline chosen by the category.
 */
module VacanciesPage {
  import opened Wrappers
  import opened Seqs
  import opened Tables
  import opened Entities
  import opened Store
  import opened Paging
  import opened VacancyCards
  import Text
  import VacancyRepository

  const PageSize: nat := 6
  const AllKey := "all"
  const SeasonalKey := "сезонные"

  // ----- counters -----

  /** `CountAsync(v => v.IsActive && v.IsSeasonal)`. */
  function SeasonalCount(vs: seq<Row<Vacancy>>): nat
  {
    if vs == [] then 0
    else SeasonalCount(vs[..|vs| - 1]) + (if vs[|vs| - 1].val.isActive && vs[|vs| - 1].val.isSeasonal then 1 else 0)
  }

  /** `CountAsync(v => v.IsActive && v.Category.Name == name)`, with the category kept as the vacancy's own text. */
  function CategoryCount(vs: seq<Row<Vacancy>>, name: string): nat
  {
    if vs == [] then 0
    else CategoryCount(vs[..|vs| - 1], name) + (if vs[|vs| - 1].val.isActive && vs[|vs| - 1].val.category == name then 1 else 0)
  }

  /** The seven counters at the head of the page. */
  datatype Counters = Counters(total: nat, seasonal: nat, agronomists: nat, veterinarians: nat,
                               machineOperators: nat, technologists: nat, engineers: nat)

  /** `LoadCountersAsync`: active vacancies, active seasonal ones, and active ones of five categories by name. */
  function CountersOf(vs: seq<Row<Vacancy>>): Counters
  {
    Counters(VacancyRepository.ActiveCount(vs), SeasonalCount(vs), CategoryCount(vs, "Агроном"), CategoryCount(vs, "Ветеринар"),
             CategoryCount(vs, "Механизатор"), CategoryCount(vs, "Технолог"), CategoryCount(vs, "Инженер"))
  }

  /** Each narrower counter counts active vacancies only, so none exceeds `TotalVacancies`. */
  lemma {:induction false} CountersBounded(vs: seq<Row<Vacancy>>, name: string)
    ensures SeasonalCount(vs) <= VacancyRepository.ActiveCount(vs)
    ensures CategoryCount(vs, name) <= VacancyRepository.ActiveCount(vs)
  {
    if vs != [] {
      CountersBounded(vs[..|vs| - 1], name);
    }
  }

  // ----- the filter -----

  /** The `Type` switch: a seasonality to require, or none. */
  function SeasonalityOf(kind: string): (r: Option<bool>)
    ensures r == Some(true) <==> kind == "seasonal"
    ensures r == Some(false) <==> kind == "permanent"
    ensures r.None? <==> kind != "seasonal" && kind != "permanent"
  {
    match kind
    case "seasonal" => Some(true)
    case "permanent" => Some(false)
    case _ => None
  }

  function NameFilter(category: string): Category -> bool
  {
    (c: Category) => Text.EqualsIgnoreCase(c.name, category)
  }

  /**
   * The category the `Category` value names: none for "all" and the
   * seasonal key, otherwise the first category whose name equals it
   * ignoring case — and none when there is no such category.
   */
  function CategoryKey(cats: seq<Row<Category>>, category: string): (r: Option<Row<Category>>)
    ensures category == AllKey || category == SeasonalKey ==> r.None?
    ensures r.Some? ==> r.value in cats && Text.EqualsIgnoreCase(r.value.val.name, category)
    ensures r.None? && category != AllKey && category != SeasonalKey ==>
      forall c :: c in cats ==> !Text.EqualsIgnoreCase(c.val.name, category)
  {
    if category == AllKey || category == SeasonalKey then None
    else match FirstWhere(cats, NameFilter(category))
      case Some(i) => Some(cats[i])
      case None => None
  }

  /** The page's query values. */
  datatype Query = Query(category: string, search: string, kind: string)

  /** The company exists and its name contains the search text. */
  predicate CompanyMatches(companies: seq<Row<Company>>, companyId: int, search: string)
  {
    match GetById(companies, companyId)
    case Some(c) => Text.Contains(c.name, search)
    case None => false
  }

  /** The condition of `LoadVacanciesAsync`'s `FindAsync`, once the category and the type are resolved. */
  predicate Selects(companies: seq<Row<Company>>, key: Option<Row<Category>>, q: Query, v: Vacancy)
  {
    v.isActive
    && (key.None? || v.category == key.value.val.name)
    && (q.category != SeasonalKey || v.isSeasonal)
    && (SeasonalityOf(q.kind).None? || v.isSeasonal == SeasonalityOf(q.kind).value)
    && (q.search == ""
        || Text.Contains(v.title, q.search)
        || Text.Contains(v.description, q.search)
        || CompanyMatches(companies, v.companyId, q.search))
  }

  function SelectsFilter(companies: seq<Row<Company>>, key: Option<Row<Category>>, q: Query): Vacancy -> bool
  {
    (v: Vacancy) => Selects(companies, key, q, v)
  }

  function KeysOf(rows: seq<Row<Vacancy>>): (r: seq<int>)
    ensures |r| == |rows|
    ensures forall i :: 0 <= i < |rows| ==> r[i] == rows[i].id
  {
    seq(|rows|, i requires 0 <= i < |rows| => rows[i].id)
  }

  /** `allVacancyIds`: the ids of the matching vacancies, in table order. */
  function MatchingIds(vs: seq<Row<Vacancy>>, companies: seq<Row<Company>>, cats: seq<Row<Category>>, q: Query): seq<int>
  {
    KeysOf(Where(vs, SelectsFilter(companies, CategoryKey(cats, q.category), q)))
  }

  /**
   * Every listed id is an active vacancy's; under the seasonal key it is a
   * seasonal one, and under a type it has that seasonality.
   */
  lemma MatchingActive(vs: seq<Row<Vacancy>>, companies: seq<Row<Company>>, cats: seq<Row<Category>>, q: Query, k: int)
    requires 0 <= k < |MatchingIds(vs, companies, cats, q)|
    ensures exists v :: (v in vs && v.id == MatchingIds(vs, companies, cats, q)[k] && v.val.isActive
      && (q.category == SeasonalKey ==> v.val.isSeasonal)
      && (q.kind == "seasonal" ==> v.val.isSeasonal)
      && (q.kind == "permanent" ==> !v.val.isSeasonal))
  {
    var w := Where(vs, SelectsFilter(companies, CategoryKey(cats, q.category), q));
    assert w[k] in w;
  }

  /** A category value no category carries does not narrow the list: the category test is dropped. */
  lemma UnknownCategoryIgnored(vs: seq<Row<Vacancy>>, companies: seq<Row<Company>>, cats: seq<Row<Category>>, q: Query)
    requires forall c :: c in cats ==> !Text.EqualsIgnoreCase(c.val.name, q.category)
    requires q.category != SeasonalKey
    ensures MatchingIds(vs, companies, cats, q) == MatchingIds(vs, companies, cats, q.(category := AllKey))
  {
    assert CategoryKey(cats, q.category) == CategoryKey(cats, AllKey);
    WhereCongruent(vs, SelectsFilter(companies, None, q), SelectsFilter(companies, None, q.(category := AllKey)));
  }

  // ----- the cards of a page -----

  /** The card of the vacancy stored under `id`, or nothing when there is none. */
  function CardAt(vs: seq<Row<Vacancy>>, companies: seq<Row<Company>>, tags: seq<Row<Tag>>, links: seq<Row<VacancyTag>>): int -> seq<Card>
  {
    (id: int) => match GetById(vs, id)
      case Some(v) => [ListCard(Row(id, v), companies, tags, links)]
      case None => []
  }

  /** The cards of the page ids, skipping ids whose vacancy is gone. */
  function CardsOf(ids: seq<int>, vs: seq<Row<Vacancy>>, companies: seq<Row<Company>>, tags: seq<Row<Tag>>,
                   links: seq<Row<VacancyTag>>): (r: seq<Card>)
    ensures forall c :: c in r ==>
      exists id :: id in ids && GetById(vs, id).Some? && c == ListCard(Row(id, GetById(vs, id).value), companies, tags, links)
  {
    FlatMapMembers(ids, CardAt(vs, companies, tags, links));
    FlatMap(ids, CardAt(vs, companies, tags, links))
  }

  /** `LoadVacanciesAsync`'s loop: look each id up and add a card when the vacancy is there. */
  method BuildCards(ids: seq<int>, vs: seq<Row<Vacancy>>, companies: seq<Row<Company>>, tags: seq<Row<Tag>>,
                    links: seq<Row<VacancyTag>>) returns (cards: seq<Card>)
    ensures cards == CardsOf(ids, vs, companies, tags, links)
  {
    cards := [];
    for k := 0 to |ids|
      invariant cards == FlatMap(ids[..k], CardAt(vs, companies, tags, links))
    {
      assert ids[..k + 1][..k] == ids[..k];
      var vacancy := GetById(vs, ids[k]);
      if vacancy.Some? {
        cards := cards + [ListCard(Row(ids[k], vacancy.value), companies, tags, links)];
      }
    }
    assert ids[..|ids|] == ids;
  }

  /**
   * Ids whose vacancy is missing are skipped: there are never more cards than
   * ids, each card is a stored vacancy's, and when every id is stored each
   * id gives its card in order.
   */
  lemma {:induction false} CardsSkipMissing(ids: seq<int>, vs: seq<Row<Vacancy>>, companies: seq<Row<Company>>,
                                            tags: seq<Row<Tag>>, links: seq<Row<VacancyTag>>)
    ensures |CardsOf(ids, vs, companies, tags, links)| <= |ids|
    ensures forall c :: c in CardsOf(ids, vs, companies, tags, links) ==> c.id in ids && c.id in Ids(vs)
    ensures (forall id :: id in ids ==> id in Ids(vs)) ==> |CardsOf(ids, vs, companies, tags, links)| == |ids|
  {
    if ids != [] {
      var init, last := ids[..|ids| - 1], ids[|ids| - 1];
      CardsSkipMissing(init, vs, companies, tags, links);
      assert ids == init + [last];
      forall c | c in CardsOf(ids, vs, companies, tags, links) ensures c.id in ids && c.id in Ids(vs) {
        if c in CardsOf(init, vs, companies, tags, links) {
          assert c.id in init;
        }
      }
      if forall id :: id in ids ==> id in Ids(vs) {
        assert last in ids;
        forall id | id in init ensures id in Ids(vs) {
          assert id in ids;
        }
      }
    }
  }

  /**
   * A page shows at most six cards, and each is a stored vacancy the
   * filter selected.
   */
  lemma PageCardsMatch(vs: seq<Row<Vacancy>>, companies: seq<Row<Company>>, cats: seq<Row<Category>>,
                       tags: seq<Row<Tag>>, links: seq<Row<VacancyTag>>, q: Query, page: int)
    ensures var ids := MatchingIds(vs, companies, cats, q);
      var cards := CardsOf(PageWindow(ids, page, PageSize), vs, companies, tags, links);
      |cards| <= PageSize && forall c :: c in cards ==> c.id in ids && c.id in Ids(vs)
  {
    var ids := MatchingIds(vs, companies, cats, q);
    WindowWithin(ids, page, PageSize);
    CardsSkipMissing(PageWindow(ids, page, PageSize), vs, companies, tags, links);
  }

  // ----- the headline -----

  const DefaultTitle := "Вакансии в АПК"

  /** `GetCategoryTitle`: a headline for each known category value, and a general one for anything else. */
  function CategoryTitle(category: string): (r: string)
    ensures category !in {"all", "сезонные", "агроном", "ветеринар", "механизатор", "технолог", "инженер"} ==> r == DefaultTitle
    ensures category in {"all", "сезонные", "агроном", "ветеринар", "механизатор", "технолог", "инженер"} ==> r != DefaultTitle
  {
    match category
    case "all" => "Все вакансии агропромышленного комплекса"
    case "сезонные" => "Сезонные вакансии в сельском хозяйстве"
    case "агроном" => "Вакансии для агрономов"
    case "ветеринар" => "Вакансии для ветеринаров"
    case "механизатор" => "Вакансии для механизаторов"
    case "технолог" => "Вакансии для технологов"
    case "инженер" => "Вакансии для инженеров"
    case _ => DefaultTitle
  }

  // ----- the page -----

  /** The ids, the page count, the clamped page and the cards of `LoadVacanciesAsync`. */
  method LoadVacancies(vs: seq<Row<Vacancy>>, companies: seq<Row<Company>>, cats: seq<Row<Category>>,
                       tags: seq<Row<Tag>>, links: seq<Row<VacancyTag>>, q: Query, page: int)
    returns (pages: nat, current: int, cards: seq<Card>)
    ensures pages == TotalPages(|MatchingIds(vs, companies, cats, q)|, PageSize)
    ensures current == ClampPage(page, pages)
    ensures cards == CardsOf(PageWindow(MatchingIds(vs, companies, cats, q), current, PageSize), vs, companies, tags, links)
  {
    var ids := MatchingIds(vs, companies, cats, q);
    pages := TotalPages(|ids|, PageSize);
    current := page;
    if current < 1 {
      current := 1;
    }
    if current > pages && pages > 0 {
      current := pages;
    }
    cards := BuildCards(PageWindow(ids, current, PageSize), vs, companies, tags, links);
  }

  /** What a request shows: the clamped page, the page count, the counters and the cards. */
  datatype Listing = Listing(page: int, totalPages: nat, counters: Counters, cards: seq<Card>)

  /** The listing `OnGetAsync` builds for a query and a requested page. */
  function ListingOf(vs: seq<Row<Vacancy>>, companies: seq<Row<Company>>, cats: seq<Row<Category>>,
                     tags: seq<Row<Tag>>, links: seq<Row<VacancyTag>>, q: Query, page: int): (r: Listing)
    ensures r.counters == CountersOf(vs)
    ensures r.totalPages == 0 <==> MatchingIds(vs, companies, cats, q) == []
    ensures r.page >= 1 && (r.totalPages > 0 ==> r.page <= r.totalPages)
    ensures 1 <= page <= r.totalPages ==> r.page == page
    ensures |r.cards| <= PageSize
    ensures forall c :: c in r.cards ==> c.id in MatchingIds(vs, companies, cats, q)
  {
    PageCardsMatch(vs, companies, cats, tags, links, q, ClampPage(page, TotalPages(|MatchingIds(vs, companies, cats, q)|, PageSize)));
    var ids := MatchingIds(vs, companies, cats, q);
    var pages := TotalPages(|ids|, PageSize);
    var current := ClampPage(page, pages);
    Listing(current, pages, CountersOf(vs), CardsOf(PageWindow(ids, current, PageSize), vs, companies, tags, links))
  }

  class VacanciesModel {
    var category: string
    var search: string
    var kind: string
    var page: int
    var totalPages: nat
    var counters: Counters
    var filteredVacancies: seq<Card>

    /** A request with its query values. */
    constructor (category: string, search: string, kind: string, page: int)
      ensures this.category == category && this.search == search && this.kind == kind && this.page == page
      ensures totalPages == 0 && counters == Counters(0, 0, 0, 0, 0, 0, 0) && filteredVacancies == []
    {
      this.category, this.search, this.kind, this.page := category, search, kind, page;
      totalPages, counters, filteredVacancies := 0, Counters(0, 0, 0, 0, 0, 0, 0), [];
    }

    function Shown(): Listing
      reads this
    {
      Listing(page, totalPages, counters, filteredVacancies)
    }

    function Asked(): Query
      reads this
    {
      Query(category, search, kind)
    }

    method Show(l: Listing)
      modifies this
      ensures Shown() == l && Asked() == old(Asked())
    {
      page := l.page;
      totalPages := l.totalPages;
      counters := l.counters;
      filteredVacancies := l.cards;
    }

    /** `OnGetAsync`: the counters, then the filtered page of cards; the query values stay, the page is clamped. */
    method OnGet(db: Db)
      modifies this
      ensures Asked() == old(Asked())
      ensures Shown() == ListingOf(db.vacancies, db.companies, db.categories, db.tags, db.vacancyTags, Asked(), old(page))
    {
      var q := Asked();
      var pages, current, cards := LoadVacancies(db.vacancies, db.companies, db.categories, db.tags, db.vacancyTags, q, page);
      Show(Listing(current, pages, CountersOf(db.vacancies), cards));
    }
  }
}
