/**
 * The start-up seed: the reference tables (categories, locations, tags),
 * each filled only while it is empty; the tag lookup the sample vacancies
 * use; and the clean-up that empties the seeded tables.
 */
module DbSeed {
  import opened Wrappers
  import opened Seqs
  import opened Tables
  import opened Entities
  import opened Store

  const CategorySeed: seq<Category> := [
    Category("Агроном", Some("Специалисты в области растениеводства")),
    Category("Ветеринар", Some("Специалисты по здоровью животных")),
    Category("Механизатор", Some("Операторы сельхозтехники")),
    Category("Технолог", Some("Специалисты по переработке")),
    Category("Инженер", Some("Инженерно-технические специалисты"))
  ]

  const LocationSeed: seq<Location> := [
    Location("Москва", Some("Московская обл.")),
    Location("Краснодар", Some("Краснодарский край")),
    Location("Ростов-на-Дону", Some("Ростовская обл.")),
    Location("Воронеж", Some("Воронежская обл.")),
    Location("Белгород", Some("Белгородская обл.")),
    Location("Ставрополь", Some("Ставропольский край")),
    Location("Казань", Some("Татарстан")),
    Location("Саратов", Some("Саратовская обл."))
  ]

  const TagSeed: seq<Tag> := [
    Tag("сезонная работа"), Tag("постоянная работа"), Tag("без опыта"), Tag("опыт от 1 года"),
    Tag("опыт от 3 лет"), Tag("опыт от 5 лет"), Tag("жилье"), Tag("питание"), Tag("вахта"),
    Tag("полный день"), Tag("гибкий график"), Tag("удаленная работа"),
    Tag("официальное трудоустройство"), Tag("ДМС"), Tag("обучение"), Tag("карьерный рост"),
    Tag("премии"), Tag("спецтехника"), Tag("растениеводство"), Tag("животноводство"), Tag("птицеводство")
  ]

  /** The seed sizes: five categories, eight locations, twenty-one tags, each fitting its columns. */
  lemma SeedSizes()
    ensures |CategorySeed| == 5 && |LocationSeed| == 8 && |TagSeed| == 21
    ensures forall k :: 0 <= k < |CategorySeed| ==> CategoryFits(CategorySeed[k])
    ensures forall k :: 0 <= k < |LocationSeed| ==> LocationFits(LocationSeed[k])
    ensures forall k :: 0 <= k < |TagSeed| ==> TagFits(TagSeed[k])
  {
  }

  /** No two seeded categories share a name, so the unique name index accepts them. */
  lemma CategoryNamesDistinct()
    ensures forall i, j :: 0 <= i < j < |CategorySeed| ==> CategorySeed[i].name != CategorySeed[j].name
  {
  }

  /** No two seeded tags share a name, so the unique name index accepts them. */
  lemma TagNamesDistinct()
    ensures forall i, j :: 0 <= i < j < |TagSeed| ==> TagSeed[i].name != TagSeed[j].name
  {
  }

  /** `vals` stored one after another from key `first`. */
  function SeedRows<T>(vals: seq<T>, first: int): (r: seq<Row<T>>)
    ensures |r| == |vals|
    ensures forall k :: 0 <= k < |vals| ==> r[k] == Row(first + k, vals[k])
  {
    seq(|vals|, k requires 0 <= k < |vals| => Row(first + k, vals[k]))
  }

  /** The next seeded category's name is not among those already stored. */
  lemma FreshCategoryName(seed: seq<Category>, first: int, k: nat)
    requires k < |seed| && forall i, j :: 0 <= i < j < |seed| ==> seed[i].name != seed[j].name
    ensures !CategoryNamed(SeedRows(seed[..k], first), seed[k].name)
  {
    var rows := SeedRows(seed[..k], first);
    forall c | c in rows ensures c.val.name != seed[k].name {
      var j :| 0 <= j < k && rows[j] == c;
    }
  }

  /** The next seeded tag's name is not among those already stored. */
  lemma FreshTagName(seed: seq<Tag>, first: int, k: nat)
    requires k < |seed| && forall i, j :: 0 <= i < j < |seed| ==> seed[i].name != seed[j].name
    ensures !TagNamed(SeedRows(seed[..k], first), seed[k].name)
  {
    var rows := SeedRows(seed[..k], first);
    forall t | t in rows ensures t.val.name != seed[k].name {
      var j :| 0 <= j < k && rows[j] == t;
    }
  }

  lemma SeedRowsSnoc<T>(vals: seq<T>, first: int, k: nat)
    requires k < |vals|
    ensures SeedRows(vals[..k + 1], first) == SeedRows(vals[..k], first) + [Row(first + k, vals[k])]
  {
  }

  /** `CreateCategories`: the five categories, only while the table is empty. */
  method SeedCategories(db: Db)
    requires db.Valid()
    modifies db
    ensures db.Valid()
    ensures old(db.categories) != [] ==> db.State() == old(db.State())
    ensures old(db.categories) == [] ==>
      db.State() == old(db.State()).(categories := SeedRows(CategorySeed, old(db.nextId)),
                                     nextId := old(db.nextId) + |CategorySeed|)
  {
    if db.categories != [] {
      return;
    }
    CategoryNamesDistinct();
    for k := 0 to |CategorySeed|
      invariant db.Valid()
      invariant db.categories == SeedRows(CategorySeed[..k], old(db.nextId))
      invariant db.State() == old(db.State()).(categories := db.categories, nextId := old(db.nextId) + k)
    {
      FreshCategoryName(CategorySeed, old(db.nextId), k);
      var _ := db.AddCategory(CategorySeed[k]);
      SeedRowsSnoc(CategorySeed, old(db.nextId), k);
    }
    assert CategorySeed[..|CategorySeed|] == CategorySeed;
  }

  /** `CreateLocations`: the eight locations, only while the table is empty. */
  method SeedLocations(db: Db)
    requires db.Valid()
    modifies db
    ensures db.Valid()
    ensures old(db.locations) != [] ==> db.State() == old(db.State())
    ensures old(db.locations) == [] ==>
      db.State() == old(db.State()).(locations := SeedRows(LocationSeed, old(db.nextId)),
                                     nextId := old(db.nextId) + |LocationSeed|)
  {
    if db.locations != [] {
      return;
    }
    for k := 0 to |LocationSeed|
      invariant db.Valid()
      invariant db.locations == SeedRows(LocationSeed[..k], old(db.nextId))
      invariant db.State() == old(db.State()).(locations := db.locations, nextId := old(db.nextId) + k)
    {
      var _ := db.AddLocation(LocationSeed[k]);
      SeedRowsSnoc(LocationSeed, old(db.nextId), k);
    }
    assert LocationSeed[..|LocationSeed|] == LocationSeed;
  }

  /** `CreateTags`: the twenty-one tags, only while the table is empty. */
  method SeedTags(db: Db)
    requires db.Valid()
    modifies db
    ensures db.Valid()
    ensures old(db.tags) != [] ==> db.State() == old(db.State())
    ensures old(db.tags) == [] ==>
      db.State() == old(db.State()).(tags := SeedRows(TagSeed, old(db.nextId)),
                                     nextId := old(db.nextId) + |TagSeed|)
  {
    if db.tags != [] {
      return;
    }
    TagNamesDistinct();
    for k := 0 to |TagSeed|
      invariant db.Valid()
      invariant db.tags == SeedRows(TagSeed[..k], old(db.nextId))
      invariant db.State() == old(db.State()).(tags := db.tags, nextId := old(db.nextId) + k)
    {
      FreshTagName(TagSeed, old(db.nextId), k);
      var _ := db.AddTag(TagSeed[k]);
      SeedRowsSnoc(TagSeed, old(db.nextId), k);
    }
    assert TagSeed[..|TagSeed|] == TagSeed;
  }

  /** The store after the three seeding steps, each applied only to an empty table. */
  function Seeded(s: Snapshot): (r: Snapshot)
    ensures r.categories != [] && r.locations != [] && r.tags != []
    ensures r.companies == s.companies && r.memberships == s.memberships && r.vacancies == s.vacancies
    ensures r.requirements == s.requirements && r.offers == s.offers && r.vacancyTags == s.vacancyTags
    ensures r.resumes == s.resumes && r.applications == s.applications
  {
    var s1 := if s.categories != [] then s
              else s.(categories := SeedRows(CategorySeed, s.nextId), nextId := s.nextId + |CategorySeed|);
    var s2 := if s1.locations != [] then s1
              else s1.(locations := SeedRows(LocationSeed, s1.nextId), nextId := s1.nextId + |LocationSeed|);
    if s2.tags != [] then s2
    else s2.(tags := SeedRows(TagSeed, s2.nextId), nextId := s2.nextId + |TagSeed|)
  }

  /** Seeding a seeded store adds nothing: every step finds its table filled. */
  lemma SeedTwice(s: Snapshot)
    ensures Seeded(Seeded(s)) == Seeded(s)
  {
  }

  /** Each empty table receives exactly its seed, under consecutive keys from the counter it finds. */
  lemma SeededContents(s: Snapshot)
    ensures s.categories == [] ==> Seeded(s).categories == SeedRows(CategorySeed, s.nextId)
    ensures s.categories != [] ==> Seeded(s).categories == s.categories
    ensures s.locations != [] ==> Seeded(s).locations == s.locations
    ensures s.tags != [] ==> Seeded(s).tags == s.tags
    ensures s.categories != [] && s.locations != [] && s.tags != [] ==> Seeded(s) == s
  {
  }

  /**
   * `Initialize`: categories, locations and tags, each seeded only when
   * empty. Afterwards none of the three is empty, so running it again adds
   * nothing.
   */
  method Initialize(db: Db)
    requires db.Valid()
    modifies db
    ensures db.Valid()
    ensures db.categories != [] && db.locations != [] && db.tags != []
    ensures old(db.categories) != [] && old(db.locations) != [] && old(db.tags) != [] ==> db.State() == old(db.State())
    ensures old(db.categories) == [] ==> |db.categories| == |CategorySeed|
    ensures old(db.locations) == [] ==> |db.locations| == |LocationSeed|
    ensures old(db.tags) == [] ==> |db.tags| == |TagSeed|
    ensures db.State() == Seeded(old(db.State()))
  {
    SeedCategories(db);
    SeedLocations(db);
    SeedTags(db);
  }

  // ----- the tag lookup of the sample vacancies -----

  function NameIsFilter(name: string): Tag -> bool
  {
    (t: Tag) => t.name == name
  }

  /** The key of the first tag named `name` (ordinal comparison), as a list of zero or one key. */
  function MatchTag(tags: seq<Row<Tag>>): string -> seq<int>
  {
    (name: string) => match FirstWhere(tags, NameIsFilter(name))
      case Some(i) => [tags[i].id]
      case None => []
  }

  /** `GetTagsForVacancy`'s result, as the keys of the linked tags. */
  function TagsFor(tags: seq<Row<Tag>>, names: seq<string>): seq<int>
  {
    FlatMap(names, MatchTag(tags))
  }

  /** `GetTagsForVacancy`: one link per name that some tag carries, in the order of the names. */
  method GetTagsForVacancy(tags: seq<Row<Tag>>, names: seq<string>) returns (links: seq<int>)
    ensures links == TagsFor(tags, names)
  {
    links := [];
    for k := 0 to |names|
      invariant links == FlatMap(names[..k], MatchTag(tags))
    {
      assert names[..k + 1][..k] == names[..k];
      var found := FirstWhere(tags, NameIsFilter(names[k]));
      if found.Some? {
        links := links + [tags[found.value].id];
      }
    }
    assert names[..|names|] == names;
  }

  /** At most one link per name, and exactly one per name when every name is some tag's. */
  lemma {:induction false} TagsForCount(tags: seq<Row<Tag>>, names: seq<string>)
    ensures |TagsFor(tags, names)| <= |names|
    ensures (forall n :: n in names ==> TagNamed(tags, n)) ==> |TagsFor(tags, names)| == |names|
  {
    if names != [] {
      var init, last := names[..|names| - 1], names[|names| - 1];
      assert forall n :: n in init ==> n in names;
      TagsForCount(tags, init);
      assert TagsFor(tags, names) == TagsFor(tags, init) + MatchTag(tags)(last);
      if TagNamed(tags, last) {
        var t :| t in tags && t.val.name == last;
        var i :| 0 <= i < |tags| && tags[i] == t;
        assert NameIsFilter(last)(tags[i].val);
      }
    }
  }

  /** Unknown names are skipped: every link is to a tag carrying one of the names. */
  lemma {:induction false} TagsForNamed(tags: seq<Row<Tag>>, names: seq<string>)
    ensures forall id :: id in TagsFor(tags, names) ==> exists t :: t in tags && t.id == id && t.val.name in names
  {
    if names != [] {
      var init, last := names[..|names| - 1], names[|names| - 1];
      TagsForNamed(tags, init);
      assert TagsFor(tags, names) == TagsFor(tags, init) + MatchTag(tags)(last);
      forall id | id in TagsFor(tags, names) ensures exists t :: t in tags && t.id == id && t.val.name in names {
        if id in TagsFor(tags, init) {
          var t :| t in tags && t.id == id && t.val.name in init;
          assert t.val.name in names;
        } else {
          var i := FirstWhere(tags, NameIsFilter(last)).value;
          assert tags[i] in tags && tags[i].val.name == last && last in names;
        }
      }
    }
  }

  // ----- the clean-up -----

  /** The tables of the seed, in the order `ClearExistingData` empties them. */
  datatype Table = Offers | Requirements | VacancyTags | Vacancies | Companies | Tags | Locations | Categories

  const ClearOrder: seq<Table> := [Offers, Requirements, VacancyTags, Vacancies, Companies, Tags, Locations, Categories]

  /** The foreign keys among those tables: `child` refers to `parent`. */
  predicate RefersTo(child: Table, parent: Table)
  {
    (child == Offers && parent == Vacancies)
    || (child == Requirements && parent == Vacancies)
    || (child == VacancyTags && (parent == Vacancies || parent == Tags))
    || (child == Vacancies && parent == Companies)
  }

  /** Every table is emptied before any table it refers to, and each of the eight is emptied once. */
  lemma ClearOrderRespectsKeys()
    ensures forall i, j :: 0 <= i < |ClearOrder| && 0 <= j < |ClearOrder| && RefersTo(ClearOrder[i], ClearOrder[j]) ==> i < j
    ensures forall i, j :: 0 <= i < j < |ClearOrder| ==> ClearOrder[i] != ClearOrder[j]
    ensures forall t: Table :: t in ClearOrder
  {
    forall t: Table ensures t in ClearOrder {
      match t
      case Offers => assert ClearOrder[0] == t;
      case Requirements => assert ClearOrder[1] == t;
      case VacancyTags => assert ClearOrder[2] == t;
      case Vacancies => assert ClearOrder[3] == t;
      case Companies => assert ClearOrder[4] == t;
      case Tags => assert ClearOrder[5] == t;
      case Locations => assert ClearOrder[6] == t;
      case Categories => assert ClearOrder[7] == t;
    }
  }

  /**
   * `ClearExistingData`: one save that empties the eight tables. Applications
   * and memberships are not cleared, and they refer to vacancies and companies
   * under a restrict rule: the save fails, changing nothing, unless both are
   * empty.
   */
  method ClearExistingData(db: Db) returns (saved: bool)
    requires db.Valid()
    modifies db
    ensures db.Valid()
    ensures saved <==> old(db.applications) == [] && old(db.memberships) == []
    ensures !saved ==> db.State() == old(db.State())
    ensures saved ==> db.State() == Cleared(old(db.State()))
  {
    if db.applications != [] || db.memberships != [] {
      return false;
    }
    db.ClearCatalog();
    saved := true;
  }
}
