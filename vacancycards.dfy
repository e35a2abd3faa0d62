/**
 * The vacancy card the public listings show (`VacancyViewModel`) and the
 * pieces the listing and detail pages build it from: the company's name
 * with its fallback and the names of the vacancy's tags.
 */
module VacancyCards {
  import opened Wrappers
  import opened Seqs
  import opened Tables
  import opened Entities
  import TagRepository
  import CompanyRepository

  const NotGiven := "Не указано"

  /** `VacancyViewModel`; the posting time is kept as stored, not as the relative text the page prints. */
  datatype Card = Card(
    id: int,
    title: string,
    company: string,
    location: string,
    salary: string,
    tags: seq<string>,
    category: string,
    postedDate: int,
    isSeasonal: bool,
    description: string)

  function Names(ts: seq<Row<Tag>>): (r: seq<string>)
    ensures |r| == |ts|
    ensures forall i :: 0 <= i < |ts| ==> r[i] == ts[i].val.name
  {
    seq(|ts|, i requires 0 <= i < |ts| => ts[i].val.name)
  }

  /** `VacancyTags.Select(vt => vt.Tag.Name)`: the names of the vacancy's tags, in link order. */
  function TagNames(tags: seq<Row<Tag>>, links: seq<Row<VacancyTag>>, vacancyId: int): seq<string>
  {
    Names(TagRepository.ByVacancy(tags, links, vacancyId))
  }

  /** `.Where(t => !string.IsNullOrEmpty(t))`. */
  function NonEmpty(names: seq<string>): (r: seq<string>)
    ensures forall s :: s in r <==> s in names && s != ""
  {
    if names == [] then []
    else
      var init, last := names[..|names| - 1], names[|names| - 1];
      assert names == init + [last];
      NonEmpty(init) + if last != "" then [last] else []
  }

  /** The filter goes name by name: it keeps the order of what it keeps. */
  lemma {:induction false} NonEmptyAppend(a: seq<string>, b: seq<string>)
    ensures NonEmpty(a + b) == NonEmpty(a) + NonEmpty(b)
  {
    if b == [] {
      assert a + b == a;
    } else {
      var init, last := b[..|b| - 1], b[|b| - 1];
      var tail := if last != "" then [last] else [];
      NonEmptyAppend(a, init);
      assert (a + b)[..|a + b| - 1] == a + init;
      assert (a + b)[|a + b| - 1] == last;
      assert NonEmpty(a + b) == NonEmpty(a + init) + tail;
      assert NonEmpty(b) == NonEmpty(init) + tail;
    }
  }

  /** One name stays exactly when it is not empty. */
  lemma NonEmptyOne(s: string)
    ensures NonEmpty([s]) == if s == "" then [] else [s]
  {
    assert [s][..0] == [];
  }

  /** When no name is empty, nothing is dropped. */
  lemma {:induction false} NonEmptyKeepsAll(names: seq<string>)
    requires forall s :: s in names ==> s != ""
    ensures NonEmpty(names) == names
  {
    if names != [] {
      var init, last := names[..|names| - 1], names[|names| - 1];
      assert names == init + [last];
      assert last in names;
      forall s | s in init ensures s != "" {
        assert s in names;
      }
      NonEmptyKeepsAll(init);
    }
  }

  /** One card; the salary, location and category are the vacancy's own texts, and empty tag names are dropped. */
  function ListCard(v: Row<Vacancy>, companies: seq<Row<Company>>, tags: seq<Row<Tag>>, links: seq<Row<VacancyTag>>): (c: Card)
    ensures c.id == v.id && c.title == v.val.title && c.description == v.val.description
    ensures c.company == CompanyRepository.CompanyNameOr(companies, v.val.companyId, NotGiven)
    ensures c.salary == v.val.salary && c.location == v.val.location && c.category == v.val.category
    ensures c.tags == NonEmpty(TagNames(tags, links, v.id))
    ensures c.isSeasonal == v.val.isSeasonal && c.postedDate == v.val.postedDate
  {
    Card(v.id, v.val.title, CompanyRepository.CompanyNameOr(companies, v.val.companyId, NotGiven), v.val.location, v.val.salary,
         NonEmpty(TagNames(tags, links, v.id)), v.val.category, v.val.postedDate, v.val.isSeasonal, v.val.description)
  }
}
