/**
 * The requirement repository: a vacancy's requirements in key order, the
 * removal of all of them, and the insertion of a cleaned list of texts.
 */
module RequirementRepository {
  import opened Wrappers
  import opened Tables
  import opened Entities
  import opened Store
  import Text

  function OfVacancyFilter(vacancyId: int): Requirement -> bool
  {
    (q: Requirement) => q.vacancyId == vacancyId
  }

  /** `GetRequirementsByVacancyAsync`: the vacancy's requirements, by ascending key. */
  function ByVacancy(rs: seq<Row<Requirement>>, vacancyId: int): (r: seq<Row<Requirement>>)
    ensures forall x :: x in r <==> x in rs && x.val.vacancyId == vacancyId
    ensures Increasing(rs) ==> Increasing(r)
  {
    Where(rs, OfVacancyFilter(vacancyId))
  }

  /** The texts of the listed requirements, in order. */
  function TextsOf(rs: seq<Row<Requirement>>): seq<string>
  {
    seq(|rs|, k requires 0 <= k < |rs| => rs[k].val.text)
  }

  /** The rows `AddRangeToVacancyAsync` appends for `texts`: one per text, under consecutive keys from `first`. */
  function NewRows(texts: seq<string>, vacancyId: int, first: int): seq<Row<Requirement>>
  {
    seq(|texts|, k requires 0 <= k < |texts| => Row(first + k, Requirement(texts[k], vacancyId)))
  }

  lemma NewRowsAppend(a: seq<string>, b: seq<string>, vacancyId: int, first: int)
    ensures NewRows(a + b, vacancyId, first) == NewRows(a, vacancyId, first) + NewRows(b, vacancyId, first + |a|)
  {
  }

  /** Removing the requirements of a vacancy that has none leaves the table as it is. */
  lemma NothingOutside(rs: seq<Row<Requirement>>, vacancyId: int)
    requires ByVacancy(rs, vacancyId) == []
    ensures RequirementsOutside(rs, vacancyId) == rs
  {
    assert forall k :: 0 <= k < |rs| ==> rs[k] in rs && rs[k] !in ByVacancy(rs, vacancyId);
    WhereAll(rs, RequirementOutsideFilter(vacancyId));
  }

  /**
   * `DeleteAllByVacancyAsync`: false and no change when the vacancy has no
   * requirement; otherwise all of them go, every other vacancy's stay, and
   * the answer is true.
   */
  method DeleteAll(db: Db, vacancyId: int) returns (deleted: bool)
    requires db.Valid()
    modifies db
    ensures db.Valid()
    ensures deleted <==> ByVacancy(old(db.requirements), vacancyId) != []
    ensures !deleted ==> unchanged(db)
    ensures deleted ==> db.State() == old(db.State()).(requirements := RequirementsOutside(old(db.requirements), vacancyId))
  {
    if ByVacancy(db.requirements, vacancyId) == [] {
      return false;
    }
    db.RemoveRequirementsOf(vacancyId);
    deleted := true;
  }

  /** The loop of `AddRangeToVacancyAsync`: one requirement per text, in order, each under the next key. */
  method AddTexts(db: Db, vacancyId: int, cleaned: seq<string>) returns (ids: seq<int>)
    requires db.Valid() && vacancyId in Ids(db.vacancies)
    modifies db
    ensures db.Valid()
    ensures ids == Consecutive(old(db.nextId), |cleaned|)
    ensures db.State() == old(db.State()).(
      requirements := old(db.requirements) + NewRows(cleaned, vacancyId, old(db.nextId)),
      nextId := old(db.nextId) + |ids|)
  {
    ids := [];
    for i := 0 to |cleaned|
      invariant db.Valid() && vacancyId in Ids(db.vacancies)
      invariant db.nextId == old(db.nextId) + i
      invariant ids == Consecutive(old(db.nextId), i)
      invariant db.requirements == old(db.requirements) + NewRows(cleaned[..i], vacancyId, old(db.nextId))
      invariant db.State() == old(db.State()).(requirements := db.requirements, nextId := db.nextId)
    {
      var id := db.AddRequirement(Requirement(cleaned[i], vacancyId));
      assert cleaned[..i + 1] == cleaned[..i] + [cleaned[i]];
      NewRowsAppend(cleaned[..i], [cleaned[i]], vacancyId, old(db.nextId));
      ConsecutiveSnoc(old(db.nextId), i);
      ids := ids + [id];
    }
    assert cleaned[..|cleaned|] == cleaned;
  }

  /**
   * `AddRangeToVacancyAsync`: one requirement per non-blank text, trimmed, in
   * input order, each under the next key; the keys come back in the same
   * order.
   */
  method AddRange(db: Db, vacancyId: int, texts: seq<Option<string>>) returns (ids: seq<int>)
    requires db.Valid() && vacancyId in Ids(db.vacancies)
    modifies db
    ensures db.Valid()
    ensures ids == Consecutive(old(db.nextId), |Text.TrimmedNonBlank(texts)|)
    ensures db.State() == old(db.State()).(
      requirements := old(db.requirements) + NewRows(Text.TrimmedNonBlank(texts), vacancyId, old(db.nextId)),
      nextId := old(db.nextId) + |ids|)
  {
    ids := AddTexts(db, vacancyId, Text.TrimmedNonBlank(texts));
  }

  /**
   * The edit's wholesale replacement: after all of the vacancy's
   * requirements are removed and the cleaned list is added, the vacancy's
   * listing holds exactly that list, in order.
   */
  lemma ReplacedListing(rs: seq<Row<Requirement>>, after: seq<Row<Requirement>>, vacancyId: int, texts: seq<string>, first: int)
    requires after == RequirementsOutside(rs, vacancyId) + NewRows(texts, vacancyId, first)
    ensures TextsOf(ByVacancy(after, vacancyId)) == texts
  {
    ListsOnlyAdded(rs, vacancyId, texts, first);
  }

  lemma ListsOnlyAdded(rs: seq<Row<Requirement>>, vacancyId: int, texts: seq<string>, first: int)
    ensures TextsOf(ByVacancy(RequirementsOutside(rs, vacancyId) + NewRows(texts, vacancyId, first), vacancyId)) == texts
  {
    var kept, added := RequirementsOutside(rs, vacancyId), NewRows(texts, vacancyId, first);
    var p := OfVacancyFilter(vacancyId);
    assert forall k :: 0 <= k < |added| ==> p(added[k].val);
    assert forall x :: x in kept ==> !p(x.val);
    WhereSplit(kept, added, p);
    assert TextsOf(added) == texts;
  }

  /** Texts added for a vacancy that had no requirement are exactly its listing, in order. */
  lemma AddedListing(rs: seq<Row<Requirement>>, after: seq<Row<Requirement>>, vacancyId: int, texts: seq<string>, first: int)
    requires ByVacancy(rs, vacancyId) == [] && after == rs + NewRows(texts, vacancyId, first)
    ensures TextsOf(ByVacancy(after, vacancyId)) == texts
  {
    NothingOutside(rs, vacancyId);
    ReplacedListing(rs, after, vacancyId, texts, first);
  }
}

/**
 * The offer repository, the same three operations on the offers of a
 * vacancy (the working conditions it lists).
 */
module OfferRepository {
  import opened Wrappers
  import opened Tables
  import opened Entities
  import opened Store
  import Text

  function OfVacancyFilter(vacancyId: int): Offer -> bool
  {
    (o: Offer) => o.vacancyId == vacancyId
  }

  /** `GetOffersByVacancyAsync`: the vacancy's offers, by ascending key. */
  function ByVacancy(os: seq<Row<Offer>>, vacancyId: int): (r: seq<Row<Offer>>)
    ensures forall x :: x in r <==> x in os && x.val.vacancyId == vacancyId
    ensures Increasing(os) ==> Increasing(r)
  {
    Where(os, OfVacancyFilter(vacancyId))
  }

  function TextsOf(os: seq<Row<Offer>>): seq<string>
  {
    seq(|os|, k requires 0 <= k < |os| => os[k].val.text)
  }

  function NewRows(texts: seq<string>, vacancyId: int, first: int): seq<Row<Offer>>
  {
    seq(|texts|, k requires 0 <= k < |texts| => Row(first + k, Offer(texts[k], vacancyId)))
  }

  lemma NewRowsAppend(a: seq<string>, b: seq<string>, vacancyId: int, first: int)
    ensures NewRows(a + b, vacancyId, first) == NewRows(a, vacancyId, first) + NewRows(b, vacancyId, first + |a|)
  {
  }

  /** Removing the offers of a vacancy that has none leaves the table as it is. */
  lemma NothingOutside(os: seq<Row<Offer>>, vacancyId: int)
    requires ByVacancy(os, vacancyId) == []
    ensures OffersOutside(os, vacancyId) == os
  {
    assert forall k :: 0 <= k < |os| ==> os[k] in os && os[k] !in ByVacancy(os, vacancyId);
    WhereAll(os, OfferOutsideFilter(vacancyId));
  }

  /** `DeleteAllByVacancyAsync`: false and no change when the vacancy has no offer; otherwise only its offers go. */
  method DeleteAll(db: Db, vacancyId: int) returns (deleted: bool)
    requires db.Valid()
    modifies db
    ensures db.Valid()
    ensures deleted <==> ByVacancy(old(db.offers), vacancyId) != []
    ensures !deleted ==> unchanged(db)
    ensures deleted ==> db.State() == old(db.State()).(offers := OffersOutside(old(db.offers), vacancyId))
  {
    if ByVacancy(db.offers, vacancyId) == [] {
      return false;
    }
    db.RemoveOffersOf(vacancyId);
    deleted := true;
  }

  /** The loop of `AddRangeToVacancyAsync`: one offer per text, in order, each under the next key. */
  method AddTexts(db: Db, vacancyId: int, cleaned: seq<string>) returns (ids: seq<int>)
    requires db.Valid() && vacancyId in Ids(db.vacancies)
    modifies db
    ensures db.Valid()
    ensures ids == Consecutive(old(db.nextId), |cleaned|)
    ensures db.State() == old(db.State()).(
      offers := old(db.offers) + NewRows(cleaned, vacancyId, old(db.nextId)),
      nextId := old(db.nextId) + |ids|)
  {
    ids := [];
    for i := 0 to |cleaned|
      invariant db.Valid() && vacancyId in Ids(db.vacancies)
      invariant db.nextId == old(db.nextId) + i
      invariant ids == Consecutive(old(db.nextId), i)
      invariant db.offers == old(db.offers) + NewRows(cleaned[..i], vacancyId, old(db.nextId))
      invariant db.State() == old(db.State()).(offers := db.offers, nextId := db.nextId)
    {
      var id := db.AddOffer(Offer(cleaned[i], vacancyId));
      assert cleaned[..i + 1] == cleaned[..i] + [cleaned[i]];
      NewRowsAppend(cleaned[..i], [cleaned[i]], vacancyId, old(db.nextId));
      ConsecutiveSnoc(old(db.nextId), i);
      ids := ids + [id];
    }
    assert cleaned[..|cleaned|] == cleaned;
  }

  /**
   * `AddRangeToVacancyAsync`: one offer per non-blank text, trimmed, in
   * input order, each under the next key; the keys come back in the same
   * order.
   */
  method AddRange(db: Db, vacancyId: int, texts: seq<Option<string>>) returns (ids: seq<int>)
    requires db.Valid() && vacancyId in Ids(db.vacancies)
    modifies db
    ensures db.Valid()
    ensures ids == Consecutive(old(db.nextId), |Text.TrimmedNonBlank(texts)|)
    ensures db.State() == old(db.State()).(
      offers := old(db.offers) + NewRows(Text.TrimmedNonBlank(texts), vacancyId, old(db.nextId)),
      nextId := old(db.nextId) + |ids|)
  {
    ids := AddTexts(db, vacancyId, Text.TrimmedNonBlank(texts));
  }

  /** After the edit's delete-all and add-range, the vacancy's offers are exactly the cleaned list, in order. */
  lemma ReplacedListing(os: seq<Row<Offer>>, after: seq<Row<Offer>>, vacancyId: int, texts: seq<string>, first: int)
    requires after == OffersOutside(os, vacancyId) + NewRows(texts, vacancyId, first)
    ensures TextsOf(ByVacancy(after, vacancyId)) == texts
  {
    ListsOnlyAdded(os, vacancyId, texts, first);
  }

  lemma ListsOnlyAdded(os: seq<Row<Offer>>, vacancyId: int, texts: seq<string>, first: int)
    ensures TextsOf(ByVacancy(OffersOutside(os, vacancyId) + NewRows(texts, vacancyId, first), vacancyId)) == texts
  {
    var kept, added := OffersOutside(os, vacancyId), NewRows(texts, vacancyId, first);
    var p := OfVacancyFilter(vacancyId);
    assert forall k :: 0 <= k < |added| ==> p(added[k].val);
    assert forall x :: x in kept ==> !p(x.val);
    WhereSplit(kept, added, p);
    assert TextsOf(added) == texts;
  }

  /** Texts added for a vacancy that had no offer are exactly its listing, in order. */
  lemma AddedListing(os: seq<Row<Offer>>, after: seq<Row<Offer>>, vacancyId: int, texts: seq<string>, first: int)
    requires ByVacancy(os, vacancyId) == [] && after == os + NewRows(texts, vacancyId, first)
    ensures TextsOf(ByVacancy(after, vacancyId)) == texts
  {
    NothingOutside(os, vacancyId);
    ReplacedListing(os, after, vacancyId, texts, first);
  }
}
