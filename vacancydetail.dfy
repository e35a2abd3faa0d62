/**
 * The public page of one vacancy: not found unless the vacancy exists and
 * is active; otherwise its card, its requirements and offers, and the
 * company's contacts.
 */
module VacancyDetailPage {
  import opened Wrappers
  import opened Tables
  import opened Entities
  import opened Store
  import opened Web
  import opened VacancyCards
  import RequirementRepository
  import OfferRepository

  /** `VacancyDetailViewModel`: the card plus the lists and the contacts. */
  datatype Detail = Detail(
    card: Card,
    requirements: seq<string>,
    offers: seq<string>,
    contactPerson: Option<string>,
    contactPhone: Option<string>,
    contactEmail: Option<string>)

  /** `Company?.ContactPerson`, `Company?.ContactPhone`, `Company?.ContactEmail`. */
  function ContactsOf(company: Option<Company>): (r: (Option<string>, Option<string>, Option<string>))
    ensures company.None? ==> r == (None, None, None)
    ensures company.Some? ==> r == (company.value.contactPerson, company.value.contactPhone, company.value.contactEmail)
  {
    match company
    case Some(c) => (c.contactPerson, c.contactPhone, c.contactEmail)
    case None => (None, None, None)
  }

  /** `MapToViewModel`; requirements and offers in key order. */
  function MapDetail(s: Snapshot, v: Row<Vacancy>): (r: Detail)
    ensures r.card == ListCard(v, s.companies, s.tags, s.vacancyTags)
    ensures r.card.id == v.id && r.card.title == v.val.title && r.card.salary == v.val.salary
    ensures |r.requirements| == |RequirementRepository.ByVacancy(s.requirements, v.id)|
    ensures forall k :: 0 <= k < |r.requirements| ==> r.requirements[k] == RequirementRepository.ByVacancy(s.requirements, v.id)[k].val.text
    ensures |r.offers| == |OfferRepository.ByVacancy(s.offers, v.id)|
    ensures forall k :: 0 <= k < |r.offers| ==> r.offers[k] == OfferRepository.ByVacancy(s.offers, v.id)[k].val.text
    ensures GetById(s.companies, v.val.companyId).Some? ==>
      var c := GetById(s.companies, v.val.companyId).value;
      r.contactPerson == c.contactPerson && r.contactPhone == c.contactPhone && r.contactEmail == c.contactEmail
    ensures GetById(s.companies, v.val.companyId).None? ==>
      r.contactPerson.None? && r.contactPhone.None? && r.contactEmail.None?
  {
    var contacts := ContactsOf(GetById(s.companies, v.val.companyId));
    Detail(ListCard(v, s.companies, s.tags, s.vacancyTags),
           RequirementRepository.TextsOf(RequirementRepository.ByVacancy(s.requirements, v.id)),
           OfferRepository.TextsOf(OfferRepository.ByVacancy(s.offers, v.id)),
           contacts.0, contacts.1, contacts.2)
  }

  /** `OnGetAsync`'s outcome: the detail of a stored active vacancy, and nothing otherwise. */
  function DetailOf(s: Snapshot, id: int): (r: Option<Detail>)
    ensures r.Some? <==> GetById(s.vacancies, id).Some? && GetById(s.vacancies, id).value.isActive
    ensures r.Some? ==> r.value == MapDetail(s, Row(id, GetById(s.vacancies, id).value))
  {
    match GetById(s.vacancies, id)
    case Some(v) => if v.isActive then Some(MapDetail(s, Row(id, v))) else None
    case None => None
  }

  /** The requirements show every requirement stored for the vacancy and nothing else. */
  lemma RequirementsComplete(s: Snapshot, id: int)
    requires DetailOf(s, id).Some?
    ensures forall t :: (t in DetailOf(s, id).value.requirements
      <==> exists q :: q in s.requirements && q.val.vacancyId == id && q.val.text == t)
  {
    var rs := RequirementRepository.ByVacancy(s.requirements, id);
    assert forall k :: 0 <= k < |rs| ==> rs[k] in rs;
    forall t | exists q :: q in s.requirements && q.val.vacancyId == id && q.val.text == t
      ensures t in RequirementRepository.TextsOf(rs)
    {
      var q :| q in s.requirements && q.val.vacancyId == id && q.val.text == t;
      var k :| 0 <= k < |rs| && rs[k] == q;
      assert RequirementRepository.TextsOf(rs)[k] == t;
    }
  }

  /** The offers show every offer stored for the vacancy and nothing else. */
  lemma OffersComplete(s: Snapshot, id: int)
    requires DetailOf(s, id).Some?
    ensures forall t :: (t in DetailOf(s, id).value.offers
      <==> exists o :: o in s.offers && o.val.vacancyId == id && o.val.text == t)
  {
    var os := OfferRepository.ByVacancy(s.offers, id);
    assert forall k :: 0 <= k < |os| ==> os[k] in os;
    forall t | exists o :: o in s.offers && o.val.vacancyId == id && o.val.text == t
      ensures t in OfferRepository.TextsOf(os)
    {
      var o :| o in s.offers && o.val.vacancyId == id && o.val.text == t;
      var k :| 0 <= k < |os| && os[k] == o;
      assert OfferRepository.TextsOf(os)[k] == t;
    }
  }

  /**
   * In a consistent store the vacancy's company exists, so the page names
   * it and shows its contacts, and the card shows no empty tag name.
   */
  lemma DetailNamesCompany(s: Snapshot, id: int)
    requires Consistent(s) && DetailOf(s, id).Some?
    ensures var d := DetailOf(s, id).value;
      var v := GetById(s.vacancies, id).value;
      exists c :: Row(v.companyId, c) in s.companies
        && d.card.company == c.name
        && d.contactPerson == c.contactPerson && d.contactPhone == c.contactPhone && d.contactEmail == c.contactEmail
    ensures "" !in DetailOf(s, id).value.card.tags
  {
    var v := GetById(s.vacancies, id).value;
    assert Row(id, v) in s.vacancies;
    var c := GetById(s.companies, v.companyId).value;
    assert Row(v.companyId, c) in s.companies;
  }

  class VacancyDetailModel {
    var id: int
    var vacancy: Option<Detail>

    /** A request for the vacancy under `id`. */
    constructor (id: int)
      ensures this.id == id && vacancy.None?
    {
      this.id := id;
      vacancy := None;
    }

    /** `OnGetAsync`: not found for a missing or inactive vacancy; otherwise the page with its detail. */
    method OnGet(db: Db, requested: int) returns (resp: Response)
      modifies this
      ensures resp == (if DetailOf(db.State(), requested).Some? then ShowPage else NotFound)
      ensures DetailOf(db.State(), requested).Some? ==> vacancy == DetailOf(db.State(), requested)
      ensures DetailOf(db.State(), requested).None? ==> vacancy == old(vacancy)
      ensures id == old(id)
    {
      var found := DetailOf(db.State(), requested);
      if found.None? {
        return NotFound;
      }
      vacancy := found;
      resp := ShowPage;
    }
  }
}
