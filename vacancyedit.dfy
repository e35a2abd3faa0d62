/**
 * The vacancy form. With a route id it saves the vacancy the form names
 * (its creator only): the fields are overwritten, the requirement and offer
 * lists are replaced wholesale, and the selected tags are attached. Without
 * one it creates a vacancy for a company the caller belongs to, first
 * copying the non-blank contact fields onto the company.
 */
module VacancyEditPage {
  import opened Wrappers
  import opened Seqs
  import opened Tables
  import opened Entities
  import opened Store
  import opened Web
  import Text
  import Requirements = RequirementRepository
  import Offers = OfferRepository
  import Tags = TagRepository

  const NoAccess := "У вас нет доступа к этой компании"
  const CompanyNotFound := "Компания не найдена"
  const VacancyUpdated := "Вакансия успешно обновлена"
  const VacancyCreated := "Вакансия успешно создана"
  /** The salary stored when the form leaves it empty. */
  const SalaryUnset := "Не указана"

  /** `InputModel`: the bound form. */
  datatype VacancyInput = VacancyInput(
    id: Option<int>,
    title: string,
    description: string,
    salary: Option<string>,
    isSeasonal: bool,
    companyId: int,
    requirements: seq<Option<string>>,
    offers: seq<Option<string>>,
    selectedTagIds: seq<int>,
    contactPerson: Option<string>,
    contactPhone: Option<string>,
    contactEmail: Option<string>)

  /** The tag keys linked to the vacancy, in link order. */
  function LinkedTagIds(links: seq<Row<VacancyTag>>, vacancyId: int): (r: seq<int>)
    ensures forall t :: t in r <==> Linked(links, vacancyId, t)
  {
    var w := Where(links, Tags.OfVacancyFilter(vacancyId));
    var r := seq(|w|, k requires 0 <= k < |w| => w[k].val.tagId);
    assert forall k :: 0 <= k < |w| ==> w[k] in w;
    assert forall t :: Linked(links, vacancyId, t) ==> t in r by {
      forall t | Linked(links, vacancyId, t) ensures t in r {
        var l :| l in links && l.val.vacancyId == vacancyId && l.val.tagId == t;
        assert l in w;
        var k :| 0 <= k < |w| && w[k] == l;
        assert r[k] == t;
      }
    }
    r
  }

  /**
   * The form `OnGetAsync` fills from a stored vacancy: its fields, the texts
   * of its requirements and offers, its linked tags, and the contacts of its
   * company when the company is there.
   */
  function InputOf(s: Snapshot, id: int, v: Vacancy, prev: VacancyInput): (r: VacancyInput)
    ensures r.id == Some(id) && r.title == v.title && r.description == v.description && r.salary == Some(v.salary)
    ensures r.isSeasonal == v.isSeasonal && r.companyId == v.companyId
    ensures r.selectedTagIds == LinkedTagIds(s.vacancyTags, id)
    ensures |r.requirements| == |Requirements.ByVacancy(s.requirements, id)|
    ensures |r.offers| == |Offers.ByVacancy(s.offers, id)|
    ensures forall k :: 0 <= k < |r.requirements| ==> r.requirements[k] == Some(Requirements.ByVacancy(s.requirements, id)[k].val.text)
    ensures forall k :: 0 <= k < |r.offers| ==> r.offers[k] == Some(Offers.ByVacancy(s.offers, id)[k].val.text)
    ensures GetById(s.companies, v.companyId).Some? ==>
      var c := GetById(s.companies, v.companyId).value;
      r.contactPerson == c.contactPerson && r.contactPhone == c.contactPhone && r.contactEmail == c.contactEmail
    ensures GetById(s.companies, v.companyId).None? ==>
      r.contactPerson == prev.contactPerson && r.contactPhone == prev.contactPhone && r.contactEmail == prev.contactEmail
  {
    var contacts := match GetById(s.companies, v.companyId)
      case Some(c) => (c.contactPerson, c.contactPhone, c.contactEmail)
      case None => (prev.contactPerson, prev.contactPhone, prev.contactEmail);
    VacancyInput(Some(id), v.title, v.description, Some(v.salary), v.isSeasonal, v.companyId,
                 Text.Somes(Requirements.TextsOf(Requirements.ByVacancy(s.requirements, id))),
                 Text.Somes(Offers.TextsOf(Offers.ByVacancy(s.offers, id))),
                 LinkedTagIds(s.vacancyTags, id),
                 contacts.0, contacts.1, contacts.2)
  }

  /**
   * The saved vacancy: the form's title, description, salary (or "Не
   * указана"), seasonal flag and company; views, date, activity, category,
   * location and creator stay as stored.
   */
  function Edited(v: Vacancy, input: VacancyInput): (r: Vacancy)
    ensures r.title == input.title && r.description == input.description
    ensures r.salary == if input.salary.Some? then input.salary.value else SalaryUnset
    ensures r.isSeasonal == input.isSeasonal && r.companyId == input.companyId
    ensures r.viewsCount == v.viewsCount && r.postedDate == v.postedDate && r.isActive == v.isActive
    ensures r.category == v.category && r.location == v.location && r.createdById == v.createdById
  {
    v.(title := input.title, description := input.description,
       salary := if input.salary.Some? then input.salary.value else SalaryUnset,
       isSeasonal := input.isSeasonal, companyId := input.companyId)
  }

  /**
   * Loading a vacancy into the form and saving it unchanged gives the same
   * vacancy, and requirement and offer lists whose texts are all clean come
   * back as they were.
   */
  lemma LoadSaveRoundTrip(s: Snapshot, id: int, v: Vacancy, prev: VacancyInput)
    ensures Edited(v, InputOf(s, id, v, prev)) == v
    ensures (forall t :: t in Requirements.TextsOf(Requirements.ByVacancy(s.requirements, id)) ==> Text.IsClean(t)) ==>
      Text.TrimmedNonBlank(InputOf(s, id, v, prev).requirements) == Requirements.TextsOf(Requirements.ByVacancy(s.requirements, id))
    ensures (forall t :: t in Offers.TextsOf(Offers.ByVacancy(s.offers, id)) ==> Text.IsClean(t)) ==>
      Text.TrimmedNonBlank(InputOf(s, id, v, prev).offers) == Offers.TextsOf(Offers.ByVacancy(s.offers, id))
  {
    var rs := Requirements.TextsOf(Requirements.ByVacancy(s.requirements, id));
    var os := Offers.TextsOf(Offers.ByVacancy(s.offers, id));
    if forall t :: t in rs ==> Text.IsClean(t) {
      Text.TrimmedNonBlankOfClean(rs);
    }
    if forall t :: t in os ==> Text.IsClean(t) {
      Text.TrimmedNonBlankOfClean(os);
    }
  }

  /** The new vacancy: active, unseen, posted now, created by the caller, with no category or location. */
  function NewVacancyOf(input: VacancyInput, caller: string, now: int): (r: Vacancy)
    ensures r.isActive && r.viewsCount == 0 && r.postedDate == now && r.createdById == Some(caller)
    ensures r.title == input.title && r.description == input.description
    ensures r.salary == if input.salary.Some? then input.salary.value else SalaryUnset
    ensures r.isSeasonal == input.isSeasonal && r.companyId == input.companyId
    ensures r.category == "" && r.location == ""
  {
    NewVacancy(input.title, input.description, if input.salary.Some? then input.salary.value else SalaryUnset,
               now, input.isSeasonal, input.companyId, Some(caller))
  }

  /** One contact field: a non-blank form value that differs replaces the stored one. */
  function ContactField(stored: Option<string>, given: Option<string>): (r: Option<string>)
    ensures Text.IsNullOrWhiteSpace(given) ==> r == stored
    ensures !Text.IsNullOrWhiteSpace(given) ==> r == given
  {
    if !Text.IsNullOrWhiteSpace(given) && given != stored then given else stored
  }

  /** The company after the create path copies the form's contacts onto it. */
  function Contacted(c: Company, input: VacancyInput): (r: Company)
    ensures r == c.(contactPerson := r.contactPerson, contactPhone := r.contactPhone, contactEmail := r.contactEmail)
    ensures r.contactPerson == c.contactPerson || r.contactPerson == input.contactPerson
    ensures r.contactPhone == c.contactPhone || r.contactPhone == input.contactPhone
    ensures r.contactEmail == c.contactEmail || r.contactEmail == input.contactEmail
  {
    c.(contactPerson := ContactField(c.contactPerson, input.contactPerson),
       contactPhone := ContactField(c.contactPhone, input.contactPhone),
       contactEmail := ContactField(c.contactEmail, input.contactEmail))
  }

  /**
   * Copying contacts keeps the company's name, description and
   * verification, never erases a contact with a blank value, and a second
   * copy of the same form changes nothing more.
   */
  lemma ContactedKeeps(c: Company, input: VacancyInput)
    ensures Contacted(c, input).name == c.name && Contacted(c, input).description == c.description
    ensures Contacted(c, input).isVerified == c.isVerified
    ensures Text.IsNullOrWhiteSpace(input.contactPerson) ==> Contacted(c, input).contactPerson == c.contactPerson
    ensures Text.IsNullOrWhiteSpace(input.contactPhone) ==> Contacted(c, input).contactPhone == c.contactPhone
    ensures Text.IsNullOrWhiteSpace(input.contactEmail) ==> Contacted(c, input).contactEmail == c.contactEmail
    ensures !Text.IsNullOrWhiteSpace(input.contactPerson) ==> Contacted(c, input).contactPerson == input.contactPerson
    ensures !Text.IsNullOrWhiteSpace(input.contactPhone) ==> Contacted(c, input).contactPhone == input.contactPhone
    ensures !Text.IsNullOrWhiteSpace(input.contactEmail) ==> Contacted(c, input).contactEmail == input.contactEmail
    ensures Contacted(Contacted(c, input), input) == Contacted(c, input)
  {
  }

  /** A tag's name when its key is among the selected ones. */
  function NameIfSelected(selected: seq<int>): Row<Tag> -> seq<string>
  {
    (t: Row<Tag>) => if t.id in selected then [t.val.name] else []
  }

  /** The names of the stored tags whose keys were selected, in table order. */
  function SelectedNames(tags: seq<Row<Tag>>, selected: seq<int>): (r: seq<string>)
    ensures |r| <= |tags|
    ensures (forall k :: 0 <= k < |tags| ==> tags[k].id in selected) ==> |r| == |tags|
  {
    FlatMapLength(tags, NameIfSelected(selected));
    FlatMap(tags, NameIfSelected(selected))
  }

  lemma SelectedNamesMembers(tags: seq<Row<Tag>>, selected: seq<int>)
    ensures forall n :: n in SelectedNames(tags, selected) <==> exists t :: t in tags && t.id in selected && t.val.name == n
  {
    FlatMapMembers(tags, NameIfSelected(selected));
    forall n | n in SelectedNames(tags, selected) ensures exists t :: t in tags && t.id in selected && t.val.name == n {
      var t :| t in tags && n in NameIfSelected(selected)(t);
    }
    forall t | t in tags && t.id in selected ensures t.val.name in SelectedNames(tags, selected) {
      assert t.val.name in NameIfSelected(selected)(t);
    }
  }

  // ----- what the handlers answer -----

  /**
   * Saving an edit: the form must carry an id (else the caught exception),
   * and the vacancy must exist and have been created by the caller.
   */
  function EditResponse(s: Snapshot, caller: string, input: VacancyInput): (r: Response)
    ensures input.id.None? <==> r == FormError(ErrorPrefix + NoValueMessage)
    ensures r == NotFound <==>
      input.id.Some? && (GetById(s.vacancies, input.id.value).None?
                         || GetById(s.vacancies, input.id.value).value.createdById != Some(caller))
    ensures r == Redirect(Success(VacancyUpdated)) <==>
      input.id.Some? && GetById(s.vacancies, input.id.value).Some?
      && GetById(s.vacancies, input.id.value).value.createdById == Some(caller)
  {
    if input.id.None? then FormError(ErrorPrefix + NoValueMessage)
    else match GetById(s.vacancies, input.id.value)
      case None => NotFound
      case Some(v) => if v.createdById != Some(caller) then NotFound else Redirect(Success(VacancyUpdated))
  }

  /** Creating: the company the form names must exist. */
  function CreateResponse(s: Snapshot, input: VacancyInput): (r: Response)
    ensures r == FormError(CompanyNotFound) <==> input.companyId !in Ids(s.companies)
    ensures r == Redirect(Success(VacancyCreated)) <==> input.companyId in Ids(s.companies)
  {
    if GetById(s.companies, input.companyId).None? then FormError(CompanyNotFound)
    else Redirect(Success(VacancyCreated))
  }

  /** Once the caller's membership is checked, the company is always there: the create path never reports it missing. */
  lemma MemberCompanyFound(s: Snapshot, caller: string, input: VacancyInput)
    requires Consistent(s) && IsMember(s.memberships, caller, input.companyId)
    ensures CreateResponse(s, input) == Redirect(Success(VacancyCreated))
  {
    var m :| m in s.memberships && m.val.userId == caller && m.val.companyId == input.companyId;
  }

  // ----- what the handlers do to the store -----

  /**
   * The effect of a save: the vacancy overwritten, its requirement and
   * offer lists replaced by the cleaned form lists under new keys, the
   * selected tags attached (tags are only ever added), and every other
   * table untouched.
   */
  ghost predicate EditApplied(s0: Snapshot, s1: Snapshot, input: VacancyInput, reqs: seq<string>, offers: seq<string>)
  {
    && input.id.Some? && IndexOf(s0.vacancies, input.id.value).Some?
    && var id := input.id.value;
       var i := IndexOf(s0.vacancies, id).value;
       && s1.vacancies == Replace(s0.vacancies, i, Edited(s0.vacancies[i].val, input))
       && ListsReplaced(s0, s1, id, reqs, offers)
       && TagsAttached(s0, s1, id, input.selectedTagIds)
       && s1.companies == s0.companies && s1.memberships == s0.memberships && s1.resumes == s0.resumes
       && s1.applications == s0.applications && s1.categories == s0.categories && s1.locations == s0.locations
  }

  /** The key issued right after `id`: a new vacancy's first requirement gets it. */
  function After(id: int): int
  {
    id + 1
  }

  /** The key of the first offer added after `reqs`: the requirements take the keys before it. */
  function OffersFrom(next: int, reqs: seq<string>): int
  {
    next + |reqs|
  }

  /**
   * The lists after a save: the vacancy's old requirements and offers gone,
   * the cleaned ones added under fresh keys, requirements first.
   */
  ghost predicate ListsReplaced(s0: Snapshot, s1: Snapshot, id: int, reqs: seq<string>, offers: seq<string>)
  {
    && s1.requirements == RequirementsOutside(s0.requirements, id) + Requirements.NewRows(reqs, id, s0.nextId)
    && s1.offers == OffersOutside(s0.offers, id) + Offers.NewRows(offers, id, OffersFrom(s0.nextId, reqs))
  }

  /**
   * The tags after the selected ones are attached to the vacancy: tags and
   * links are only ever added, every selected tag's name is linked, and a
   * new link belongs to this vacancy.
   */
  ghost predicate TagsAttached(s0: Snapshot, s1: Snapshot, id: int, selected: seq<int>)
  {
    && s0.tags <= s1.tags && s0.vacancyTags <= s1.vacancyTags
    && (forall n :: n in SelectedNames(s0.tags, selected) ==> Tags.NameLinked(s1.tags, s1.vacancyTags, id, n))
    && (forall l :: l in s1.vacancyTags ==> l in s0.vacancyTags || l.val.vacancyId == id)
  }

  /** Every link kept, and every selected tag linked through a tag of that name, ignoring case. */
  lemma SelectedLinked(s0: Snapshot, s1: Snapshot, id: int, selected: seq<int>)
    requires TagsAttached(s0, s1, id, selected)
    ensures forall l :: l in s0.vacancyTags ==> l in s1.vacancyTags
    ensures forall t :: t in s0.tags && t.id in selected ==> Tags.NameLinked(s1.tags, s1.vacancyTags, id, t.val.name)
  {
    SelectedNamesMembers(s0.tags, selected);
    forall l | l in s0.vacancyTags ensures l in s1.vacancyTags {
      var k :| 0 <= k < |s0.vacancyTags| && s0.vacancyTags[k] == l;
      assert s1.vacancyTags[k] == l;
    }
  }

  /**
   * After a save the vacancy lists exactly the cleaned requirement and
   * offer texts of the form, in order.
   */
  lemma EditReplacesLists(s0: Snapshot, s1: Snapshot, id: int, reqs: seq<string>, offers: seq<string>)
    requires ListsReplaced(s0, s1, id, reqs, offers)
    ensures Requirements.TextsOf(Requirements.ByVacancy(s1.requirements, id)) == reqs
    ensures Offers.TextsOf(Offers.ByVacancy(s1.offers, id)) == offers
  {
    assert Offers.TextsOf(Offers.ByVacancy(s1.offers, id)) == offers by {
      Offers.ReplacedListing(s0.offers, s1.offers, id, offers, OffersFrom(s0.nextId, reqs));
    }
    Requirements.ReplacedListing(s0.requirements, s1.requirements, id, reqs, s0.nextId);
  }

  /**
   * The effect of a create: the company's contacts copied when that
   * changes it, the vacancy added under the next key, its cleaned lists
   * after it, and the selected tags attached to it.
   */
  ghost predicate CreateApplied(s0: Snapshot, s1: Snapshot, input: VacancyInput, caller: string, now: int,
                                reqs: seq<string>, offers: seq<string>)
  {
    && IndexOf(s0.companies, input.companyId).Some?
    && var i := IndexOf(s0.companies, input.companyId).value;
       var c := Contacted(s0.companies[i].val, input);
       var id := s0.nextId;
       && s1.companies == (if c == s0.companies[i].val then s0.companies else Replace(s0.companies, i, c))
       && s1.vacancies == s0.vacancies + [Row(id, NewVacancyOf(input, caller, now))]
       && ListsAdded(s0, s1, id, reqs, offers)
       && TagsAttached(s0, s1, id, input.selectedTagIds)
       && s1.memberships == s0.memberships && s1.resumes == s0.resumes
       && s1.applications == s0.applications && s1.categories == s0.categories && s1.locations == s0.locations
  }

  /** A key no vacancy has yet has no requirement and no offer when both tables refer to stored vacancies. */
  lemma FreshKeyUnlisted(vs: seq<Row<Vacancy>>, rs: seq<Row<Requirement>>, os: seq<Row<Offer>>, next: int)
    requires Keyed(vs, next) && RequirementsReference(rs, Ids(vs)) && OffersReference(os, Ids(vs))
    ensures Requirements.ByVacancy(rs, next) == [] && Offers.ByVacancy(os, next) == []
  {
    assert next !in Ids(vs);
    assert forall q :: q in rs ==> q.val.vacancyId in Ids(vs);
    assert forall o :: o in os ==> o.val.vacancyId in Ids(vs);
    WhereNone(rs, Requirements.OfVacancyFilter(next));
    WhereNone(os, Offers.OfVacancyFilter(next));
  }

  /** The lists after a create: the cleaned ones appended for the new vacancy, under the keys after its own. */
  ghost predicate ListsAdded(s0: Snapshot, s1: Snapshot, id: int, reqs: seq<string>, offers: seq<string>)
  {
    && s1.requirements == s0.requirements + Requirements.NewRows(reqs, id, After(id))
    && s1.offers == s0.offers + Offers.NewRows(offers, id, OffersFrom(After(id), reqs))
  }

  /**
   * The new vacancy lists exactly the cleaned requirement and offer texts
   * of the form, in order: its key was fresh, so nothing else is listed
   * under it.
   */
  lemma CreateListsTexts(s0: Snapshot, s1: Snapshot, reqs: seq<string>, offers: seq<string>)
    requires Keyed(s0.vacancies, s0.nextId)
    requires RequirementsReference(s0.requirements, Ids(s0.vacancies)) && OffersReference(s0.offers, Ids(s0.vacancies))
    requires ListsAdded(s0, s1, s0.nextId, reqs, offers)
    ensures Requirements.TextsOf(Requirements.ByVacancy(s1.requirements, s0.nextId)) == reqs
    ensures Offers.TextsOf(Offers.ByVacancy(s1.offers, s0.nextId)) == offers
  {
    var id := s0.nextId;
    FreshKeyUnlisted(s0.vacancies, s0.requirements, s0.offers, id);
    assert Offers.TextsOf(Offers.ByVacancy(s1.offers, id)) == offers by {
      Offers.AddedListing(s0.offers, s1.offers, id, offers, OffersFrom(After(id), reqs));
    }
    Requirements.AddedListing(s0.requirements, s1.requirements, id, reqs, After(id));
  }

  /** Both lists removed, as the save starts. */
  method ClearLists(db: Db, vacancyId: int)
    requires db.Valid()
    modifies db
    ensures db.Valid()
    ensures db.State() == old(db.State()).(requirements := RequirementsOutside(old(db.requirements), vacancyId),
                                          offers := OffersOutside(old(db.offers), vacancyId))
  {
    ghost var s0 := db.State();
    var removedReqs := Requirements.DeleteAll(db, vacancyId);
    if !removedReqs {
      Requirements.NothingOutside(s0.requirements, vacancyId);
    }
    ghost var s1 := db.State();
    var removedOffers := Offers.DeleteAll(db, vacancyId);
    if !removedOffers {
      Offers.NothingOutside(s1.offers, vacancyId);
    }
  }

  /**
   * A cleaned requirement list added, only when it is not empty. The
   * repository cleans the list once more, which leaves a cleaned list as it
   * is (`Text.TrimmedNonBlankTwice`), so its insertion loop gets the list
   * unchanged.
   */
  method AddRequirementList(db: Db, vacancyId: int, reqs: seq<string>)
    requires db.Valid() && vacancyId in Ids(db.vacancies)
    modifies db
    ensures db.Valid() && vacancyId in Ids(db.vacancies)
    ensures db.requirements == old(db.requirements) + Requirements.NewRows(reqs, vacancyId, old(db.nextId))
    ensures db.State() == old(db.State()).(requirements := db.requirements, nextId := old(db.nextId) + |reqs|)
  {
    if reqs != [] {
      var _ := Requirements.AddTexts(db, vacancyId, reqs);
    }
  }

  /** A cleaned offer list added, only when it is not empty. */
  method AddOfferList(db: Db, vacancyId: int, offers: seq<string>)
    requires db.Valid() && vacancyId in Ids(db.vacancies)
    modifies db
    ensures db.Valid() && vacancyId in Ids(db.vacancies)
    ensures db.offers == old(db.offers) + Offers.NewRows(offers, vacancyId, old(db.nextId))
    ensures db.State() == old(db.State()).(offers := db.offers, nextId := old(db.nextId) + |offers|)
  {
    if offers != [] {
      var _ := Offers.AddTexts(db, vacancyId, offers);
    }
  }

  /** Both cleaned lists added, requirements first. */
  method AddLists(db: Db, vacancyId: int, reqs: seq<string>, offers: seq<string>)
    requires db.Valid() && vacancyId in Ids(db.vacancies)
    modifies db
    ensures db.Valid() && vacancyId in Ids(db.vacancies)
    ensures db.State() == old(db.State()).(
      requirements := old(db.requirements) + Requirements.NewRows(reqs, vacancyId, old(db.nextId)),
      offers := old(db.offers) + Offers.NewRows(offers, vacancyId, OffersFrom(old(db.nextId), reqs)),
      nextId := old(db.nextId) + |reqs| + |offers|)
  {
    ghost var first := OffersFrom(db.nextId, reqs);
    AddRequirementList(db, vacancyId, reqs);
    assert db.nextId == first;
    AddOfferList(db, vacancyId, offers);
  }

  /** The save's wholesale replacement: both lists removed, then the cleaned ones added under fresh keys. */
  method ReplaceLists(db: Db, vacancyId: int, reqs: seq<string>, offers: seq<string>)
    requires db.Valid() && vacancyId in Ids(db.vacancies)
    modifies db
    ensures db.Valid() && vacancyId in Ids(db.vacancies)
    ensures db.State() == old(db.State()).(
      requirements := RequirementsOutside(old(db.requirements), vacancyId) + Requirements.NewRows(reqs, vacancyId, old(db.nextId)),
      offers := OffersOutside(old(db.offers), vacancyId) + Offers.NewRows(offers, vacancyId, OffersFrom(old(db.nextId), reqs)),
      nextId := old(db.nextId) + |reqs| + |offers|)
  {
    ClearLists(db, vacancyId);
    AddLists(db, vacancyId, reqs, offers);
  }

  /** The selected tags attached by name, when any tag was selected. */
  method AttachSelected(db: Db, vacancyId: int, selected: seq<int>)
    requires db.Valid() && vacancyId in Ids(db.vacancies)
    modifies db
    ensures db.Valid()
    ensures selected == [] ==> unchanged(db)
    ensures db.State() == old(db.State()).(tags := db.tags, vacancyTags := db.vacancyTags, nextId := db.nextId)
    ensures TagsAttached(old(db.State()), db.State(), vacancyId, selected)
  {
    SelectedNamesMembers(db.tags, selected);
    if selected != [] {
      var names := SelectedNames(db.tags, selected);
      var _ := Tags.AddTagsToVacancy(db, vacancyId, names);
    }
  }

  /** The form's two lists, cleaned as the page cleans them; cleaning them again changes nothing. */
  method CleanLists(input: VacancyInput) returns (reqs: seq<string>, offers: seq<string>)
    ensures reqs == Text.TrimmedNonBlank(input.requirements) && offers == Text.TrimmedNonBlank(input.offers)
    ensures Text.TrimmedNonBlank(Text.Somes(reqs)) == reqs && Text.TrimmedNonBlank(Text.Somes(offers)) == offers
  {
    reqs := Text.TrimmedNonBlank(input.requirements);
    Text.TrimmedNonBlankTwice(input.requirements);
    offers := Text.TrimmedNonBlank(input.offers);
    Text.TrimmedNonBlankTwice(input.offers);
  }

  /** The edit branch of `OnPostAsync`, after the membership check: only an admitted save changes the store. */
  method Edit(db: Db, caller: string, input: VacancyInput, reqs: seq<string>, offers: seq<string>) returns (resp: Response)
    requires db.Valid() && IsMember(db.memberships, caller, input.companyId)
    modifies db
    ensures db.Valid()
    ensures resp == EditResponse(old(db.State()), caller, input)
    ensures resp != Redirect(Success(VacancyUpdated)) ==> unchanged(db)
    ensures resp == Redirect(Success(VacancyUpdated)) ==> EditApplied(old(db.State()), db.State(), input, reqs, offers)
  {
    resp := EditResponse(db.State(), caller, input);
    if resp != Redirect(Success(VacancyUpdated)) {
      return;
    }
    ghost var s0 := db.State();
    var id := input.id.value;
    var i := IndexOf(db.vacancies, id).value;
    db.SetVacancy(i, Edited(db.vacancies[i].val, input));
    assert Replace(s0.vacancies, i, Edited(s0.vacancies[i].val, input))[i].id == id;
    ReplaceLists(db, id, reqs, offers);
    AttachSelected(db, id, input.selectedTagIds);
  }

  /** The contact copy of the create branch: the company is saved only when a field changed. */
  method CopyContacts(db: Db, input: VacancyInput)
    requires db.Valid() && IndexOf(db.companies, input.companyId).Some?
    modifies db
    ensures db.Valid()
    ensures var i := IndexOf(old(db.companies), input.companyId).value;
      var c := Contacted(old(db.companies)[i].val, input);
      db.State() == old(db.State()).(companies := if c == old(db.companies)[i].val then old(db.companies)
                                                 else Replace(old(db.companies), i, c))
  {
    var i := IndexOf(db.companies, input.companyId).value;
    var c := Contacted(db.companies[i].val, input);
    if c != db.companies[i].val {
      db.SetCompany(i, c);
    }
  }

  /** The create branch of `OnPostAsync`, after the membership check. */
  method Create(db: Db, caller: string, input: VacancyInput, now: int, reqs: seq<string>, offers: seq<string>)
    returns (resp: Response, newId: Option<int>)
    requires db.Valid()
    modifies db
    ensures db.Valid()
    ensures resp == CreateResponse(old(db.State()), input)
    ensures resp == FormError(CompanyNotFound) ==> unchanged(db) && newId.None?
    ensures resp != FormError(CompanyNotFound) ==>
      newId == Some(old(db.nextId)) && CreateApplied(old(db.State()), db.State(), input, caller, now, reqs, offers)
  {
    resp := CreateResponse(db.State(), input);
    if resp == FormError(CompanyNotFound) {
      return resp, None;
    }
    ghost var s0 := db.State();
    CopyContacts(db, input);
    assert Ids(db.companies) == Ids(s0.companies);
    var id := AddVacancyWithLists(db, NewVacancyOf(input, caller, now), reqs, offers);
    AttachSelected(db, id, input.selectedTagIds);
    newId := Some(id);
  }

  /** The new vacancy stored under the next key, then its cleaned lists under the keys after it. */
  method AddVacancyWithLists(db: Db, v: Vacancy, reqs: seq<string>, offers: seq<string>) returns (id: int)
    requires db.Valid() && v.companyId in Ids(db.companies)
    modifies db
    ensures db.Valid() && id == old(db.nextId) && id in Ids(db.vacancies)
    ensures db.State() == old(db.State()).(
      vacancies := old(db.vacancies) + [Row(id, v)],
      requirements := old(db.requirements) + Requirements.NewRows(reqs, id, After(id)),
      offers := old(db.offers) + Offers.NewRows(offers, id, OffersFrom(After(id), reqs)),
      nextId := After(id) + |reqs| + |offers|)
  {
    id := db.AddVacancy(v);
    assert db.nextId == After(id);
    AddLists(db, id, reqs, offers);
  }

  class VacancyEditModel {
    const id: Option<int>
    var input: VacancyInput

    /** A request with the optional route `Id` and the bound form. */
    constructor (id: Option<int>, input: VacancyInput)
      ensures this.id == id && this.input == input
    {
      this.id := id;
      this.input := input;
    }

    /** `OnGetAsync`: with an id, the vacancy fills the form once it exists and the caller created it. */
    method OnGet(db: Db, caller: Option<string>) returns (resp: Response)
      modifies this
      ensures Text.IsNullOrEmpty(caller) ==> resp == Challenge && unchanged(this)
      ensures !Text.IsNullOrEmpty(caller) && id.None? ==> resp == ShowPage && unchanged(this)
      ensures !Text.IsNullOrEmpty(caller) && id.Some? && GetById(db.vacancies, id.value).None? ==>
        resp == NotFound && unchanged(this)
      ensures (!Text.IsNullOrEmpty(caller) && id.Some? && GetById(db.vacancies, id.value).Some?
               && GetById(db.vacancies, id.value).value.createdById != caller) ==>
        resp == Forbid && unchanged(this)
      ensures (!Text.IsNullOrEmpty(caller) && id.Some? && GetById(db.vacancies, id.value).Some?
               && GetById(db.vacancies, id.value).value.createdById == caller) ==>
        resp == ShowPage && input == InputOf(db.State(), id.value, GetById(db.vacancies, id.value).value, old(input))
    {
      if Text.IsNullOrEmpty(caller) {
        return Challenge;
      }
      if id.None? {
        return ShowPage;
      }
      var vacancy := GetById(db.vacancies, id.value);
      if vacancy.None? {
        return NotFound;
      }
      if vacancy.value.createdById != caller {
        return Forbid;
      }
      input := InputOf(db.State(), id.value, vacancy.value, input);
      resp := ShowPage;
    }

    /**
     * `OnPostAsync`: an invalid form or an anonymous caller changes nothing;
     * a company the caller is not a member of is refused; then the route id
     * chooses between saving the vacancy the form names and creating a new
     * one, whose id the form then carries.
     */
    method OnPost(db: Db, caller: Option<string>, modelValid: bool, now: int) returns (resp: Response)
      requires db.Valid()
      modifies this, db
      ensures db.Valid()
      ensures !modelValid ==> resp == ShowPage && unchanged(db) && unchanged(this)
      ensures modelValid && Text.IsNullOrEmpty(caller) ==> resp == Challenge && unchanged(db) && unchanged(this)
      ensures modelValid && !Text.IsNullOrEmpty(caller) && !IsMember(old(db.memberships), caller.value, old(input).companyId) ==>
        resp == FormError(NoAccess) && unchanged(db) && unchanged(this)
      ensures modelValid && !Text.IsNullOrEmpty(caller) && IsMember(old(db.memberships), caller.value, old(input).companyId) && id.Some? ==>
        resp == EditResponse(old(db.State()), caller.value, old(input)) && input == old(input)
        && (resp != Redirect(Success(VacancyUpdated)) ==> unchanged(db))
        && (resp == Redirect(Success(VacancyUpdated)) ==>
              EditApplied(old(db.State()), db.State(), old(input),
                          Text.TrimmedNonBlank(old(input).requirements), Text.TrimmedNonBlank(old(input).offers)))
      ensures modelValid && !Text.IsNullOrEmpty(caller) && IsMember(old(db.memberships), caller.value, old(input).companyId) && id.None? ==>
        resp == Redirect(Success(VacancyCreated))
        && CreateApplied(old(db.State()), db.State(), old(input), caller.value, now,
                         Text.TrimmedNonBlank(old(input).requirements), Text.TrimmedNonBlank(old(input).offers))
        && input == old(input).(id := Some(old(db.nextId)))
    {
      if !modelValid {
        return ShowPage;
      }
      if Text.IsNullOrEmpty(caller) {
        return Challenge;
      }
      if !IsMember(db.memberships, caller.value, input.companyId) {
        return FormError(NoAccess);
      }
      var reqs, offers := CleanLists(input);
      if id.Some? {
        resp := Edit(db, caller.value, input, reqs, offers);
      } else {
        MemberCompanyFound(db.State(), caller.value, input);
        var newId;
        resp, newId := Create(db, caller.value, input, now, reqs, offers);
        input := input.(id := newId);
      }
    }
  }
}
