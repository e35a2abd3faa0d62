/**
 * The database context: one table per entity set, the unique indexes and
 * foreign keys every state of the store satisfies (`Consistent`), and what
 * inserting, updating and deleting rows does to the rows that refer to them
 * (restrict, set-null or cascade).
 */
module Store {
  import opened Wrappers
  import opened Tables
  import opened Entities

  /** Every table of the context, with the next identity value. */
  datatype Snapshot = Snapshot(
    companies: seq<Row<Company>>,
    memberships: seq<Row<CompanyUser>>,
    vacancies: seq<Row<Vacancy>>,
    requirements: seq<Row<Requirement>>,
    offers: seq<Row<Offer>>,
    tags: seq<Row<Tag>>,
    vacancyTags: seq<Row<VacancyTag>>,
    resumes: seq<Row<Resume>>,
    applications: seq<Row<Application>>,
    categories: seq<Row<Category>>,
    locations: seq<Row<Location>>,
    nextId: int)

  // ----- unique indexes -----

  /** Unique index on Application (VacancyId, UserId): one application per user and vacancy. */
  ghost predicate OneApplicationPerPair(apps: seq<Row<Application>>)
  {
    forall a, b :: a in apps && b in apps && a.id != b.id ==>
      a.val.vacancyId != b.val.vacancyId || a.val.userId != b.val.userId
  }

  /** Unique index on CompanyUser (UserId, CompanyId): one membership per user and company. */
  ghost predicate OneMembershipPerPair(ms: seq<Row<CompanyUser>>)
  {
    forall a, b :: a in ms && b in ms && a.id != b.id ==>
      a.val.userId != b.val.userId || a.val.companyId != b.val.companyId
  }

  /** Unique index on VacancyTag (VacancyId, TagId): a tag is linked to a vacancy at most once. */
  ghost predicate OneLinkPerPair(links: seq<Row<VacancyTag>>)
  {
    forall a, b :: a in links && b in links && a.id != b.id ==>
      a.val.vacancyId != b.val.vacancyId || a.val.tagId != b.val.tagId
  }

  /** Unique index on Tag.Name. */
  ghost predicate UniqueTagNames(tags: seq<Row<Tag>>)
  {
    forall a, b :: a in tags && b in tags && a.id != b.id ==> a.val.name != b.val.name
  }

  /** Unique index on Category.Name. */
  ghost predicate UniqueCategoryNames(cats: seq<Row<Category>>)
  {
    forall a, b :: a in cats && b in cats && a.id != b.id ==> a.val.name != b.val.name
  }

  // ----- foreign keys -----

  ghost predicate VacanciesReference(vs: seq<Row<Vacancy>>, companyIds: set<int>)
  {
    forall v :: v in vs ==> v.val.companyId in companyIds
  }

  ghost predicate MembershipsReference(ms: seq<Row<CompanyUser>>, companyIds: set<int>)
  {
    forall m :: m in ms ==> m.val.companyId in companyIds
  }

  ghost predicate ApplicationsReference(apps: seq<Row<Application>>, vacancyIds: set<int>, resumeIds: set<int>)
  {
    forall a :: a in apps ==>
      a.val.vacancyId in vacancyIds && (a.val.resumeId.Some? ==> a.val.resumeId.value in resumeIds)
  }

  ghost predicate RequirementsReference(rs: seq<Row<Requirement>>, vacancyIds: set<int>)
  {
    forall q :: q in rs ==> q.val.vacancyId in vacancyIds
  }

  ghost predicate OffersReference(os: seq<Row<Offer>>, vacancyIds: set<int>)
  {
    forall o :: o in os ==> o.val.vacancyId in vacancyIds
  }

  ghost predicate LinksReference(links: seq<Row<VacancyTag>>, vacancyIds: set<int>, tagIds: set<int>)
  {
    forall l :: l in links ==> l.val.vacancyId in vacancyIds && l.val.tagId in tagIds
  }

  // ----- the schema -----

  ghost predicate KeysValid(s: Snapshot)
  {
    s.nextId > 0
    && Keyed(s.companies, s.nextId) && Keyed(s.memberships, s.nextId) && Keyed(s.vacancies, s.nextId)
    && Keyed(s.requirements, s.nextId) && Keyed(s.offers, s.nextId) && Keyed(s.tags, s.nextId)
    && Keyed(s.vacancyTags, s.nextId) && Keyed(s.resumes, s.nextId) && Keyed(s.applications, s.nextId)
    && Keyed(s.categories, s.nextId) && Keyed(s.locations, s.nextId)
  }

  ghost predicate IndexesValid(s: Snapshot)
  {
    OneApplicationPerPair(s.applications) && OneMembershipPerPair(s.memberships)
    && OneLinkPerPair(s.vacancyTags) && UniqueTagNames(s.tags) && UniqueCategoryNames(s.categories)
  }

  ghost predicate ReferencesValid(s: Snapshot)
  {
    VacanciesReference(s.vacancies, Ids(s.companies))
    && MembershipsReference(s.memberships, Ids(s.companies))
    && ApplicationsReference(s.applications, Ids(s.vacancies), Ids(s.resumes))
    && RequirementsReference(s.requirements, Ids(s.vacancies))
    && OffersReference(s.offers, Ids(s.vacancies))
    && LinksReference(s.vacancyTags, Ids(s.vacancies), Ids(s.tags))
  }

  /** Keys of every table, the unique indexes and the foreign keys. */
  ghost predicate Consistent(s: Snapshot)
  {
    KeysValid(s) && IndexesValid(s) && ReferencesValid(s)
  }

  // ----- lookups the delete rules and the pages share -----

  /** `IsUserInCompanyAsync`: the user holds a membership in the company. */
  predicate IsMember(ms: seq<Row<CompanyUser>>, userId: string, companyId: int)
  {
    exists m :: m in ms && m.val.userId == userId && m.val.companyId == companyId
  }

  /** Some application refers to vacancy `vacancyId`. */
  predicate HasApplications(apps: seq<Row<Application>>, vacancyId: int)
  {
    exists a :: a in apps && a.val.vacancyId == vacancyId
  }

  /** `HasUserAppliedToVacancyAsync`: some application has this (user, vacancy) pair. */
  predicate HasApplied(apps: seq<Row<Application>>, userId: string, vacancyId: int)
  {
    exists a :: a in apps && a.val.userId == userId && a.val.vacancyId == vacancyId
  }

  /** Tag `tagId` is already linked to vacancy `vacancyId`. */
  predicate Linked(links: seq<Row<VacancyTag>>, vacancyId: int, tagId: int)
  {
    exists l :: l in links && l.val.vacancyId == vacancyId && l.val.tagId == tagId
  }

  predicate TagNamed(tags: seq<Row<Tag>>, name: string)
  {
    exists t :: t in tags && t.val.name == name
  }

  predicate CategoryNamed(cats: seq<Row<Category>>, name: string)
  {
    exists c :: c in cats && c.val.name == name
  }

  function RequirementOutsideFilter(vacancyId: int): Requirement -> bool
  {
    (q: Requirement) => q.vacancyId != vacancyId
  }

  /** The requirements that do not belong to vacancy `vacancyId`, in table order. */
  function RequirementsOutside(rows: seq<Row<Requirement>>, vacancyId: int): (r: seq<Row<Requirement>>)
    ensures forall x :: x in r <==> x in rows && x.val.vacancyId != vacancyId
    ensures Increasing(rows) ==> Increasing(r)
  {
    Where(rows, RequirementOutsideFilter(vacancyId))
  }

  /** The memberships of every company but `companyId`, in table order. */
  function MembershipsOutside(rows: seq<Row<CompanyUser>>, companyId: int): (r: seq<Row<CompanyUser>>)
    ensures forall x :: x in r <==> x in rows && x.val.companyId != companyId
    ensures Increasing(rows) ==> Increasing(r)
  {
    Where(rows, (m: CompanyUser) => m.companyId != companyId)
  }

  function OfferOutsideFilter(vacancyId: int): Offer -> bool
  {
    (o: Offer) => o.vacancyId != vacancyId
  }

  /** The offers that do not belong to vacancy `vacancyId`, in table order. */
  function OffersOutside(rows: seq<Row<Offer>>, vacancyId: int): (r: seq<Row<Offer>>)
    ensures forall x :: x in r <==> x in rows && x.val.vacancyId != vacancyId
    ensures Increasing(rows) ==> Increasing(r)
  {
    Where(rows, OfferOutsideFilter(vacancyId))
  }

  /** The tag links that do not belong to vacancy `vacancyId`, in table order. */
  function LinksOutside(rows: seq<Row<VacancyTag>>, vacancyId: int): (r: seq<Row<VacancyTag>>)
    ensures forall x :: x in r <==> x in rows && x.val.vacancyId != vacancyId
    ensures Increasing(rows) ==> Increasing(r)
  {
    Where(rows, (l: VacancyTag) => l.vacancyId != vacancyId)
  }

  /** Set-null of Application.ResumeId: every application that used resume `resumeId` now has none. */
  function DetachResume(apps: seq<Row<Application>>, resumeId: int): (r: seq<Row<Application>>)
    ensures |r| == |apps|
    ensures forall i :: 0 <= i < |apps| ==>
      r[i].id == apps[i].id
      && r[i].val == (if apps[i].val.resumeId == Some(resumeId) then apps[i].val.(resumeId := None) else apps[i].val)
  {
    seq(|apps|, i requires 0 <= i < |apps| =>
      if apps[i].val.resumeId == Some(resumeId) then Row(apps[i].id, apps[i].val.(resumeId := None)) else apps[i])
  }

  /** Set-null of Vacancy.CreatedById: the vacancies created by `userId` no longer name a creator. */
  function ForgetCreator(vs: seq<Row<Vacancy>>, userId: string): (r: seq<Row<Vacancy>>)
    ensures |r| == |vs|
    ensures forall i :: 0 <= i < |vs| ==>
      r[i].id == vs[i].id
      && r[i].val == (if vs[i].val.createdById == Some(userId) then vs[i].val.(createdById := None) else vs[i].val)
  {
    seq(|vs|, i requires 0 <= i < |vs| =>
      if vs[i].val.createdById == Some(userId) then Row(vs[i].id, vs[i].val.(createdById := None)) else vs[i])
  }

  /** The store once the eight catalogue tables are empty; resumes, applications and memberships stay. */
  function Cleared(s: Snapshot): (r: Snapshot)
    ensures r.offers == [] && r.requirements == [] && r.vacancyTags == [] && r.vacancies == []
    ensures r.companies == [] && r.tags == [] && r.locations == [] && r.categories == []
    ensures r.resumes == s.resumes && r.applications == s.applications && r.memberships == s.memberships
    ensures r.nextId == s.nextId
  {
    s.(offers := [], requirements := [], vacancyTags := [], vacancies := [],
       companies := [], tags := [], locations := [], categories := [])
  }

  /** What a delete did: nothing to delete, refused by a restricting reference, or done. */
  datatype DeleteResult = Missing | Restricted | Deleted

  /** The store: one table per entity set of the context, and the next identity value. */
  class Db {
    var companies: seq<Row<Company>>
    var memberships: seq<Row<CompanyUser>>
    var vacancies: seq<Row<Vacancy>>
    var requirements: seq<Row<Requirement>>
    var offers: seq<Row<Offer>>
    var tags: seq<Row<Tag>>
    var vacancyTags: seq<Row<VacancyTag>>
    var resumes: seq<Row<Resume>>
    var applications: seq<Row<Application>>
    var categories: seq<Row<Category>>
    var locations: seq<Row<Location>>
    var nextId: int

    function State(): Snapshot
      reads this
    {
      Snapshot(companies, memberships, vacancies, requirements, offers, tags,
               vacancyTags, resumes, applications, categories, locations, nextId)
    }

    ghost predicate Valid()
      reads this
    {
      Consistent(State())
    }

    /** An empty database. */
    constructor ()
      ensures Valid()
      ensures State() == Snapshot([], [], [], [], [], [], [], [], [], [], [], 1)
    {
      companies, memberships, vacancies, requirements := [], [], [], [];
      offers, tags, vacancyTags, resumes := [], [], [], [];
      applications, categories, locations := [], [], [];
      nextId := 1;
    }

    // ----- inserts (`AddAsync`): the row goes under the next identity value -----

    method AddCompany(c: Company) returns (id: int)
      requires Valid()
      modifies this
      ensures Valid() && id == old(nextId)
      ensures State() == old(State()).(companies := old(companies) + [Row(id, c)], nextId := id + 1)
    {
      ghost var before := State();
      AddCompanyConsistent(before, c);
      id := nextId;
      companies, nextId := companies + [Row(id, c)], id + 1;
      assert State() == before.(companies := before.companies + [Row(id, c)], nextId := id + 1);
    }

    /** A membership needs an existing company and must not repeat a (user, company) pair. */
    method AddMembership(m: CompanyUser) returns (id: int)
      requires Valid()
      requires m.companyId in Ids(companies) && !IsMember(memberships, m.userId, m.companyId)
      modifies this
      ensures Valid() && id == old(nextId)
      ensures State() == old(State()).(memberships := old(memberships) + [Row(id, m)], nextId := id + 1)
    {
      ghost var before := State();
      AddMembershipConsistent(before, m);
      id := nextId;
      memberships, nextId := memberships + [Row(id, m)], id + 1;
      assert State() == before.(memberships := before.memberships + [Row(id, m)], nextId := id + 1);
    }

    /** A vacancy needs an existing company. */
    method AddVacancy(v: Vacancy) returns (id: int)
      requires Valid() && v.companyId in Ids(companies)
      modifies this
      ensures Valid() && id == old(nextId)
      ensures State() == old(State()).(vacancies := old(vacancies) + [Row(id, v)], nextId := id + 1)
    {
      ghost var before := State();
      AddVacancyConsistent(before, v);
      id := nextId;
      vacancies, nextId := vacancies + [Row(id, v)], id + 1;
      assert State() == before.(vacancies := before.vacancies + [Row(id, v)], nextId := id + 1);
    }

    method AddRequirement(q: Requirement) returns (id: int)
      requires Valid() && q.vacancyId in Ids(vacancies)
      modifies this
      ensures Valid() && id == old(nextId)
      ensures State() == old(State()).(requirements := old(requirements) + [Row(id, q)], nextId := id + 1)
    {
      ghost var before := State();
      AddRequirementConsistent(before, q);
      id := nextId;
      requirements, nextId := requirements + [Row(id, q)], id + 1;
      assert State() == before.(requirements := before.requirements + [Row(id, q)], nextId := id + 1);
    }

    method AddOffer(o: Offer) returns (id: int)
      requires Valid() && o.vacancyId in Ids(vacancies)
      modifies this
      ensures Valid() && id == old(nextId)
      ensures State() == old(State()).(offers := old(offers) + [Row(id, o)], nextId := id + 1)
    {
      ghost var before := State();
      AddOfferConsistent(before, o);
      id := nextId;
      offers, nextId := offers + [Row(id, o)], id + 1;
      assert State() == before.(offers := before.offers + [Row(id, o)], nextId := id + 1);
    }

    /** A tag name must not be taken yet. */
    method AddTag(t: Tag) returns (id: int)
      requires Valid() && !TagNamed(tags, t.name)
      modifies this
      ensures Valid() && id == old(nextId)
      ensures State() == old(State()).(tags := old(tags) + [Row(id, t)], nextId := id + 1)
    {
      ghost var before := State();
      AddTagConsistent(before, t);
      id := nextId;
      tags, nextId := tags + [Row(id, t)], id + 1;
      assert State() == before.(tags := before.tags + [Row(id, t)], nextId := id + 1);
    }

    /** A link needs both ends and must not repeat a (vacancy, tag) pair. */
    method AddLink(l: VacancyTag) returns (id: int)
      requires Valid() && l.vacancyId in Ids(vacancies) && l.tagId in Ids(tags)
      requires !Linked(vacancyTags, l.vacancyId, l.tagId)
      modifies this
      ensures Valid() && id == old(nextId)
      ensures State() == old(State()).(vacancyTags := old(vacancyTags) + [Row(id, l)], nextId := id + 1)
    {
      ghost var before := State();
      AddLinkConsistent(before, l);
      id := nextId;
      vacancyTags, nextId := vacancyTags + [Row(id, l)], id + 1;
      assert State() == before.(vacancyTags := before.vacancyTags + [Row(id, l)], nextId := id + 1);
    }

    method AddResume(r: Resume) returns (id: int)
      requires Valid()
      modifies this
      ensures Valid() && id == old(nextId)
      ensures State() == old(State()).(resumes := old(resumes) + [Row(id, r)], nextId := id + 1)
    {
      ghost var before := State();
      AddResumeConsistent(before, r);
      id := nextId;
      resumes, nextId := resumes + [Row(id, r)], id + 1;
      assert State() == before.(resumes := before.resumes + [Row(id, r)], nextId := id + 1);
    }

    /** A category name must not be taken yet. */
    method AddCategory(c: Category) returns (id: int)
      requires Valid() && !CategoryNamed(categories, c.name)
      modifies this
      ensures Valid() && id == old(nextId)
      ensures State() == old(State()).(categories := old(categories) + [Row(id, c)], nextId := id + 1)
    {
      ghost var before := State();
      AddCategoryConsistent(before, c);
      id := nextId;
      categories, nextId := categories + [Row(id, c)], id + 1;
      assert State() == before.(categories := before.categories + [Row(id, c)], nextId := id + 1);
    }

    method AddLocation(l: Location) returns (id: int)
      requires Valid()
      modifies this
      ensures Valid() && id == old(nextId)
      ensures State() == old(State()).(locations := old(locations) + [Row(id, l)], nextId := id + 1)
    {
      ghost var before := State();
      AddLocationConsistent(before, l);
      id := nextId;
      locations, nextId := locations + [Row(id, l)], id + 1;
      assert State() == before.(locations := before.locations + [Row(id, l)], nextId := id + 1);
    }

    /**
     * Storing an application: refused (the save fails) when its vacancy or
     * resume does not exist or the user has already applied to that vacancy.
     */
    method InsertApplication(a: Application) returns (id: Option<int>)
      requires Valid()
      modifies this
      ensures Valid()
      ensures id.None? <==>
        old(a.vacancyId !in Ids(vacancies)
            || (a.resumeId.Some? && a.resumeId.value !in Ids(resumes))
            || HasApplied(applications, a.userId, a.vacancyId))
      ensures id.None? ==> unchanged(this)
      ensures id.Some? ==>
        id.value == old(nextId)
        && State() == old(State()).(applications := old(applications) + [Row(id.value, a)], nextId := id.value + 1)
    {
      if IndexOf(vacancies, a.vacancyId).None?
        || (a.resumeId.Some? && IndexOf(resumes, a.resumeId.value).None?)
        || HasApplied(applications, a.userId, a.vacancyId)
      {
        return None;
      }
      var k := AddApplication(a);
      id := Some(k);
    }

    method AddApplication(a: Application) returns (id: int)
      requires Valid() && a.vacancyId in Ids(vacancies)
      requires a.resumeId.Some? ==> a.resumeId.value in Ids(resumes)
      requires !HasApplied(applications, a.userId, a.vacancyId)
      modifies this
      ensures Valid() && id == old(nextId)
      ensures State() == old(State()).(applications := old(applications) + [Row(id, a)], nextId := id + 1)
    {
      ghost var before := State();
      AddApplicationConsistent(before, a);
      id := nextId;
      applications, nextId := applications + [Row(id, a)], id + 1;
      assert State() == before.(applications := before.applications + [Row(id, a)], nextId := id + 1);
    }

    // ----- updates (`UpdateAsync`): the row keeps its key and position -----

    /** An application update keeps its vacancy, user and resume. */
    method SetApplication(i: nat, a: Application)
      requires Valid() && i < |applications|
      requires a.vacancyId == applications[i].val.vacancyId && a.userId == applications[i].val.userId
      requires a.resumeId == applications[i].val.resumeId
      modifies this
      ensures Valid()
      ensures State() == old(State()).(applications := Replace(old(applications), i, a))
    {
      SetApplicationConsistent(State(), i, a);
      applications := Replace(applications, i, a);
    }

    /** A vacancy update may move it to another existing company. */
    method SetVacancy(i: nat, v: Vacancy)
      requires Valid() && i < |vacancies| && v.companyId in Ids(companies)
      modifies this
      ensures Valid()
      ensures State() == old(State()).(vacancies := Replace(old(vacancies), i, v))
    {
      SetVacancyConsistent(State(), i, v);
      vacancies := Replace(vacancies, i, v);
    }

    method SetCompany(i: nat, c: Company)
      requires Valid() && i < |companies|
      modifies this
      ensures Valid()
      ensures State() == old(State()).(companies := Replace(old(companies), i, c))
    {
      SetCompanyConsistent(State(), i, c);
      companies := Replace(companies, i, c);
    }

    method SetResume(i: nat, r: Resume)
      requires Valid() && i < |resumes|
      modifies this
      ensures Valid()
      ensures State() == old(State()).(resumes := Replace(old(resumes), i, r))
    {
      SetResumeConsistent(State(), i, r);
      resumes := Replace(resumes, i, r);
    }

    /** A membership update keeps its user and company. */
    method SetMembership(i: nat, m: CompanyUser)
      requires Valid() && i < |memberships|
      requires m.userId == memberships[i].val.userId && m.companyId == memberships[i].val.companyId
      modifies this
      ensures Valid()
      ensures State() == old(State()).(memberships := Replace(old(memberships), i, m))
    {
      SetMembershipConsistent(State(), i, m);
      memberships := Replace(memberships, i, m);
    }

    // ----- deletes -----

    /** A membership row is referenced by nothing, so it can always go. */
    method RemoveMembership(i: nat)
      requires Valid() && i < |memberships|
      modifies this
      ensures Valid()
      ensures State() == old(State()).(memberships := RemoveAt(old(memberships), i))
    {
      RemoveMembershipConsistent(State(), i);
      memberships := RemoveAt(memberships, i);
    }

    /** `RemoveRange` of a vacancy's requirements. */
    method RemoveRequirementsOf(vacancyId: int)
      requires Valid()
      modifies this
      ensures Valid()
      ensures State() == old(State()).(requirements := RequirementsOutside(old(requirements), vacancyId))
    {
      RemoveRequirementsConsistent(State(), vacancyId);
      requirements := RequirementsOutside(requirements, vacancyId);
    }

    /** `RemoveRange` of a company's memberships. */
    method RemoveMembershipsOf(companyId: int)
      requires Valid()
      modifies this
      ensures Valid()
      ensures State() == old(State()).(memberships := MembershipsOutside(old(memberships), companyId))
    {
      RemoveMembershipsConsistent(State(), companyId);
      memberships := MembershipsOutside(memberships, companyId);
    }

    /** `RemoveRange` of a vacancy's offers. */
    method RemoveOffersOf(vacancyId: int)
      requires Valid()
      modifies this
      ensures Valid()
      ensures State() == old(State()).(offers := OffersOutside(old(offers), vacancyId))
    {
      RemoveOffersConsistent(State(), vacancyId);
      offers := OffersOutside(offers, vacancyId);
    }

    /** `RemoveRange` of every catalogue table, allowed once no application and no membership is left. */
    method ClearCatalog()
      requires Valid() && applications == [] && memberships == []
      modifies this
      ensures Valid()
      ensures State() == Cleared(old(State()))
    {
      ghost var after := Cleared(State());
      ClearedConsistent(State());
      offers, requirements, vacancyTags, vacancies := [], [], [], [];
      companies, tags, locations, categories := [], [], [], [];
      assert State() == after;
    }

    /**
     * Deleting a vacancy: refused while applications refer to it (restrict);
     * otherwise its requirements, offers and tag links go with it (cascade).
     */
    method DeleteVacancy(id: int) returns (r: DeleteResult)
      requires Valid()
      modifies this
      ensures Valid()
      ensures r == Missing <==> id !in old(Ids(vacancies))
      ensures r == Restricted <==> id in old(Ids(vacancies)) && old(HasApplications(applications, id))
      ensures r != Deleted ==> unchanged(this)
      ensures r == Deleted ==>
        exists i :: 0 <= i < |old(vacancies)| && old(vacancies)[i].id == id
          && State() == old(State()).(vacancies := RemoveAt(old(vacancies), i),
                                    requirements := RequirementsOutside(old(requirements), id),
                                    offers := OffersOutside(old(offers), id),
                                    vacancyTags := LinksOutside(old(vacancyTags), id))
    {
      var found := IndexOf(vacancies, id);
      if found.None? {
        return Missing;
      }
      if HasApplications(applications, id) {
        return Restricted;
      }
      RemoveVacancyAt(found.value, id);
      r := Deleted;
    }

    /** Removes vacancy row `i` with its requirements, offers and tag links. */
    method RemoveVacancyAt(i: nat, id: int)
      requires Valid() && i < |vacancies| && vacancies[i].id == id && !HasApplications(applications, id)
      modifies this
      ensures Valid()
      ensures State() == old(State()).(vacancies := RemoveAt(old(vacancies), i),
                                       requirements := RequirementsOutside(old(requirements), id),
                                       offers := OffersOutside(old(offers), id),
                                       vacancyTags := LinksOutside(old(vacancyTags), id))
    {
      VacancyRemovalConsistent(State(), i, id);
      vacancies, requirements, offers, vacancyTags :=
        RemoveAt(vacancies, i), RequirementsOutside(requirements, id),
        OffersOutside(offers, id), LinksOutside(vacancyTags, id);
    }

    /** Deleting a company: refused while vacancies or memberships refer to it (restrict). */
    method DeleteCompany(id: int) returns (r: DeleteResult)
      requires Valid()
      modifies this
      ensures Valid()
      ensures r == Missing <==> id !in old(Ids(companies))
      ensures r == Restricted <==>
        id in old(Ids(companies))
        && old((exists v :: v in vacancies && v.val.companyId == id)
               || (exists m :: m in memberships && m.val.companyId == id))
      ensures r != Deleted ==> unchanged(this)
      ensures r == Deleted ==>
        exists i :: 0 <= i < |old(companies)| && old(companies)[i].id == id
          && State() == old(State()).(companies := RemoveAt(old(companies), i))
    {
      var found := IndexOf(companies, id);
      if found.None? {
        return Missing;
      }
      if (exists v :: v in vacancies && v.val.companyId == id) || (exists m :: m in memberships && m.val.companyId == id) {
        return Restricted;
      }
      var i := found.value;
      ghost var before := State();
      CompanyRemovalConsistent(before, i);
      companies := RemoveAt(companies, i);
      assert State() == before.(companies := RemoveAt(before.companies, i));
      r := Deleted;
    }

    /** Deleting a resume: the applications that used it stay, with no resume (set-null). */
    method DeleteResume(id: int) returns (found: bool)
      requires Valid()
      modifies this
      ensures Valid()
      ensures found <==> id in old(Ids(resumes))
      ensures !found ==> unchanged(this)
      ensures found ==>
        exists i :: 0 <= i < |old(resumes)| && old(resumes)[i].id == id
          && State() == old(State()).(resumes := RemoveAt(old(resumes), i),
                                    applications := DetachResume(old(applications), id))
    {
      var at := IndexOf(resumes, id);
      if at.None? {
        return false;
      }
      var i := at.value;
      ResumeRemovalConsistent(State(), i);
      resumes, applications := RemoveAt(resumes, i), DetachResume(applications, id);
      found := true;
    }

    /**
     * Deleting a user account: refused while the user's memberships, resumes
     * or applications exist (restrict); otherwise the vacancies the user
     * created lose their creator (set-null).
     */
    method DeleteUser(userId: string) returns (deleted: bool)
      requires Valid()
      modifies this
      ensures Valid()
      ensures deleted <==> !old((exists m :: m in memberships && m.val.userId == userId)
        || (exists x :: x in resumes && x.val.userId == userId)
        || (exists a :: a in applications && a.val.userId == userId))
      ensures !deleted ==> unchanged(this)
      ensures deleted ==> State() == old(State()).(vacancies := ForgetCreator(old(vacancies), userId))
    {
      if (exists m :: m in memberships && m.val.userId == userId)
        || (exists x :: x in resumes && x.val.userId == userId)
        || (exists a :: a in applications && a.val.userId == userId)
      {
        return false;
      }
      ghost var before := State();
      ForgetCreatorConsistent(before, userId);
      vacancies := ForgetCreator(vacancies, userId);
      assert State() == before.(vacancies := ForgetCreator(before.vacancies, userId));
      deleted := true;
    }
  }

  // ----- value-level proofs that each step keeps the schema -----

  lemma KeyedBump<T>(rows: seq<Row<T>>, next: int)
    requires Keyed(rows, next)
    ensures Keyed(rows, next + 1)
  {
  }

  lemma BumpKeys(s: Snapshot)
    requires KeysValid(s)
    ensures KeysValid(s.(nextId := s.nextId + 1))
  {
    KeyedBump(s.companies, s.nextId); KeyedBump(s.memberships, s.nextId); KeyedBump(s.vacancies, s.nextId);
    KeyedBump(s.requirements, s.nextId); KeyedBump(s.offers, s.nextId); KeyedBump(s.tags, s.nextId);
    KeyedBump(s.vacancyTags, s.nextId); KeyedBump(s.resumes, s.nextId); KeyedBump(s.applications, s.nextId);
    KeyedBump(s.categories, s.nextId); KeyedBump(s.locations, s.nextId);
  }

  lemma AddCompanyConsistent(s: Snapshot, c: Company)
    requires Consistent(s)
    ensures Consistent(s.(companies := s.companies + [Row(s.nextId, c)], nextId := s.nextId + 1))
  {
    BumpKeys(s);
    AddKeyed(s.companies, s.nextId, c);
  }

  lemma AddMembershipConsistent(s: Snapshot, m: CompanyUser)
    requires Consistent(s) && m.companyId in Ids(s.companies) && !IsMember(s.memberships, m.userId, m.companyId)
    ensures Consistent(s.(memberships := s.memberships + [Row(s.nextId, m)], nextId := s.nextId + 1))
  {
    BumpKeys(s);
    AddKeyed(s.memberships, s.nextId, m);
  }

  lemma AddVacancyConsistent(s: Snapshot, v: Vacancy)
    requires Consistent(s) && v.companyId in Ids(s.companies)
    ensures Consistent(s.(vacancies := s.vacancies + [Row(s.nextId, v)], nextId := s.nextId + 1))
  {
    BumpKeys(s);
    AddKeyed(s.vacancies, s.nextId, v);
  }

  lemma AddRequirementConsistent(s: Snapshot, q: Requirement)
    requires Consistent(s) && q.vacancyId in Ids(s.vacancies)
    ensures Consistent(s.(requirements := s.requirements + [Row(s.nextId, q)], nextId := s.nextId + 1))
  {
    BumpKeys(s);
    AddKeyed(s.requirements, s.nextId, q);
  }

  lemma AddOfferConsistent(s: Snapshot, o: Offer)
    requires Consistent(s) && o.vacancyId in Ids(s.vacancies)
    ensures Consistent(s.(offers := s.offers + [Row(s.nextId, o)], nextId := s.nextId + 1))
  {
    BumpKeys(s);
    AddKeyed(s.offers, s.nextId, o);
  }

  lemma AddTagConsistent(s: Snapshot, t: Tag)
    requires Consistent(s) && !TagNamed(s.tags, t.name)
    ensures Consistent(s.(tags := s.tags + [Row(s.nextId, t)], nextId := s.nextId + 1))
  {
    BumpKeys(s);
    AddKeyed(s.tags, s.nextId, t);
  }

  lemma AddLinkConsistent(s: Snapshot, l: VacancyTag)
    requires Consistent(s) && l.vacancyId in Ids(s.vacancies) && l.tagId in Ids(s.tags)
    requires !Linked(s.vacancyTags, l.vacancyId, l.tagId)
    ensures Consistent(s.(vacancyTags := s.vacancyTags + [Row(s.nextId, l)], nextId := s.nextId + 1))
  {
    BumpKeys(s);
    AddKeyed(s.vacancyTags, s.nextId, l);
  }

  lemma AddResumeConsistent(s: Snapshot, r: Resume)
    requires Consistent(s)
    ensures Consistent(s.(resumes := s.resumes + [Row(s.nextId, r)], nextId := s.nextId + 1))
  {
    BumpKeys(s);
    AddKeyed(s.resumes, s.nextId, r);
  }

  lemma AddCategoryConsistent(s: Snapshot, c: Category)
    requires Consistent(s) && !CategoryNamed(s.categories, c.name)
    ensures Consistent(s.(categories := s.categories + [Row(s.nextId, c)], nextId := s.nextId + 1))
  {
    BumpKeys(s);
    AddKeyed(s.categories, s.nextId, c);
  }

  lemma AddLocationConsistent(s: Snapshot, l: Location)
    requires Consistent(s)
    ensures Consistent(s.(locations := s.locations + [Row(s.nextId, l)], nextId := s.nextId + 1))
  {
    BumpKeys(s);
    AddKeyed(s.locations, s.nextId, l);
  }

  lemma AddApplicationConsistent(s: Snapshot, a: Application)
    requires Consistent(s) && a.vacancyId in Ids(s.vacancies)
    requires a.resumeId.Some? ==> a.resumeId.value in Ids(s.resumes)
    requires !HasApplied(s.applications, a.userId, a.vacancyId)
    ensures Consistent(s.(applications := s.applications + [Row(s.nextId, a)], nextId := s.nextId + 1))
  {
    BumpKeys(s);
    AddKeyed(s.applications, s.nextId, a);
  }

  lemma SetApplicationConsistent(s: Snapshot, i: nat, a: Application)
    requires Consistent(s) && i < |s.applications|
    requires a.vacancyId == s.applications[i].val.vacancyId && a.userId == s.applications[i].val.userId
    requires a.resumeId == s.applications[i].val.resumeId
    ensures Consistent(s.(applications := Replace(s.applications, i, a)))
  {
    ReplaceKeyed(s.applications, s.nextId, i, a);
    assert s.applications[i] in s.applications;
  }

  lemma SetVacancyConsistent(s: Snapshot, i: nat, v: Vacancy)
    requires Consistent(s) && i < |s.vacancies| && v.companyId in Ids(s.companies)
    ensures Consistent(s.(vacancies := Replace(s.vacancies, i, v)))
  {
    ReplaceKeyed(s.vacancies, s.nextId, i, v);
  }

  lemma SetCompanyConsistent(s: Snapshot, i: nat, c: Company)
    requires Consistent(s) && i < |s.companies|
    ensures Consistent(s.(companies := Replace(s.companies, i, c)))
  {
    ReplaceKeyed(s.companies, s.nextId, i, c);
  }

  lemma SetResumeConsistent(s: Snapshot, i: nat, r: Resume)
    requires Consistent(s) && i < |s.resumes|
    ensures Consistent(s.(resumes := Replace(s.resumes, i, r)))
  {
    ReplaceKeyed(s.resumes, s.nextId, i, r);
  }

  lemma SetMembershipConsistent(s: Snapshot, i: nat, m: CompanyUser)
    requires Consistent(s) && i < |s.memberships|
    requires m.userId == s.memberships[i].val.userId && m.companyId == s.memberships[i].val.companyId
    ensures Consistent(s.(memberships := Replace(s.memberships, i, m)))
  {
    ReplaceKeyed(s.memberships, s.nextId, i, m);
    assert s.memberships[i] in s.memberships;
  }

  lemma RemoveMembershipConsistent(s: Snapshot, i: nat)
    requires Consistent(s) && i < |s.memberships|
    ensures Consistent(s.(memberships := RemoveAt(s.memberships, i)))
  {
    RemoveKeyed(s.memberships, s.nextId, i);
  }

  lemma RemoveRequirementsConsistent(s: Snapshot, vacancyId: int)
    requires Consistent(s)
    ensures Consistent(s.(requirements := RequirementsOutside(s.requirements, vacancyId)))
  {
  }

  lemma RemoveMembershipsConsistent(s: Snapshot, companyId: int)
    requires Consistent(s)
    ensures Consistent(s.(memberships := MembershipsOutside(s.memberships, companyId)))
  {
  }

  lemma RemoveOffersConsistent(s: Snapshot, vacancyId: int)
    requires Consistent(s)
    ensures Consistent(s.(offers := OffersOutside(s.offers, vacancyId)))
  {
  }

  lemma ClearedConsistent(s: Snapshot)
    requires Consistent(s) && s.applications == [] && s.memberships == []
    ensures Consistent(Cleared(s))
  {
  }

  lemma VacancyRemovalConsistent(s: Snapshot, i: nat, id: int)
    requires Consistent(s) && i < |s.vacancies| && s.vacancies[i].id == id
    requires !HasApplications(s.applications, id)
    ensures Consistent(s.(vacancies := RemoveAt(s.vacancies, i),
                          requirements := RequirementsOutside(s.requirements, id),
                          offers := OffersOutside(s.offers, id),
                          vacancyTags := LinksOutside(s.vacancyTags, id)))
  {
    RemoveKeyed(s.vacancies, s.nextId, i);
  }

  lemma CompanyRemovalConsistent(s: Snapshot, i: nat)
    requires Consistent(s) && i < |s.companies|
    requires !(exists v :: v in s.vacancies && v.val.companyId == s.companies[i].id)
    requires !(exists m :: m in s.memberships && m.val.companyId == s.companies[i].id)
    ensures Consistent(s.(companies := RemoveAt(s.companies, i)))
  {
    RemoveKeyed(s.companies, s.nextId, i);
  }

  lemma ResumeRemovalConsistent(s: Snapshot, i: nat)
    requires Consistent(s) && i < |s.resumes|
    ensures Consistent(s.(resumes := RemoveAt(s.resumes, i),
                          applications := DetachResume(s.applications, s.resumes[i].id)))
  {
    RemoveKeyed(s.resumes, s.nextId, i);
    DetachResumeKeeps(s.applications, s.resumes[i].id, s.nextId, Ids(s.vacancies), Ids(s.resumes));
  }

  lemma ForgetCreatorConsistent(s: Snapshot, userId: string)
    requires Consistent(s)
    ensures Consistent(s.(vacancies := ForgetCreator(s.vacancies, userId)))
  {
    ForgetCreatorKeeps(s.vacancies, userId, s.nextId, Ids(s.companies));
  }

  lemma DetachResumeKeeps(apps: seq<Row<Application>>, resumeId: int, next: int, vacancyIds: set<int>, resumeIds: set<int>)
    requires Keyed(apps, next) && OneApplicationPerPair(apps) && ApplicationsReference(apps, vacancyIds, resumeIds)
    ensures Keyed(DetachResume(apps, resumeId), next)
    ensures OneApplicationPerPair(DetachResume(apps, resumeId))
    ensures ApplicationsReference(DetachResume(apps, resumeId), vacancyIds, resumeIds - {resumeId})
  {
    var r := DetachResume(apps, resumeId);
    forall x | x in r
      ensures exists y :: y in apps && y.id == x.id && y.val.vacancyId == x.val.vacancyId && y.val.userId == x.val.userId
    {
      var i :| 0 <= i < |r| && r[i] == x;
      assert apps[i] in apps;
    }
  }

  lemma ForgetCreatorKeeps(vs: seq<Row<Vacancy>>, userId: string, next: int, companyIds: set<int>)
    requires Keyed(vs, next) && VacanciesReference(vs, companyIds)
    ensures Keyed(ForgetCreator(vs, userId), next)
    ensures Ids(ForgetCreator(vs, userId)) == Ids(vs)
    ensures VacanciesReference(ForgetCreator(vs, userId), companyIds)
  {
    var r := ForgetCreator(vs, userId);
    forall x | x in r ensures exists y :: y in vs && y.id == x.id && y.val.companyId == x.val.companyId {
      var i :| 0 <= i < |r| && r[i] == x;
      assert vs[i] in vs;
    }
    forall k | k in Ids(vs) ensures k in Ids(r) {
      var y :| y in vs && y.id == k;
      var i :| 0 <= i < |vs| && vs[i] == y;
      assert r[i] in r;
    }
  }
}
