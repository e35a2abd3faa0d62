/**
 * The stored records of the job board. Each record's `Id` is kept by the
 * table row that holds it (see `Tables.Row`); navigation collections are not
 * fields here but queries over the store. `DateTime` values are integers.
 */
module Entities {
  import opened Wrappers
  import opened Statuses

  /** An applicant's response to a vacancy. */
  datatype Application = Application(
    status: Status,
    coverLetter: Option<string>,
    appliedAt: int,
    statusUpdatedAt: Option<int>,
    employerComment: Option<string>,
    vacancyId: int,
    userId: string,
    resumeId: Option<int>)

  /** A fresh `new Application { … }`: only the keys, the letter and the time are given. */
  function NewApplication(vacancyId: int, userId: string, resumeId: Option<int>, coverLetter: Option<string>, now: int): (a: Application)
    ensures a.status == Pending && a.statusUpdatedAt == None && a.employerComment == None
    ensures a.vacancyId == vacancyId && a.userId == userId && a.resumeId == resumeId
    ensures a.coverLetter == coverLetter && a.appliedAt == now
  {
    Application(Pending, coverLetter, now, None, None, vacancyId, userId, resumeId)
  }

  /** An optional text column fits in `width` characters. */
  predicate FitsIn(s: Option<string>, width: nat)
  {
    s.None? || |s.value| <= width
  }

  /** Column widths: `CoverLetter` 2000, `EmployerComment` 1000. */
  predicate ApplicationFits(a: Application)
  {
    FitsIn(a.coverLetter, 2000) && FitsIn(a.employerComment, 1000)
  }

  datatype Company = Company(
    name: string,
    description: Option<string>,
    contactPerson: Option<string>,
    contactPhone: Option<string>,
    contactEmail: Option<string>,
    isVerified: bool)

  /** A fresh `new Company { … }`: not verified until someone says so. */
  function NewCompany(name: string, description: Option<string>, contactPerson: Option<string>,
                      contactPhone: Option<string>, contactEmail: Option<string>): (c: Company)
    ensures !c.isVerified
    ensures c.name == name && c.description == description && c.contactPerson == contactPerson
    ensures c.contactPhone == contactPhone && c.contactEmail == contactEmail
  {
    Company(name, description, contactPerson, contactPhone, contactEmail, false)
  }

  /** Column widths: `Name` 200, `Description` 500, `ContactPerson` 100, `ContactPhone` 20, `ContactEmail` 100. */
  predicate CompanyFits(c: Company)
  {
    |c.name| <= 200 && FitsIn(c.description, 500) && FitsIn(c.contactPerson, 100)
    && FitsIn(c.contactPhone, 20) && FitsIn(c.contactEmail, 100)
  }

  /** A user's membership of a company; the role is free text (the pages use "Admin" and "Viewer"). */
  datatype CompanyUser = CompanyUser(userId: string, companyId: int, role: Option<string>, joinedAt: int)

  /** A fresh `new CompanyUser { … }`: both keys are given, the role may be missing, and the join time is the creation time. */
  function NewMembership(userId: string, companyId: int, role: Option<string>, now: int): (m: CompanyUser)
    ensures m.userId == userId && m.companyId == companyId && m.role == role && m.joinedAt == now
  {
    CompanyUser(userId, companyId, role, now)
  }

  predicate MembershipFits(m: CompanyUser)
  {
    FitsIn(m.role, 50)
  }

  datatype Vacancy = Vacancy(
    title: string,
    description: string,
    salary: string,
    viewsCount: int,
    postedDate: int,
    isSeasonal: bool,
    isActive: bool,
    category: string,
    location: string,
    companyId: int,
    createdById: Option<string>)

  /**
   * A fresh `new Vacancy { … }` with the given fields: switched on, never
   * viewed, with empty category and location.
   */
  function NewVacancy(title: string, description: string, salary: string, postedDate: int,
                      isSeasonal: bool, companyId: int, createdById: Option<string>): (v: Vacancy)
    ensures v.isActive && v.viewsCount == 0 && v.category == "" && v.location == ""
    ensures v.title == title && v.description == description && v.salary == salary
    ensures v.postedDate == postedDate && v.isSeasonal == isSeasonal
    ensures v.companyId == companyId && v.createdById == createdById
  {
    Vacancy(title, description, salary, 0, postedDate, isSeasonal, true, "", "", companyId, createdById)
  }

  /** Column widths: `Title` 200, `Salary` 100, `Category` 100, `Location` 200. */
  predicate VacancyFits(v: Vacancy)
  {
    |v.title| <= 200 && |v.salary| <= 100 && |v.category| <= 100 && |v.location| <= 200
  }

  datatype Resume = Resume(
    title: string,
    fullName: string,
    birthDate: Option<int>,
    phone: Option<string>,
    email: Option<string>,
    location: Option<string>,
    experienceYears: Option<int>,
    education: Option<string>,
    experience: Option<string>,
    skills: Option<string>,
    about: Option<string>,
    desiredSalary: Option<string>,
    readyToRelocate: bool,
    readyForBusinessTrips: bool,
    isActive: bool,
    isPublished: bool,
    createdAt: int,
    updatedAt: Option<int>,
    userId: string,
    categoryId: Option<int>)

  /**
   * A fresh `new Resume { … }` naming only the title, the holder and the
   * owner: active and published, created now and never updated, every
   * optional field empty.
   */
  function NewResume(title: string, fullName: string, userId: string, now: int): (r: Resume)
    ensures r.isActive && r.isPublished
    ensures r.createdAt == now && r.updatedAt.None?
    ensures r.title == title && r.fullName == fullName && r.userId == userId
    ensures r.categoryId.None? && r.experienceYears.None?
  {
    Resume(title, fullName, None, None, None, None, None, None, None, None, None, None,
           false, false, true, true, now, None, userId, None)
  }

  /** Column widths of a resume. */
  predicate ResumeFits(r: Resume)
  {
    |r.title| <= 200 && FitsIn(r.phone, 20) && FitsIn(r.email, 100) && FitsIn(r.location, 200)
    && FitsIn(r.education, 1000) && FitsIn(r.experience, 1000) && FitsIn(r.skills, 1000)
    && FitsIn(r.about, 1000) && FitsIn(r.desiredSalary, 100)
  }

  datatype Tag = Tag(name: string)
  datatype Requirement = Requirement(text: string, vacancyId: int)
  datatype Offer = Offer(text: string, vacancyId: int)
  datatype VacancyTag = VacancyTag(vacancyId: int, tagId: int)
  datatype Category = Category(name: string, description: Option<string>)
  datatype Location = Location(name: string, region: Option<string>)

  predicate TagFits(t: Tag) { |t.name| <= 50 }
  predicate RequirementFits(q: Requirement) { |q.text| <= 500 }
  predicate OfferFits(o: Offer) { |o.text| <= 500 }
  predicate CategoryFits(c: Category) { |c.name| <= 50 && FitsIn(c.description, 200) }
  predicate LocationFits(l: Location) { |l.name| <= 100 && FitsIn(l.region, 100) }
}
