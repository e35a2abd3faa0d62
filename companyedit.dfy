/**
 * The company form: with a route id it loads and saves an existing company
 * (members and Admins only, verification changed by Admins only); without
 * one it creates a company under a name no other company has, ignoring
 * case, and enrols the creator as its owner.
 */
module CompanyEditPage {
  import opened Wrappers
  import opened Tables
  import opened Entities
  import opened Store
  import opened Web
  import Text
  import CompanyRepository

  const DuplicateName := "Компания с таким названием уже существует"
  const CompanyUpdated := "Компания успешно обновлена"
  const CompanyCreated := "Компания успешно создана"


  /** `InputModel`: the bound form. */
  datatype CompanyInput = CompanyInput(
    id: Option<int>,
    name: string,
    description: Option<string>,
    contactPerson: Option<string>,
    contactPhone: Option<string>,
    contactEmail: Option<string>,
    isVerified: bool)

  /** The form filled from a stored company. */
  function InputOf(id: int, c: Company): (r: CompanyInput)
    ensures r.id == Some(id) && r.name == c.name && r.description == c.description
    ensures r.contactPerson == c.contactPerson && r.contactPhone == c.contactPhone
    ensures r.contactEmail == c.contactEmail && r.isVerified == c.isVerified
  {
    CompanyInput(Some(id), c.name, c.description, c.contactPerson, c.contactPhone, c.contactEmail, c.isVerified)
  }

  /**
   * The saved company: every form field overwrites the stored one, the name
   * without any uniqueness check; the verification flag only when an Admin saves.
   */
  function Edited(c: Company, input: CompanyInput, isAdmin: bool): (r: Company)
    ensures r.name == input.name && r.description == input.description
    ensures r.contactPerson == input.contactPerson && r.contactPhone == input.contactPhone
    ensures r.contactEmail == input.contactEmail
    ensures isAdmin ==> r.isVerified == input.isVerified
    ensures !isAdmin ==> r.isVerified == c.isVerified
  {
    Company(input.name, input.description, input.contactPerson, input.contactPhone, input.contactEmail,
            if isAdmin then input.isVerified else c.isVerified)
  }

  /** The created company: verified only if an Admin creates it and ticks the box. */
  function NewCompanyOf(input: CompanyInput, isAdmin: bool): (r: Company)
    ensures r.isVerified <==> isAdmin && input.isVerified
    ensures r.name == input.name && r.description == input.description
    ensures r.contactPerson == input.contactPerson && r.contactPhone == input.contactPhone
    ensures r.contactEmail == input.contactEmail
  {
    NewCompany(input.name, input.description, input.contactPerson, input.contactPhone, input.contactEmail)
      .(isVerified := if isAdmin then input.isVerified else false)
  }

  /**
   * What saving an edit answers: the form's id must be present (else the
   * caught exception), the company must exist and the caller must be a
   * member or an Admin.
   */
  function EditResponse(s: Snapshot, caller: string, isAdmin: bool, input: CompanyInput): (r: Response)
    ensures input.id.None? <==> r == FormError(ErrorPrefix + NoValueMessage)
    ensures r == NotFound <==> input.id.Some? && GetById(s.companies, input.id.value).None?
    ensures r == Forbid <==>
      input.id.Some? && GetById(s.companies, input.id.value).Some?
      && !IsMember(s.memberships, caller, input.id.value) && !isAdmin
    ensures r == Redirect(Success(CompanyUpdated)) <==>
      input.id.Some? && GetById(s.companies, input.id.value).Some?
      && (IsMember(s.memberships, caller, input.id.value) || isAdmin)
  {
    if input.id.None? then FormError(ErrorPrefix + NoValueMessage)
    else if GetById(s.companies, input.id.value).None? then NotFound
    else if !IsMember(s.memberships, caller, input.id.value) && !isAdmin then Forbid
    else Redirect(Success(CompanyUpdated))
  }

  /** What creating answers: refused when a company already has the name, ignoring case. */
  function CreateResponse(s: Snapshot, input: CompanyInput): (r: Response)
    ensures r == FormError(DuplicateName) <==>
      exists c :: c in s.companies && Text.EqualsIgnoreCase(c.val.name, input.name)
    ensures r == Redirect(Success(CompanyCreated)) <==>
      forall c :: c in s.companies ==> !Text.EqualsIgnoreCase(c.val.name, input.name)
  {
    if CompanyRepository.ByName(s.companies, input.name).Some? then FormError(DuplicateName)
    else Redirect(Success(CompanyCreated))
  }

  /** The store after a create: the company under the next id, then the creator's owner membership under the one after. */
  function Created(s: Snapshot, input: CompanyInput, caller: string, isAdmin: bool, now: int): (r: Snapshot)
    ensures r.companies == s.companies + [Row(s.nextId, NewCompanyOf(input, isAdmin))]
    ensures r.memberships == s.memberships + [Row(s.nextId + 1, CompanyUser(caller, s.nextId, Some(CompanyRepository.OwnerRole), now))]
    ensures r == s.(companies := r.companies, memberships := r.memberships, nextId := s.nextId + 2)
  {
    s.(companies := s.companies + [Row(s.nextId, NewCompanyOf(input, isAdmin))],
       memberships := s.memberships + [Row(s.nextId + 1, CompanyUser(caller, s.nextId, Some(CompanyRepository.OwnerRole), now))],
       nextId := s.nextId + 2)
  }

  /** No membership can name the company id the store will issue next. */
  lemma NoMembersYet(s: Snapshot, userId: string)
    requires Consistent(s)
    ensures !IsMember(s.memberships, userId, s.nextId)
  {
    forall m | m in s.memberships ensures m.val.companyId != s.nextId {
      var c :| c in s.companies && c.id == m.val.companyId;
    }
  }

  /**
   * Creating keeps the store consistent, and afterwards the creator is a
   * member of the new company in the owner's role, and the company is stored.
   */
  lemma CreatedOwner(s: Snapshot, input: CompanyInput, caller: string, isAdmin: bool, now: int)
    requires Consistent(s)
    ensures Consistent(Created(s, input, caller, isAdmin, now))
    ensures GetById(Created(s, input, caller, isAdmin, now).companies, s.nextId) == Some(NewCompanyOf(input, isAdmin))
    ensures IsMember(Created(s, input, caller, isAdmin, now).memberships, caller, s.nextId)
    ensures CompanyRepository.RoleIn(Created(s, input, caller, isAdmin, now).memberships, caller, s.nextId)
      == Some(CompanyRepository.OwnerRole)
  {
    var c := NewCompanyOf(input, isAdmin);
    var m := CompanyUser(caller, s.nextId, Some(CompanyRepository.OwnerRole), now);
    NoMembersYet(s, caller);
    AddCompanyConsistent(s, c);
    var s1 := s.(companies := s.companies + [Row(s.nextId, c)], nextId := s.nextId + 1);
    assert Row(s.nextId, c) in s1.companies;
    AddMembershipConsistent(s1, m);
    assert Created(s, input, caller, isAdmin, now) == s1.(memberships := s1.memberships + [Row(s1.nextId, m)], nextId := s1.nextId + 1);
    GetStored(s1.companies, s1.nextId, s.nextId, c);
    CompanyRepository.JoinedWithRole(s1.memberships, s1.nextId, m);
  }

  /** Saving an edit as a member or an Admin; `Edit` has checked the rest. */
  method Save(db: Db, isAdmin: bool, input: CompanyInput)
    requires db.Valid() && input.id.Some? && GetById(db.companies, input.id.value).Some?
    modifies db
    ensures db.Valid()
    ensures db.State() == old(db.State()).(companies :=
      Replace(old(db.companies), IndexOf(old(db.companies), input.id.value).value,
              Edited(GetById(old(db.companies), input.id.value).value, input, isAdmin)))
  {
    var i := IndexOf(db.companies, input.id.value).value;
    db.SetCompany(i, Edited(db.companies[i].val, input, isAdmin));
  }

  /** The edit branch of `OnPostAsync`: only an admitted save changes the store. */
  method Edit(db: Db, caller: string, isAdmin: bool, input: CompanyInput) returns (resp: Response)
    requires db.Valid()
    modifies db
    ensures db.Valid()
    ensures resp == EditResponse(old(db.State()), caller, isAdmin, input)
    ensures resp != Redirect(Success(CompanyUpdated)) ==> unchanged(db)
    ensures resp == Redirect(Success(CompanyUpdated)) ==>
      db.State() == old(db.State()).(companies :=
        Replace(old(db.companies), IndexOf(old(db.companies), input.id.value).value,
                Edited(GetById(old(db.companies), input.id.value).value, input, isAdmin)))
  {
    resp := EditResponse(db.State(), caller, isAdmin, input);
    if resp == Redirect(Success(CompanyUpdated)) {
      Save(db, isAdmin, input);
    }
  }

  /** The create branch of `OnPostAsync`: the company and its owner, or the duplicate-name error and no change. */
  method Create(db: Db, caller: string, isAdmin: bool, input: CompanyInput, now: int) returns (resp: Response, newId: Option<int>)
    requires db.Valid()
    modifies db
    ensures db.Valid()
    ensures resp == CreateResponse(old(db.State()), input)
    ensures resp == FormError(DuplicateName) ==> unchanged(db) && newId.None?
    ensures resp != FormError(DuplicateName) ==>
      db.State() == Created(old(db.State()), input, caller, isAdmin, now) && newId == Some(old(db.nextId))
  {
    resp := CreateResponse(db.State(), input);
    if resp == FormError(DuplicateName) {
      return resp, None;
    }
    NoMembersYet(db.State(), caller);
    var id := db.AddCompany(NewCompanyOf(input, isAdmin));
    var _ := CompanyRepository.AddUserToCompany(db, caller, id, Some(CompanyRepository.OwnerRole), now);
    newId := Some(id);
  }

  class CompanyEditModel {
    const id: Option<int>
    var input: CompanyInput

    /** A request with the optional route `Id` and the bound form. */
    constructor (id: Option<int>, input: CompanyInput)
      ensures this.id == id && this.input == input
    {
      this.id := id;
      this.input := input;
    }

    /** `OnGetAsync`: with an id, the company's fields fill the form once it exists and the caller may see it. */
    method OnGet(db: Db, caller: Option<string>, isAdmin: bool) returns (resp: Response)
      modifies this
      ensures Text.IsNullOrEmpty(caller) ==> resp == Challenge && unchanged(this)
      ensures !Text.IsNullOrEmpty(caller) && id.None? ==> resp == ShowPage && unchanged(this)
      ensures !Text.IsNullOrEmpty(caller) && id.Some? && GetById(db.companies, id.value).None? ==>
        resp == NotFound && unchanged(this)
      ensures (!Text.IsNullOrEmpty(caller) && id.Some? && GetById(db.companies, id.value).Some?
               && !IsMember(db.memberships, caller.value, id.value) && !isAdmin) ==>
        resp == Forbid && unchanged(this)
      ensures (!Text.IsNullOrEmpty(caller) && id.Some? && GetById(db.companies, id.value).Some?
               && (IsMember(db.memberships, caller.value, id.value) || isAdmin)) ==>
        resp == ShowPage && input == InputOf(id.value, GetById(db.companies, id.value).value)
    {
      if Text.IsNullOrEmpty(caller) {
        return Challenge;
      }
      if id.None? {
        return ShowPage;
      }
      var company := GetById(db.companies, id.value);
      if company.None? {
        return NotFound;
      }
      if !IsMember(db.memberships, caller.value, id.value) && !isAdmin {
        return Forbid;
      }
      input := InputOf(id.value, company.value);
      resp := ShowPage;
    }

    /**
     * `OnPostAsync`: an invalid form or an anonymous caller changes nothing;
     * the route id chooses between saving the company the form names and
     * creating a new one, whose id the form then carries.
     */
    method OnPost(db: Db, caller: Option<string>, isAdmin: bool, modelValid: bool, now: int) returns (resp: Response)
      requires db.Valid()
      modifies this, db
      ensures db.Valid()
      ensures !modelValid ==> resp == ShowPage && unchanged(db) && unchanged(this)
      ensures modelValid && Text.IsNullOrEmpty(caller) ==> resp == Challenge && unchanged(db) && unchanged(this)
      ensures modelValid && !Text.IsNullOrEmpty(caller) && id.Some? ==>
        resp == EditResponse(old(db.State()), caller.value, isAdmin, old(input)) && input == old(input)
      ensures modelValid && !Text.IsNullOrEmpty(caller) && id.Some? && resp != Redirect(Success(CompanyUpdated)) ==>
        unchanged(db)
      ensures modelValid && !Text.IsNullOrEmpty(caller) && id.Some? && resp == Redirect(Success(CompanyUpdated)) ==>
        db.State() == old(db.State()).(companies :=
          Replace(old(db.companies), IndexOf(old(db.companies), old(input).id.value).value,
                  Edited(GetById(old(db.companies), old(input).id.value).value, old(input), isAdmin)))
      ensures modelValid && !Text.IsNullOrEmpty(caller) && id.None? && resp == FormError(DuplicateName) ==>
        unchanged(db) && input == old(input)
      ensures modelValid && !Text.IsNullOrEmpty(caller) && id.None? ==>
        resp == CreateResponse(old(db.State()), old(input))
      ensures modelValid && !Text.IsNullOrEmpty(caller) && id.None? && resp != FormError(DuplicateName) ==>
        db.State() == Created(old(db.State()), old(input), caller.value, isAdmin, now)
        && input == old(input).(id := Some(old(db.nextId)))
    {
      if !modelValid {
        return ShowPage;
      }
      if Text.IsNullOrEmpty(caller) {
        return Challenge;
      }
      if id.Some? {
        resp := Edit(db, caller.value, isAdmin, input);
      } else {
        var newId;
        resp, newId := Create(db, caller.value, isAdmin, input, now);
        if newId.Some? {
          input := input.(id := newId);
        }
      }
    }
  }
}
