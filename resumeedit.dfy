/**
 * The resume form: with a route id it loads the applicant's own resume and
 * saves the resume the form names, without one it creates a resume for the
 * signed-in user. The annotations of the form decide whether it is saved at all.
 */
module ResumeEditPage {
  import opened Wrappers
  import opened Tables
  import opened Entities
  import opened Store
  import opened Web
  import Text

  const ResumeUpdated := "Резюме успешно обновлено"
  const ResumeCreated := "Резюме успешно создано"

  /** `InputModel`: the bound form; dates are kept as numbers. */
  datatype ResumeInput = ResumeInput(
    id: Option<int>,
    title: string,
    fullName: string,
    birthDate: Option<int>,
    phone: Option<string>,
    email: Option<string>,
    location: Option<string>,
    experienceYears: Option<int>,
    education: Option<string>,
    experience: Option<string>,
    skills: Option<string>,
    about: Option<string>,
    desiredSalary: Option<string>,
    readyToRelocate: bool,
    readyForBusinessTrips: bool,
    isActive: bool,
    isPublished: bool,
    categoryId: Option<int>)

  /** A fresh form: empty texts, both switches of visibility on. */
  function DefaultInput(): (r: ResumeInput)
    ensures r.id.None? && r.title == "" && r.fullName == ""
    ensures r.isActive && r.isPublished && !r.readyToRelocate && !r.readyForBusinessTrips
    ensures r.phone.None? && r.email.None? && r.experienceYears.None? && r.categoryId.None?
  {
    ResumeInput(None, "", "", None, None, None, None, None, None, None, None, None, None,
                false, false, true, true, None)
  }

  /** A field the annotations of `InputModel` reject. */
  datatype FieldError = TitleRequired | FullNameRequired | BadPhone | BadEmail | BadExperience

  /** The message the page shows for each rejected field. */
  function Message(e: FieldError): string
  {
    match e
    case TitleRequired => "Название резюме обязательно"
    case FullNameRequired => "Укажите ФИО"
    case BadPhone => "Неверный формат телефона"
    case BadEmail => "Неверный формат email"
    case BadExperience => "Введите корректное значение"
  }

  /** One check: the field's error when the check fails, nothing otherwise. */
  function Flag(fails: bool, e: FieldError): (r: seq<FieldError>)
    ensures forall x :: x in r <==> fails && x == e
    ensures r == [] <==> !fails
  {
    if fails then [e] else []
  }

  /**
   * Whether the annotation behind `e` rejects the form: the two texts are
   * required, the years of experience lie in 0..60, and `phoneOk` and
   * `emailOk` are the verdicts of the phone and e-mail format checks on a
   * present value; an absent value passes all but the required checks.
   */
  predicate Fails(e: FieldError, input: ResumeInput, phoneOk: bool, emailOk: bool)
  {
    match e
    case TitleRequired => Text.IsBlank(input.title)
    case FullNameRequired => Text.IsBlank(input.fullName)
    case BadPhone => input.phone.Some? && !phoneOk
    case BadEmail => input.email.Some? && !emailOk
    case BadExperience => input.experienceYears.Some? && !(0 <= input.experienceYears.value <= 60)
  }

  /** The fields the annotations of `InputModel` reject, in the order of the properties. */
  function ValidationErrors(input: ResumeInput, phoneOk: bool, emailOk: bool): (r: seq<FieldError>)
    ensures r == [] <==>
      !Text.IsBlank(input.title) && !Text.IsBlank(input.fullName)
      && (input.phone.None? || phoneOk) && (input.email.None? || emailOk)
      && (input.experienceYears.None? || 0 <= input.experienceYears.value <= 60)
  {
    Flag(Fails(TitleRequired, input, phoneOk, emailOk), TitleRequired)
    + Flag(Fails(FullNameRequired, input, phoneOk, emailOk), FullNameRequired)
    + Flag(Fails(BadPhone, input, phoneOk, emailOk), BadPhone)
    + Flag(Fails(BadEmail, input, phoneOk, emailOk), BadEmail)
    + Flag(Fails(BadExperience, input, phoneOk, emailOk), BadExperience)
  }

  /** A field is reported exactly when its check fails. */
  lemma Reported(e: FieldError, input: ResumeInput, phoneOk: bool, emailOk: bool)
    ensures e in ValidationErrors(input, phoneOk, emailOk) <==> Fails(e, input, phoneOk, emailOk)
  {
    var r := ValidationErrors(input, phoneOk, emailOk);
    var a := Flag(Fails(TitleRequired, input, phoneOk, emailOk), TitleRequired);
    var b := Flag(Fails(FullNameRequired, input, phoneOk, emailOk), FullNameRequired);
    var c := Flag(Fails(BadPhone, input, phoneOk, emailOk), BadPhone);
    var d := Flag(Fails(BadEmail, input, phoneOk, emailOk), BadEmail);
    var f := Flag(Fails(BadExperience, input, phoneOk, emailOk), BadExperience);
    assert r == a + b + c + d + f;
    assert e in r <==> e in a || e in b || e in c || e in d || e in f;
  }

  /** The form filled from a stored resume. */
  function InputOf(id: int, r: Resume): (f: ResumeInput)
    ensures f.id == Some(id) && f.title == r.title && f.fullName == r.fullName
    ensures f.birthDate == r.birthDate && f.phone == r.phone && f.email == r.email
    ensures f.location == r.location && f.experienceYears == r.experienceYears
    ensures f.education == r.education && f.experience == r.experience
    ensures f.skills == r.skills && f.about == r.about && f.desiredSalary == r.desiredSalary
    ensures f.readyToRelocate == r.readyToRelocate && f.readyForBusinessTrips == r.readyForBusinessTrips
    ensures f.isActive == r.isActive && f.isPublished == r.isPublished && f.categoryId == r.categoryId
  {
    ResumeInput(Some(id), r.title, r.fullName, r.birthDate, r.phone, r.email, r.location, r.experienceYears,
                r.education, r.experience, r.skills, r.about, r.desiredSalary, r.readyToRelocate,
                r.readyForBusinessTrips, r.isActive, r.isPublished, r.categoryId)
  }

  /** The saved resume at time `now`: every form field overwrites the stored one; owner and creation time stay. */
  function Edited(r: Resume, input: ResumeInput, now: int): (e: Resume)
    ensures e.userId == r.userId && e.createdAt == r.createdAt && e.updatedAt == Some(now)
  {
    Resume(input.title, input.fullName, input.birthDate, input.phone, input.email, input.location,
           input.experienceYears, input.education, input.experience, input.skills, input.about,
           input.desiredSalary, input.readyToRelocate, input.readyForBusinessTrips, input.isActive,
           input.isPublished, r.createdAt, Some(now), r.userId, input.categoryId)
  }

  /** The created resume: the form's fields, owned by `userId`, created at `now` and never updated. */
  function NewResumeOf(input: ResumeInput, userId: string, now: int): (r: Resume)
    ensures r.userId == userId && r.createdAt == now && r.updatedAt.None?
  {
    NewResume(input.title, input.fullName, userId, now).(
      birthDate := input.birthDate, phone := input.phone, email := input.email, location := input.location,
      experienceYears := input.experienceYears, education := input.education, experience := input.experience,
      skills := input.skills, about := input.about, desiredSalary := input.desiredSalary,
      readyToRelocate := input.readyToRelocate, readyForBusinessTrips := input.readyForBusinessTrips,
      isActive := input.isActive, isPublished := input.isPublished, categoryId := input.categoryId)
  }

  /** Reopening a saved resume shows exactly the form that was saved, under the resume's id. */
  lemma EditedRoundTrip(id: int, r: Resume, input: ResumeInput, now: int)
    ensures InputOf(id, Edited(r, input, now)) == input.(id := Some(id))
  {
  }

  /** Reopening a created resume shows exactly the form it was created from, under its new id. */
  lemma CreatedRoundTrip(id: int, input: ResumeInput, userId: string, now: int)
    ensures InputOf(id, NewResumeOf(input, userId, now)) == input.(id := Some(id))
  {
  }

  /** Saving the form as it was loaded changes nothing but the update time. */
  lemma UnchangedFormOnlyStamps(id: int, r: Resume, now: int)
    ensures Edited(r, InputOf(id, r), now) == r.(updatedAt := Some(now))
  {
  }

  /** Saving the same form twice leaves what the second save leaves. */
  lemma EditTwice(r: Resume, input: ResumeInput, t1: int, t2: int)
    ensures Edited(Edited(r, input, t1), input, t2) == Edited(r, input, t2)
  {
  }

  /**
   * What saving an edit answers: the form's id must be present (else the
   * caught exception), and the resume must exist and be the caller's, else
   * `NotFound`; a foreign resume is not told apart from a missing one.
   */
  function EditResponse(rs: seq<Row<Resume>>, caller: string, input: ResumeInput): (r: Response)
    ensures input.id.None? <==> r == FormError(ErrorPrefix + NoValueMessage)
    ensures r == NotFound <==>
      input.id.Some? && (GetById(rs, input.id.value).None? || GetById(rs, input.id.value).value.userId != caller)
    ensures r == Redirect(Success(ResumeUpdated)) <==>
      input.id.Some? && GetById(rs, input.id.value).Some? && GetById(rs, input.id.value).value.userId == caller
  {
    if input.id.None? then FormError(ErrorPrefix + NoValueMessage)
    else if GetById(rs, input.id.value).None? || GetById(rs, input.id.value).value.userId != caller then NotFound
    else Redirect(Success(ResumeUpdated))
  }

  /** Saving an edit of the caller's own resume; `Edit` has checked the rest. */
  method Save(db: Db, input: ResumeInput, now: int)
    requires db.Valid() && input.id.Some? && GetById(db.resumes, input.id.value).Some?
    modifies db
    ensures db.Valid()
    ensures db.State() == old(db.State()).(resumes :=
      Replace(old(db.resumes), IndexOf(old(db.resumes), input.id.value).value,
              Edited(GetById(old(db.resumes), input.id.value).value, input, now)))
  {
    var i := IndexOf(db.resumes, input.id.value).value;
    db.SetResume(i, Edited(db.resumes[i].val, input, now));
  }

  /** The edit branch of `OnPostAsync`: only an admitted save changes the store. */
  method Edit(db: Db, caller: string, input: ResumeInput, now: int) returns (resp: Response)
    requires db.Valid()
    modifies db
    ensures db.Valid()
    ensures resp == EditResponse(old(db.resumes), caller, input)
    ensures resp != Redirect(Success(ResumeUpdated)) ==> unchanged(db)
    ensures resp == Redirect(Success(ResumeUpdated)) ==>
      db.State() == old(db.State()).(resumes :=
        Replace(old(db.resumes), IndexOf(old(db.resumes), input.id.value).value,
                Edited(GetById(old(db.resumes), input.id.value).value, input, now)))
  {
    resp := EditResponse(db.resumes, caller, input);
    if resp == Redirect(Success(ResumeUpdated)) {
      Save(db, input, now);
    }
  }

  /** After an admitted edit the resume is found under its id with the form's contents, and every other resume is as it was. */
  lemma EditStored(rs: seq<Row<Resume>>, next: int, caller: string, input: ResumeInput, now: int, other: int)
    requires Keyed(rs, next)
    requires EditResponse(rs, caller, input) == Redirect(Success(ResumeUpdated))
    ensures GetById(Replace(rs, IndexOf(rs, input.id.value).value, Edited(GetById(rs, input.id.value).value, input, now)),
                    input.id.value).Some?
    ensures InputOf(input.id.value,
                    GetById(Replace(rs, IndexOf(rs, input.id.value).value, Edited(GetById(rs, input.id.value).value, input, now)),
                            input.id.value).value) == input
    ensures GetById(Replace(rs, IndexOf(rs, input.id.value).value, Edited(GetById(rs, input.id.value).value, input, now)),
                    input.id.value).value.userId == caller
    ensures other != input.id.value ==>
      GetById(Replace(rs, IndexOf(rs, input.id.value).value, Edited(GetById(rs, input.id.value).value, input, now)), other)
      == GetById(rs, other)
  {
    var id := input.id.value;
    var i := IndexOf(rs, id).value;
    ReplaceLookup(rs, next, i, Edited(GetById(rs, id).value, input, now), other);
    EditedRoundTrip(id, GetById(rs, id).value, input, now);
  }

  class ResumeEditModel {
    const id: Option<int>
    var input: ResumeInput

    /** A request with the optional route `Id` and the bound form. */
    constructor (id: Option<int>, input: ResumeInput)
      ensures this.id == id && this.input == input
    {
      this.id := id;
      this.input := input;
    }

    /** `OnGetAsync`: with an id, the resume fills the form once it exists and is the caller's. */
    method OnGet(db: Db, caller: Option<string>) returns (resp: Response)
      modifies this
      ensures Text.IsNullOrEmpty(caller) ==> resp == Challenge && unchanged(this)
      ensures !Text.IsNullOrEmpty(caller) && id.None? ==> resp == ShowPage && unchanged(this)
      ensures !Text.IsNullOrEmpty(caller) && id.Some? && GetById(db.resumes, id.value).None? ==>
        resp == NotFound && unchanged(this)
      ensures (!Text.IsNullOrEmpty(caller) && id.Some? && GetById(db.resumes, id.value).Some?
               && GetById(db.resumes, id.value).value.userId != caller.value) ==>
        resp == Forbid && unchanged(this)
      ensures (!Text.IsNullOrEmpty(caller) && id.Some? && GetById(db.resumes, id.value).Some?
               && GetById(db.resumes, id.value).value.userId == caller.value) ==>
        resp == ShowPage && input == InputOf(id.value, GetById(db.resumes, id.value).value)
    {
      if Text.IsNullOrEmpty(caller) {
        return Challenge;
      }
      if id.None? {
        return ShowPage;
      }
      var resume := GetById(db.resumes, id.value);
      if resume.None? {
        return NotFound;
      }
      if resume.value.userId != caller.value {
        return Forbid;
      }
      input := InputOf(id.value, resume.value);
      resp := ShowPage;
    }

    /**
     * `OnPostAsync`: a form with validation errors or an anonymous caller
     * changes nothing; the route id chooses between saving the resume the
     * form names and creating one, whose id the form then carries.
     */
    method OnPost(db: Db, caller: Option<string>, phoneOk: bool, emailOk: bool, now: int) returns (resp: Response)
      requires db.Valid()
      modifies this, db
      ensures db.Valid()
      ensures ValidationErrors(old(input), phoneOk, emailOk) != [] ==> resp == ShowPage && unchanged(db) && unchanged(this)
      ensures ValidationErrors(old(input), phoneOk, emailOk) == [] && Text.IsNullOrEmpty(caller) ==>
        resp == Challenge && unchanged(db) && unchanged(this)
      ensures ValidationErrors(old(input), phoneOk, emailOk) == [] && !Text.IsNullOrEmpty(caller) && id.Some? ==>
        resp == EditResponse(old(db.resumes), caller.value, old(input)) && input == old(input)
      ensures ValidationErrors(old(input), phoneOk, emailOk) == [] && !Text.IsNullOrEmpty(caller) && id.Some?
              && resp != Redirect(Success(ResumeUpdated)) ==>
        unchanged(db)
      ensures ValidationErrors(old(input), phoneOk, emailOk) == [] && !Text.IsNullOrEmpty(caller) && id.Some?
              && resp == Redirect(Success(ResumeUpdated)) ==>
        db.State() == old(db.State()).(resumes :=
          Replace(old(db.resumes), IndexOf(old(db.resumes), old(input).id.value).value,
                  Edited(GetById(old(db.resumes), old(input).id.value).value, old(input), now)))
      ensures ValidationErrors(old(input), phoneOk, emailOk) == [] && !Text.IsNullOrEmpty(caller) && id.None? ==>
        resp == Redirect(Success(ResumeCreated)) && input == old(input).(id := Some(old(db.nextId)))
        && db.State() == old(db.State()).(resumes := old(db.resumes) + [Row(old(db.nextId), NewResumeOf(old(input), caller.value, now))],
                                          nextId := old(db.nextId) + 1)
    {
      if ValidationErrors(input, phoneOk, emailOk) != [] {
        return ShowPage;
      }
      if Text.IsNullOrEmpty(caller) {
        return Challenge;
      }
      if id.Some? {
        resp := Edit(db, caller.value, input, now);
      } else {
        var newId := db.AddResume(NewResumeOf(input, caller.value, now));
        input := input.(id := Some(newId));
        resp := Redirect(Success(ResumeCreated));
      }
    }
  }
}
