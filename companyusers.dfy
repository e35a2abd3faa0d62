/**
 * The member list of one company and its three forms: add a user by email,
 * change a member's role, remove a member. Every handler first requires a
 * signed-in caller who belongs to the company or is a site Admin.
 */
module CompanyUsersPage {
  import opened Wrappers
  import opened Tables
  import opened Entities
  import opened Store
  import opened Web
  import Text
  import CompanyRepository

  const UnknownEmail := "Пользователь с таким email не найден"
  const AlreadyMember := "Пользователь уже состоит в компании"
  const UserAdded := "Пользователь успешно добавлен"
  const OwnerRoleFixed := "Нельзя изменить роль владельца компании"
  const RoleChanged := "Роль пользователя обновлена"
  const SelfRemoval := "Вы не можете удалить себя из компании"
  const OwnerRemoval := "Нельзя удалить владельца компании"
  const UserRemoved := "Пользователь удален из компании"

  /** `CompanyUserViewModel`. */
  datatype MemberView = MemberView(userId: string, email: string, fullName: Option<string>, role: string, joinedAt: int)

  /** The access check of every handler: a signed-in caller who is a member or an Admin. `None` lets it go on. */
  function Access(ms: seq<Row<CompanyUser>>, caller: Option<string>, isAdmin: bool, companyId: int): (r: Option<Response>)
    ensures r == Some(Challenge) <==> Text.IsNullOrEmpty(caller)
    ensures r == Some(Forbid) <==> !Text.IsNullOrEmpty(caller) && !IsMember(ms, caller.value, companyId) && !isAdmin
    ensures r.None? || r == Some(Challenge) || r == Some(Forbid)
  {
    if Text.IsNullOrEmpty(caller) then Some(Challenge)
    else if !IsMember(ms, caller.value, companyId) && !isAdmin then Some(Forbid)
    else None
  }

  /** One listed member: email from the identity store or "Неизвестно", and "Viewer" for a member without a role. */
  function MemberViewOf(m: CompanyUser, users: map<string, Profile>): (r: MemberView)
    ensures r.userId == m.userId && r.joinedAt == m.joinedAt
    ensures m.role.None? ==> r.role == "Viewer"
    ensures m.role.Some? ==> r.role == m.role.value
    ensures m.userId !in users || users[m.userId].email.None? ==> r.email == "Неизвестно"
    ensures m.userId in users && users[m.userId].email.Some? ==> r.email == users[m.userId].email.value
    ensures m.userId in users ==> r.fullName == users[m.userId].fullName
    ensures m.userId !in users ==> r.fullName.None?
  {
    var user := FindUser(users, m.userId);
    MemberView(
      m.userId,
      if user.Some? && user.value.email.Some? then user.value.email.value else "Неизвестно",
      if user.Some? then user.value.fullName else None,
      if m.role.Some? then m.role.value else "Viewer",
      m.joinedAt)
  }

  /** The `Users` list: one view per membership of the company, in table order. */
  function MemberViews(ms: seq<Row<CompanyUser>>, companyId: int, users: map<string, Profile>): (r: seq<MemberView>)
    ensures |r| == |CompanyRepository.MembersOf(ms, companyId)|
    ensures forall i :: 0 <= i < |r| ==> r[i] == MemberViewOf(CompanyRepository.MembersOf(ms, companyId)[i].val, users)
  {
    var members := CompanyRepository.MembersOf(ms, companyId);
    seq(|members|, i requires 0 <= i < |members| => MemberViewOf(members[i].val, users))
  }

  /** Every listed member belongs to the company, and every membership of the company is listed. */
  lemma MemberViewsComplete(ms: seq<Row<CompanyUser>>, companyId: int, users: map<string, Profile>, m: Row<CompanyUser>)
    requires m in ms && m.val.companyId == companyId
    ensures MemberViewOf(m.val, users) in MemberViews(ms, companyId, users)
  {
    var members := CompanyRepository.MembersOf(ms, companyId);
    var k :| 0 <= k < |members| && members[k] == m;
    assert MemberViews(ms, companyId, users)[k] == MemberViewOf(m.val, users);
  }

  /**
   * What `OnPostAddUserAsync` answers. The email is looked up in `directory`
   * (`FindByEmailAsync`); an unknown email and an existing member are
   * reported as errors; otherwise success is reported, whatever the insert did.
   */
  function AddUserResponse(s: Snapshot, caller: Option<string>, isAdmin: bool, companyId: int,
                           email: string, directory: map<string, string>): (r: Response)
    ensures Access(s.memberships, caller, isAdmin, companyId).Some? ==> r == Access(s.memberships, caller, isAdmin, companyId).value
    ensures r == Redirect(Failure(UnknownEmail)) <==>
      Access(s.memberships, caller, isAdmin, companyId).None? && email !in directory
    ensures r == Redirect(Failure(AlreadyMember)) <==>
      Access(s.memberships, caller, isAdmin, companyId).None? && email in directory
      && IsMember(s.memberships, directory[email], companyId)
    ensures r == Redirect(Success(UserAdded)) <==>
      Access(s.memberships, caller, isAdmin, companyId).None? && email in directory
      && !IsMember(s.memberships, directory[email], companyId)
  {
    match Access(s.memberships, caller, isAdmin, companyId)
    case Some(denied) => denied
    case None =>
      if email !in directory then Redirect(Failure(UnknownEmail))
      else if IsMember(s.memberships, directory[email], companyId) then Redirect(Failure(AlreadyMember))
      else Redirect(Success(UserAdded))
  }

  /** What `OnPostChangeRoleAsync` answers: the owner's role may be changed by the owner alone. */
  function ChangeRoleResponse(s: Snapshot, caller: Option<string>, isAdmin: bool, companyId: int, userId: string): (r: Response)
    ensures Access(s.memberships, caller, isAdmin, companyId).Some? ==> r == Access(s.memberships, caller, isAdmin, companyId).value
    ensures r == Redirect(Failure(OwnerRoleFixed)) <==>
      Access(s.memberships, caller, isAdmin, companyId).None?
      && CompanyRepository.RoleIn(s.memberships, userId, companyId) == Some(CompanyRepository.OwnerRole) && caller.value != userId
    ensures r == Redirect(Success(RoleChanged)) <==>
      Access(s.memberships, caller, isAdmin, companyId).None?
      && (CompanyRepository.RoleIn(s.memberships, userId, companyId) != Some(CompanyRepository.OwnerRole) || caller.value == userId)
  {
    match Access(s.memberships, caller, isAdmin, companyId)
    case Some(denied) => denied
    case None =>
      if CompanyRepository.RoleIn(s.memberships, userId, companyId) == Some(CompanyRepository.OwnerRole) && caller.value != userId
      then Redirect(Failure(OwnerRoleFixed))
      else Redirect(Success(RoleChanged))
  }

  /** What `OnPostRemoveUserAsync` answers: never oneself, never the owner. */
  function RemoveUserResponse(s: Snapshot, caller: Option<string>, isAdmin: bool, companyId: int, userId: string): (r: Response)
    ensures Access(s.memberships, caller, isAdmin, companyId).Some? ==> r == Access(s.memberships, caller, isAdmin, companyId).value
    ensures r == Redirect(Failure(SelfRemoval)) <==>
      Access(s.memberships, caller, isAdmin, companyId).None? && caller.value == userId
    ensures r == Redirect(Failure(OwnerRemoval)) <==>
      Access(s.memberships, caller, isAdmin, companyId).None? && caller.value != userId
      && CompanyRepository.RoleIn(s.memberships, userId, companyId) == Some(CompanyRepository.OwnerRole)
    ensures r == Redirect(Success(UserRemoved)) <==>
      Access(s.memberships, caller, isAdmin, companyId).None? && caller.value != userId
      && CompanyRepository.RoleIn(s.memberships, userId, companyId) != Some(CompanyRepository.OwnerRole)
  {
    match Access(s.memberships, caller, isAdmin, companyId)
    case Some(denied) => denied
    case None =>
      if caller.value == userId then Redirect(Failure(SelfRemoval))
      else if CompanyRepository.RoleIn(s.memberships, userId, companyId) == Some(CompanyRepository.OwnerRole) then Redirect(Failure(OwnerRemoval))
      else Redirect(Success(UserRemoved))
  }

  /** An owner stays an owner against everyone else: neither the role form nor the remove form touches them. */
  lemma OwnerProtected(s: Snapshot, caller: string, isAdmin: bool, companyId: int, owner: Row<CompanyUser>)
    requires Consistent(s) && owner in s.memberships && owner.val.role == Some(CompanyRepository.OwnerRole)
    requires caller != "" && caller != owner.val.userId && owner.val.companyId == companyId
    ensures ChangeRoleResponse(s, Some(caller), isAdmin, companyId, owner.val.userId)
      in {Forbid, Redirect(Failure(OwnerRoleFixed))}
    ensures RemoveUserResponse(s, Some(caller), isAdmin, companyId, owner.val.userId)
      in {Forbid, Redirect(Failure(OwnerRemoval))}
  {
    CompanyRepository.RoleOfMember(s.memberships, owner);
  }

  class CompanyUsersModel {
    const id: int
    var companyName: string
    var users: seq<MemberView>

    /** A request for the company with route `Id`. */
    constructor (id: int)
      ensures this.id == id && companyName == "" && users == []
    {
      this.id := id;
      companyName := "";
      users := [];
    }

    /** `OnGetAsync`: the access check, then `NotFound` for a missing company, else its name and members. */
    method OnGet(db: Db, caller: Option<string>, isAdmin: bool, profiles: map<string, Profile>) returns (resp: Response)
      modifies this
      ensures Access(db.memberships, caller, isAdmin, id).Some? ==>
        resp == Access(db.memberships, caller, isAdmin, id).value && unchanged(this)
      ensures Access(db.memberships, caller, isAdmin, id).None? && GetById(db.companies, id).None? ==>
        resp == NotFound && unchanged(this)
      ensures Access(db.memberships, caller, isAdmin, id).None? && GetById(db.companies, id).Some? ==>
        resp == ShowPage && companyName == GetById(db.companies, id).value.name
        && users == MemberViews(db.memberships, id, profiles)
    {
      var access := Access(db.memberships, caller, isAdmin, id);
      if access.Some? {
        return access.value;
      }
      var company := GetById(db.companies, id);
      if company.None? {
        return NotFound;
      }
      companyName := company.value.name;
      users := MemberViews(db.memberships, id, profiles);
      resp := ShowPage;
    }

    /**
     * `OnPostAddUserAsync`: on success exactly one membership, with the form's
     * role, is added (the insert itself declines a missing company); every
     * other answer leaves the store unchanged.
     */
    method OnPostAddUser(db: Db, caller: Option<string>, isAdmin: bool, companyId: int, email: string,
                         role: Option<string>, directory: map<string, string>, now: int)
      returns (resp: Response)
      requires db.Valid()
      modifies db
      ensures db.Valid()
      ensures resp == AddUserResponse(old(db.State()), caller, isAdmin, companyId, email, directory)
      ensures resp != Redirect(Success(UserAdded)) || companyId !in old(Ids(db.companies)) ==> unchanged(db)
      ensures resp == Redirect(Success(UserAdded)) && companyId in old(Ids(db.companies)) ==>
        db.State() == old(db.State()).(
          memberships := old(db.memberships) + [Row(old(db.nextId), CompanyUser(directory[email], companyId, role, now))],
          nextId := old(db.nextId) + 1)
    {
      resp := AddUserResponse(db.State(), caller, isAdmin, companyId, email, directory);
      if resp == Redirect(Success(UserAdded)) {
        var _ := CompanyRepository.AddUserToCompany(db, directory[email], companyId, role, now);
      }
    }

    /** `OnPostChangeRoleAsync`: on success the member's role becomes `newRole` (nothing happens for a non-member). */
    method OnPostChangeRole(db: Db, caller: Option<string>, isAdmin: bool, companyId: int, userId: string, newRole: string)
      returns (resp: Response)
      requires db.Valid()
      modifies db
      ensures db.Valid()
      ensures resp == ChangeRoleResponse(old(db.State()), caller, isAdmin, companyId, userId)
      ensures resp != Redirect(Success(RoleChanged)) || !old(IsMember(db.memberships, userId, companyId)) ==> unchanged(db)
      ensures resp == Redirect(Success(RoleChanged)) && old(IsMember(db.memberships, userId, companyId)) ==>
        var i := CompanyRepository.MembershipIndex(old(db.memberships), userId, companyId).value;
        db.State() == old(db.State()).(memberships := Replace(old(db.memberships), i, old(db.memberships)[i].val.(role := Some(newRole))))
    {
      resp := ChangeRoleResponse(db.State(), caller, isAdmin, companyId, userId);
      if resp == Redirect(Success(RoleChanged)) {
        var _ := CompanyRepository.UpdateUserRole(db, userId, companyId, newRole);
      }
    }

    /** `OnPostRemoveUserAsync`: on success only the target's membership of this company goes. */
    method OnPostRemoveUser(db: Db, caller: Option<string>, isAdmin: bool, companyId: int, userId: string)
      returns (resp: Response)
      requires db.Valid()
      modifies db
      ensures db.Valid()
      ensures resp == RemoveUserResponse(old(db.State()), caller, isAdmin, companyId, userId)
      ensures resp != Redirect(Success(UserRemoved)) || !old(IsMember(db.memberships, userId, companyId)) ==> unchanged(db)
      ensures resp == Redirect(Success(UserRemoved)) && old(IsMember(db.memberships, userId, companyId)) ==>
        db.State() == old(db.State()).(memberships :=
          RemoveAt(old(db.memberships), CompanyRepository.MembershipIndex(old(db.memberships), userId, companyId).value))
    {
      resp := RemoveUserResponse(db.State(), caller, isAdmin, companyId, userId);
      if resp == Redirect(Success(UserRemoved)) {
        var _ := CompanyRepository.RemoveUserFromCompany(db, userId, companyId);
      }
    }
  }
}
