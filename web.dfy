/** What a page handler answers, and the one-shot message it leaves for the next page. */
module Web {
  import opened Wrappers

  /** A `TempData` message: none, a success text or an error text. */
  datatype Notice = NoNotice | Success(text: string) | Failure(text: string)

  /**
   * `Page()`, `Page()` after a form error, `RedirectToPage(...)` carrying a
   * notice, `NotFound()`, `Forbid()`, `Challenge()`, and the error page an
   * unhandled exception ends in.
   */
  datatype Response =
    | ShowPage
    | FormError(message: string)
    | Redirect(notice: Notice)
    | NotFound
    | Forbid
    | Challenge
    | ServerError

  /** The form error a caught exception leaves: "Ошибка: " and the exception's message. */
  const ErrorPrefix := "Ошибка: "
  /** The message of the exception `Input.Id!.Value` throws when the form carries no id. */
  const NoValueMessage := "Nullable object must have a value."

  /** What the identity store knows of a user: `FullName`, `Email`, `PhoneNumber`. */
  datatype Profile = Profile(fullName: Option<string>, email: Option<string>, phone: Option<string>)

  /** `UserManager.FindByIdAsync`, given as a table of the users the page may look up. */
  function FindUser(users: map<string, Profile>, id: string): (r: Option<Profile>)
    ensures r.Some? <==> id in users
    ensures r.Some? ==> r.value == users[id]
  {
    if id in users then Some(users[id]) else None
  }

  /** `user?.FullName ?? fallback`. */
  function NameOr(user: Option<Profile>, fallback: string): (r: string)
    ensures user.None? || user.value.fullName.None? ==> r == fallback
    ensures user.Some? && user.value.fullName.Some? ==> r == user.value.fullName.value
  {
    if user.Some? && user.value.fullName.Some? then user.value.fullName.value else fallback
  }

  /** `user?.Email ?? "Не указан"`. */
  function EmailOrUnknown(user: Option<Profile>): (r: string)
    ensures user.None? || user.value.email.None? ==> r == "Не указан"
    ensures user.Some? && user.value.email.Some? ==> r == user.value.email.value
  {
    if user.Some? && user.value.email.Some? then user.value.email.value else "Не указан"
  }

  /** `user?.PhoneNumber`. */
  function PhoneOf(user: Option<Profile>): (r: Option<string>)
    ensures user.None? ==> r.None?
    ensures user.Some? ==> r == user.value.phone
  {
    if user.Some? then user.value.phone else None
  }
}
