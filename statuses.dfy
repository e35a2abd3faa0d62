/**
 * The application status enum and the tables that name it: display names,
 * colour and icon classes, the lowercase codes of the menus, and the two
 * parsers the filter drop-downs use to read a status back.
 */
module Statuses {
  import opened Wrappers
  import Text

  /** `ApplicationStatus`; a new application starts as `Pending`. */
  datatype Status = Pending | Viewed | Invited | Accepted | Rejected | Withdrawn

  /** The integer each enum member is stored as (`Pending = 0` … `Withdrawn = 5`). */
  function Ordinal(s: Status): (n: int)
    ensures 0 <= n <= 5
  {
    match s
    case Pending => 0
    case Viewed => 1
    case Invited => 2
    case Accepted => 3
    case Rejected => 4
    case Withdrawn => 5
  }

  /** The enum member an integer denotes, if any: exactly the six values `0..5` are members. */
  function FromOrdinal(n: int): (r: Option<Status>)
    ensures r.Some? <==> 0 <= n <= 5
    ensures r.Some? ==> Ordinal(r.value) == n
  {
    if n == 0 then Some(Pending)
    else if n == 1 then Some(Viewed)
    else if n == 2 then Some(Invited)
    else if n == 3 then Some(Accepted)
    else if n == 4 then Some(Rejected)
    else if n == 5 then Some(Withdrawn)
    else None
  }

  /** Ordinals and members are in one-to-one correspondence. */
  lemma OrdinalRoundTrip(s: Status, n: int)
    ensures FromOrdinal(Ordinal(s)) == Some(s)
    ensures FromOrdinal(n).Some? ==> Ordinal(FromOrdinal(n).value) == n
  {
  }

  /** `GetDisplayName` on any enum value, including integers outside the six members. */
  function GetDisplayName(n: int): (r: string)
    ensures r == "Неизвестно" <==> !(0 <= n <= 5)
  {
    if n == 0 then "На рассмотрении"
    else if n == 1 then "Просмотрено"
    else if n == 2 then "Приглашение на собеседование"
    else if n == 3 then "Принят"
    else if n == 4 then "Отказ"
    else if n == 5 then "Отозвано"
    else "Неизвестно"
  }

  /** `GetColorClass`; the fallback `secondary` is also Withdrawn's colour. */
  function GetColorClass(n: int): (r: string)
    ensures r == "secondary" <==> (n == 5 || !(0 <= n <= 5))
  {
    if n == 0 then "warning"
    else if n == 1 then "info"
    else if n == 2 then "primary"
    else if n == 3 then "success"
    else if n == 4 then "danger"
    else "secondary"
  }

  /** `GetIconClass`. */
  function GetIconClass(n: int): (r: string)
    ensures r == "bi-question-circle" <==> !(0 <= n <= 5)
  {
    if n == 0 then "bi-clock-history"
    else if n == 1 then "bi-eye"
    else if n == 2 then "bi-envelope"
    else if n == 3 then "bi-check-circle"
    else if n == 4 then "bi-x-circle"
    else if n == 5 then "bi-arrow-return-left"
    else "bi-question-circle"
  }

  function DisplayName(s: Status): string { GetDisplayName(Ordinal(s)) }
  function ColorClass(s: Status): string { GetColorClass(Ordinal(s)) }
  function IconClass(s: Status): string { GetIconClass(Ordinal(s)) }

  /** The three tables give six pairwise different strings for the six members. */
  lemma TablesDistinct(s: Status, t: Status)
    requires s != t
    ensures DisplayName(s) != DisplayName(t)
    ensures ColorClass(s) != ColorClass(t)
    ensures IconClass(s) != IconClass(t)
  {
  }

  /** The menus' `GetStatusDisplay`: shorter wording for `Invited` and `Accepted`. */
  function MenuDisplayName(s: Status): (r: string)
    ensures s !in {Invited, Accepted} ==> r == DisplayName(s)
    ensures s in {Invited, Accepted} ==> r != DisplayName(s)
  {
    match s
    case Pending => "На рассмотрении"
    case Viewed => "Просмотрено"
    case Invited => "Приглашение"
    case Accepted => "Принято"
    case Rejected => "Отказ"
    case Withdrawn => "Отозвано"
  }

  /** `status.ToString()`: the member's name. */
  function EnumName(s: Status): string
  {
    match s
    case Pending => "Pending"
    case Viewed => "Viewed"
    case Invited => "Invited"
    case Accepted => "Accepted"
    case Rejected => "Rejected"
    case Withdrawn => "Withdrawn"
  }

  /** `StatusCode = status.ToString().ToLower()`, as the two menus build it. */
  function StatusCode(s: Status): string
  {
    Text.Lower(EnumName(s))
  }

  /** The applicant list's `Status switch`: exact lowercase codes, anything else is no status. */
  function ParseCode(code: string): (r: Option<Status>)
    ensures r.Some? ==> code == StatusCode(r.value)
  {
    var r :=
      if code == "pending" then Some(Pending)
      else if code == "viewed" then Some(Viewed)
      else if code == "invited" then Some(Invited)
      else if code == "accepted" then Some(Accepted)
      else if code == "rejected" then Some(Rejected)
      else if code == "withdrawn" then Some(Withdrawn)
      else None;
    if r.Some? then CodeSpelling(r.value); r else r
  }

  /** The lowercase code of each member, spelled out. */
  lemma CodeSpelling(s: Status)
    ensures StatusCode(s) == match s
      case Pending => "pending"
      case Viewed => "viewed"
      case Invited => "invited"
      case Accepted => "accepted"
      case Rejected => "rejected"
      case Withdrawn => "withdrawn"
  {
    var name := EnumName(s);
    var code := StatusCode(s);
    assert forall i :: 0 <= i < |name| ==> code[i] == Text.LowerChar(name[i]);
  }

  /** Parsing a member's code gives the member back, and only codes parse. */
  lemma CodeRoundTrip(s: Status, code: string)
    ensures ParseCode(StatusCode(s)) == Some(s)
    ensures ParseCode(code) == Some(s) <==> code == StatusCode(s)
  {
    CodeSpelling(s);
  }

  /** The employer list's `Status switch` over display labels; `Withdrawn` has no caption there. */
  function ParseLabel(caption: string): (r: Option<Status>)
    ensures r.Some? ==> r.value != Withdrawn && caption == DisplayName(r.value)
  {
    if caption == "На рассмотрении" then Some(Pending)
    else if caption == "Просмотрено" then Some(Viewed)
    else if caption == "Приглашение на собеседование" then Some(Invited)
    else if caption == "Принят" then Some(Accepted)
    else if caption == "Отказ" then Some(Rejected)
    else None
  }

  /** Label parsing inverts `GetDisplayName` on every member except `Withdrawn`. */
  lemma LabelRoundTrip(s: Status)
    ensures ParseLabel(DisplayName(s)) == if s == Withdrawn then None else Some(s)
  {
  }

  /** `AvailableStatuses`: the labels offered in the employer's filter. */
  const AvailableStatuses: seq<string> := ["На рассмотрении", "Просмотрено", "Приглашение на собеседование", "Принят", "Отказ"]

  /** The offered labels are exactly the ones the parser accepts. */
  lemma AvailableStatusesParse(caption: string)
    ensures caption in AvailableStatuses <==> ParseLabel(caption).Some?
  {
  }

  /**
   * The applicant list's filter: a null or empty `Status` query, or one that
   * is not a code, selects every status.
   */
  function CodeFilter(query: Option<string>): (r: Option<Status>)
    ensures r.Some? <==> query.Some? && ParseCode(query.value).Some?
    ensures r.Some? ==> query.value == StatusCode(r.value)
  {
    if Text.IsNullOrEmpty(query) then None else ParseCode(query.value)
  }

  /**
   * The employer list's filter: a null or empty `Status` query, or one that
   * is not an offered label, selects every status.
   */
  function LabelFilter(query: Option<string>): (r: Option<Status>)
    ensures r.Some? <==> query.Some? && query.value in AvailableStatuses
    ensures r.Some? ==> r.value != Withdrawn && query.value == DisplayName(r.value)
  {
    if Text.IsNullOrEmpty(query) then None else ParseLabel(query.value)
  }

  /** `CanWithdraw`, and the guard of the withdraw handler: only `Pending` and `Viewed`. */
  predicate CanWithdraw(s: Status)
  {
    s == Pending || s == Viewed
  }
}
