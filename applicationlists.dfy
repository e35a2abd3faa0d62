/**
 * What the applicant's and the employer's application lists share: the
 * status filter applied to a listing, the per-status counters, the access
 * rule of the employer pages and the cover-letter preview.
 */
module ApplicationLists {
  import opened Wrappers
  import opened Seqs
  import opened Tables
  import opened Statuses
  import opened Entities
  import opened Store
  import ApplicationRepository

  /** `a => a.Status == s`. */
  function StatusIs(s: Status): Row<Application> -> bool
  {
    (x: Row<Application>) => x.val.status == s
  }

  /**
   * `filtered.Where(a => a.Status == statusEnum.Value)` when a status was
   * parsed, the whole listing otherwise; the order is kept.
   */
  function Narrow(apps: seq<Row<Application>>, filter: Option<Status>): (r: seq<Row<Application>>)
    ensures forall x :: x in r <==> x in apps && (filter.None? || x.val.status == filter.value)
    ensures filter.None? ==> r == apps
    ensures |r| <= |apps|
    ensures Sorted(apps, ApplicationRepository.LaterApplied) ==> Sorted(r, ApplicationRepository.LaterApplied)
  {
    if filter.None? then apps
    else
      ApplicationRepository.LaterAppliedOrders();
      assert Sorted(apps, ApplicationRepository.LaterApplied) ==>
        Sorted(Filter(apps, StatusIs(filter.value)), ApplicationRepository.LaterApplied) by {
        if Sorted(apps, ApplicationRepository.LaterApplied) {
          FilterSorted(apps, StatusIs(filter.value), ApplicationRepository.LaterApplied);
        }
      }
      Filter(apps, StatusIs(filter.value))
  }

  /** `allApps.Count(a => a.Status == s)`. */
  function StatusCount(apps: seq<Row<Application>>, s: Status): (n: nat)
    ensures n <= |apps|
  {
    if apps == [] then 0
    else StatusCount(apps[..|apps| - 1], s) + if apps[|apps| - 1].val.status == s then 1 else 0
  }

  /** A counter holds as many applications as the list narrowed to its status. */
  lemma {:induction false} StatusCountNarrows(apps: seq<Row<Application>>, s: Status)
    ensures StatusCount(apps, s) == |Narrow(apps, Some(s))|
  {
    if apps != [] {
      StatusCountNarrows(apps[..|apps| - 1], s);
      assert StatusIs(s)(apps[|apps| - 1]) <==> apps[|apps| - 1].val.status == s;
    }
  }

  /** The six counters together count every application once. */
  lemma {:induction false} StatusCountsAddUp(apps: seq<Row<Application>>)
    ensures StatusCount(apps, Pending) + StatusCount(apps, Viewed) + StatusCount(apps, Invited)
      + StatusCount(apps, Accepted) + StatusCount(apps, Rejected) + StatusCount(apps, Withdrawn) == |apps|
  {
    if apps != [] {
      StatusCountsAddUp(apps[..|apps| - 1]);
    }
  }

  /**
   * The employer pages' access rule: the caller created the vacancy, is a
   * member of its company, or is in role Admin.
   */
  predicate HasVacancyAccess(v: Vacancy, memberships: seq<Row<CompanyUser>>, caller: string, isAdmin: bool)
  {
    v.createdById == Some(caller) || IsMember(memberships, caller, v.companyId) || isAdmin
  }

  /** `CoverLetter?.Length > 100 ? CoverLetter.Substring(0, 100) + "..." : CoverLetter`. */
  function CoverLetterPreview(letter: Option<string>): (r: Option<string>)
    ensures r.None? <==> letter.None?
    ensures letter.Some? && |letter.value| <= 100 ==> r == letter
    ensures letter.Some? && |letter.value| > 100 ==>
      |r.value| == 103 && r.value == letter.value[..100] + "..."
  {
    if letter.Some? && |letter.value| > 100 then Some(letter.value[..100] + "...") else letter
  }

  /** A preview never exceeds 103 characters and always starts like the letter. */
  lemma PreviewBounded(letter: string)
    ensures |CoverLetterPreview(Some(letter)).value| <= 103
    ensures var p := CoverLetterPreview(Some(letter)).value;
      |p| <= |letter| + 3 && forall i :: 0 <= i < |p| && i < 100 ==> p[i] == letter[i]
  {
  }
}
