/**
 * The resume repository: a user's resumes newest first and their count, the
 * search over visible resumes, and the switch that turns a resume on or off.
 */
module ResumeRepository {
  import opened Wrappers
  import opened Seqs
  import opened Tables
  import opened Entities
  import opened Store
  import Text

  /** `OrderByDescending(r => r.CreatedAt)`: a later resume may come first. */
  function CreatedLater(a: Row<Resume>, b: Row<Resume>): bool
  {
    a.val.createdAt >= b.val.createdAt
  }

  lemma CreatedLaterOrders()
    ensures TotalPreorder(CreatedLater)
  {
  }

  function OfUserFilter(userId: string): Resume -> bool
  {
    (r: Resume) => r.userId == userId
  }

  /** `GetResumesByUserAsync`: the user's resumes, newest first. */
  function ByUser(rs: seq<Row<Resume>>, userId: string): (r: seq<Row<Resume>>)
    ensures forall x :: x in r <==> x in rs && x.val.userId == userId
    ensures multiset(r) == multiset(Where(rs, OfUserFilter(userId)))
    ensures Sorted(r, CreatedLater)
  {
    CreatedLaterOrders();
    OrderedWhere(rs, OfUserFilter(userId), CreatedLater)
  }

  /** `GetUserResumesCountAsync`: as many as the user's listing holds. */
  function CountByUser(rs: seq<Row<Resume>>, userId: string): (n: nat)
    ensures n == |ByUser(rs, userId)|
  {
    var listed := ByUser(rs, userId);
    assert |multiset(listed)| == |Where(rs, OfUserFilter(userId))|;
    CountRows(rs, OfUserFilter(userId))
  }

  /** A resume the public search may show: switched on and published. */
  predicate Visible(r: Resume)
  {
    r.isActive && r.isPublished
  }

  /** The term occurs, ignoring case, in the title, the full name, the skills or the about text. */
  predicate TermMatch(r: Resume, term: string)
  {
    Text.ContainsIgnoreCase(r.title, term)
    || Text.ContainsIgnoreCase(r.fullName, term)
    || (r.skills.Some? && Text.ContainsIgnoreCase(r.skills.value, term))
    || (r.about.Some? && Text.ContainsIgnoreCase(r.about.value, term))
  }

  /** The three conditions of `SearchResumesAsync`; a blank term and a missing category do not restrict. */
  predicate Selects(term: Option<string>, categoryId: Option<int>, r: Resume)
  {
    Visible(r)
    && (Text.IsNullOrWhiteSpace(term) || TermMatch(r, term.value))
    && (categoryId.None? || r.categoryId == categoryId)
  }

  function SearchFilter(term: Option<string>, categoryId: Option<int>): Resume -> bool
  {
    (r: Resume) => Selects(term, categoryId, r)
  }

  /** `SearchResumesAsync`: the matching visible resumes, newest first. */
  function Search(rs: seq<Row<Resume>>, term: Option<string>, categoryId: Option<int>): (r: seq<Row<Resume>>)
    ensures forall x :: x in r <==> x in rs && Selects(term, categoryId, x.val)
    ensures multiset(r) == multiset(Where(rs, SearchFilter(term, categoryId)))
    ensures Sorted(r, CreatedLater)
  {
    CreatedLaterOrders();
    OrderedWhere(rs, SearchFilter(term, categoryId), CreatedLater)
  }

  /** Whatever is asked, the search shows only resumes that are both active and published. */
  lemma SearchShowsVisible(rs: seq<Row<Resume>>, term: Option<string>, categoryId: Option<int>)
    ensures forall x :: x in Search(rs, term, categoryId) ==> x.val.isActive && x.val.isPublished
    ensures categoryId.Some? ==> forall x :: x in Search(rs, term, categoryId) ==> x.val.categoryId == categoryId
  {
  }

  /** A blank term is no term: the search finds exactly the visible resumes of the category, newest first. */
  lemma BlankTermIgnored(rs: seq<Row<Resume>>, term: Option<string>, categoryId: Option<int>)
    requires Text.IsNullOrWhiteSpace(term)
    ensures forall x :: x in Search(rs, term, categoryId) <==> x in Search(rs, None, categoryId)
  {
  }

  /** A term or a category only narrows the search: every hit is a hit of the unrestricted search. */
  lemma SearchNarrows(rs: seq<Row<Resume>>, term: Option<string>, categoryId: Option<int>)
    ensures forall x :: x in Search(rs, term, categoryId) ==> x in Search(rs, None, None)
  {
  }

  /**
   * The resumes table after `ToggleStatusAsync(id, isActive)` at time `now`:
   * the resume takes the flag and the time stamp and keeps everything else,
   * its published flag included.
   */
  function StatusSet(rs: seq<Row<Resume>>, id: int, isActive: bool, now: int): (r: seq<Row<Resume>>)
    ensures |r| == |rs|
    ensures forall k :: 0 <= k < |rs| ==> r[k].id == rs[k].id
    ensures forall k :: 0 <= k < |rs| && rs[k].id != id ==> r[k] == rs[k]
    ensures IndexOf(rs, id).None? ==> r == rs
  {
    match IndexOf(rs, id)
    case None => rs
    case Some(i) => Replace(rs, i, rs[i].val.(isActive := isActive, updatedAt := Some(now)))
  }

  /** After the switch the id finds its resume with the new flag and stamp, the same publication flag, and every other key finds what it found. */
  lemma StatusSetLookup(rs: seq<Row<Resume>>, next: int, id: int, isActive: bool, now: int, other: int)
    requires Keyed(rs, next)
    ensures Keyed(StatusSet(rs, id, isActive, now), next)
    ensures GetById(rs, id).Some? ==>
      GetById(StatusSet(rs, id, isActive, now), id) == Some(GetById(rs, id).value.(isActive := isActive, updatedAt := Some(now)))
    ensures GetById(rs, id).Some? ==>
      GetById(StatusSet(rs, id, isActive, now), id).value.isPublished == GetById(rs, id).value.isPublished
    ensures other != id ==> GetById(StatusSet(rs, id, isActive, now), other) == GetById(rs, other)
  {
    match IndexOf(rs, id)
    case None =>
    case Some(i) => ReplaceLookup(rs, next, i, rs[i].val.(isActive := isActive, updatedAt := Some(now)), other);
  }

  /**
   * `ToggleStatusAsync`: false and no change for an unknown id; otherwise
   * the resume is switched as asked and stamped, and the answer is true.
   */
  method ToggleStatus(db: Db, id: int, isActive: bool, now: int) returns (ok: bool)
    requires db.Valid()
    modifies db
    ensures db.Valid()
    ensures ok <==> id in old(Ids(db.resumes))
    ensures !ok ==> unchanged(db)
    ensures db.State() == old(db.State()).(resumes := StatusSet(old(db.resumes), id, isActive, now))
  {
    var at := IndexOf(db.resumes, id);
    if at.None? {
      return false;
    }
    var i := at.value;
    db.SetResume(i, db.resumes[i].val.(isActive := isActive, updatedAt := Some(now)));
    ok := true;
  }
}
