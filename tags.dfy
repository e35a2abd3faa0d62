/**
 * The tag repository: lookup by name ignoring case, the most linked tags,
 * the tags of a vacancy, and the attachment of a list of names to a
 * vacancy (creating the tags that do not exist yet).
 */
module TagRepository {
  import opened Wrappers
  import opened Seqs
  import opened Tables
  import opened Entities
  import opened Store
  import Text

  function NameFilter(name: string): Tag -> bool
  {
    (t: Tag) => Text.EqualsIgnoreCase(t.name, name)
  }

  /** `GetTagByNameAsync`: the first tag whose lower-cased name equals the lower-cased `name`. */
  function ByName(tags: seq<Row<Tag>>, name: string): (r: Option<Row<Tag>>)
    ensures r.Some? ==> r.value in tags && Text.EqualsIgnoreCase(r.value.val.name, name)
    ensures r.None? <==> forall t :: t in tags ==> !Text.EqualsIgnoreCase(t.val.name, name)
  {
    match FirstWhere(tags, NameFilter(name))
    case Some(i) => Some(tags[i])
    case None => None
  }

  /** A tag matching `name` ignoring case is linked to the vacancy. */
  ghost predicate NameLinked(tags: seq<Row<Tag>>, links: seq<Row<VacancyTag>>, vacancyId: int, name: string)
  {
    exists t :: t in tags && Text.EqualsIgnoreCase(t.val.name, name) && Linked(links, vacancyId, t.id)
  }

  function OfTagFilter(tagId: int): VacancyTag -> bool
  {
    (l: VacancyTag) => l.tagId == tagId
  }

  /** `t.VacancyTags.Count`: the number of vacancies the tag is linked to. */
  function LinkCount(links: seq<Row<VacancyTag>>, tagId: int): (n: nat)
    ensures n <= |links|
    ensures n > 0 <==> exists l :: l in links && l.val.tagId == tagId
  {
    var w := Where(links, OfTagFilter(tagId));
    assert |w| > 0 ==> w[0] in w;
    assert |w| > 0 ==> w[0] in links && w[0].val.tagId == tagId;
    assert forall l :: l in links && l.val.tagId == tagId ==> l in w;
    |w|
  }

  /** `OrderByDescending(t => t.VacancyTags.Count)`: the more linked tag may come first. */
  function MoreLinked(links: seq<Row<VacancyTag>>): (Row<Tag>, Row<Tag>) -> bool
  {
    (a: Row<Tag>, b: Row<Tag>) => LinkCount(links, a.id) >= LinkCount(links, b.id)
  }

  lemma MoreLinkedOrders(links: seq<Row<VacancyTag>>)
    ensures TotalPreorder(MoreLinked(links))
  {
  }

  /** `GetPopularTagsAsync(count)`: the tags by descending link count, the first `count` of them. */
  function Popular(tags: seq<Row<Tag>>, links: seq<Row<VacancyTag>>, count: int): (r: seq<Row<Tag>>)
    ensures count <= 0 ==> r == []
    ensures |r| == if count <= 0 then 0 else if count < |tags| then count else |tags|
    ensures forall x :: x in r ==> x in tags
    ensures multiset(r) <= multiset(tags)
    ensures Sorted(r, MoreLinked(links))
  {
    var s := SortBy(tags, MoreLinked(links));
    MoreLinkedOrders(links);
    SortBySorted(tags, MoreLinked(links));
    SortByMembers(tags, MoreLinked(links));
    var r := Take(s, count);
    TakeSub(s, count);
    assert forall x :: x in r ==> x in s;
    r
  }

  /** No tag left out of the popular list is linked more often than any tag on it. */
  lemma PopularLeadsTheRest(tags: seq<Row<Tag>>, links: seq<Row<VacancyTag>>, count: int, x: Row<Tag>, y: Row<Tag>)
    requires x in Popular(tags, links, count) && y in tags && y !in Popular(tags, links, count)
    ensures LinkCount(links, x.id) >= LinkCount(links, y.id)
  {
    var le := MoreLinked(links);
    var s := SortBy(tags, le);
    var r := Popular(tags, links, count);
    MoreLinkedOrders(links);
    SortBySorted(tags, le);
    SortByMembers(tags, le);
    assert r == Take(s, count);
    PrefixLeads(s, |r|, le, x, y);
  }

  /** Two tags of the list share a name. */
  predicate SharedName(tags: seq<Row<Tag>>)
  {
    exists i, j :: 0 <= i < j < |tags| && tags[i].val.name == tags[j].val.name
  }

  /**
   * `GetTagsWithCountsAsync`: each tag's name mapped to its link count;
   * `ToDictionaryAsync` throws on a repeated name, which is `None` here.
   */
  function WithCounts(tags: seq<Row<Tag>>, links: seq<Row<VacancyTag>>): (r: Option<map<string, nat>>)
    ensures r.None? <==> SharedName(tags)
    ensures r.Some? ==> forall t :: t in tags ==> t.val.name in r.value && r.value[t.val.name] == LinkCount(links, t.id)
    ensures r.Some? ==> forall n :: n in r.value ==> exists t :: t in tags && t.val.name == n
  {
    if tags == [] then Some(map[])
    else
      var init, last := tags[..|tags| - 1], tags[|tags| - 1];
      assert tags == init + [last];
      SharedSnoc(init, last);
      match WithCounts(init, links)
      case None => None
      case Some(m) =>
        if last.val.name in m then None
        else
          CountsSnoc(init, last, links, m);
          Some(m[last.val.name := LinkCount(links, last.id)])
  }

  /** A table with one more tag shares a name when the shorter one did or the new name was taken. */
  lemma SharedSnoc(init: seq<Row<Tag>>, last: Row<Tag>)
    ensures SharedName(init + [last]) <==> SharedName(init) || exists t :: t in init && t.val.name == last.val.name
  {
    var tags := init + [last];
    assert forall i :: 0 <= i < |init| ==> tags[i] == init[i];
    if SharedName(init) {
      var i, j :| 0 <= i < j < |init| && init[i].val.name == init[j].val.name;
      assert tags[i].val.name == tags[j].val.name;
    }
    if exists t :: t in init && t.val.name == last.val.name {
      var t :| t in init && t.val.name == last.val.name;
      var i :| 0 <= i < |init| && init[i] == t;
      assert tags[i].val.name == tags[|init|].val.name;
    }
    if SharedName(tags) {
      var i, j :| 0 <= i < j < |tags| && tags[i].val.name == tags[j].val.name;
      if j == |init| {
        assert tags[i] in init;
      }
    }
  }

  /** Adding the new tag's count under a fresh name keeps the dictionary exact. */
  lemma CountsSnoc(init: seq<Row<Tag>>, last: Row<Tag>, links: seq<Row<VacancyTag>>, m: map<string, nat>)
    requires forall t :: t in init ==> t.val.name in m && m[t.val.name] == LinkCount(links, t.id)
    requires forall n :: n in m ==> exists t :: t in init && t.val.name == n
    requires last.val.name !in m
    ensures var r := m[last.val.name := LinkCount(links, last.id)];
      (forall t :: t in init + [last] ==> t.val.name in r && r[t.val.name] == LinkCount(links, t.id))
      && forall n :: n in r ==> exists t :: t in init + [last] && t.val.name == n
  {
    var r := m[last.val.name := LinkCount(links, last.id)];
    forall n | n in r ensures exists t :: t in init + [last] && t.val.name == n {
      if n == last.val.name {
        assert last in init + [last];
      } else {
        var t :| t in init && t.val.name == n;
        assert t in init + [last];
      }
    }
  }

  /** Under the unique index on names the counts never fail. */
  lemma CountsOfUniqueNames(tags: seq<Row<Tag>>, links: seq<Row<VacancyTag>>)
    requires Increasing(tags) && UniqueTagNames(tags)
    ensures WithCounts(tags, links).Some?
  {
    forall i, j | 0 <= i < j < |tags| ensures tags[i].val.name != tags[j].val.name {
      IncreasingDistinct(tags, i, j);
    }
  }

  function OfVacancyFilter(vacancyId: int): VacancyTag -> bool
  {
    (l: VacancyTag) => l.vacancyId == vacancyId
  }

  /** The tag a link points at, when it is stored. */
  function TagOf(tags: seq<Row<Tag>>): Row<VacancyTag> -> seq<Row<Tag>>
  {
    (l: Row<VacancyTag>) => match GetById(tags, l.val.tagId)
      case Some(t) => [Row(l.val.tagId, t)]
      case None => []
  }

  /** `GetTagsByVacancyAsync`: the tags of the vacancy's links, in link order. */
  function ByVacancy(tags: seq<Row<Tag>>, links: seq<Row<VacancyTag>>, vacancyId: int): seq<Row<Tag>>
  {
    FlatMap(Where(links, OfVacancyFilter(vacancyId)), TagOf(tags))
  }

  /**
   * Over a keyed tag table the vacancy's tags are exactly the stored tags
   * linked to it.
   */
  lemma ByVacancyMembers(tags: seq<Row<Tag>>, links: seq<Row<VacancyTag>>, next: int, vacancyId: int)
    requires Keyed(tags, next)
    ensures forall t :: t in ByVacancy(tags, links, vacancyId) <==> t in tags && Linked(links, vacancyId, t.id)
  {
    var w := Where(links, OfVacancyFilter(vacancyId));
    FlatMapMembers(w, TagOf(tags));
    forall t | t in tags && Linked(links, vacancyId, t.id)
      ensures t in ByVacancy(tags, links, vacancyId)
    {
      var l :| l in links && l.val.vacancyId == vacancyId && l.val.tagId == t.id;
      assert l in w;
      GetStored(tags, next, t.id, t.val);
      assert t in TagOf(tags)(l);
    }
  }

  /**
   * One name of `AddTagsToVacancyAsync`: the tag matching it ignoring case,
   * or a new tag of that name; then the link to the vacancy unless there is
   * one already. Answers the tag key and whether a link was made.
   */
  method AttachTag(db: Db, vacancyId: int, name: string) returns (tagId: int, linked: bool)
    requires db.Valid() && vacancyId in Ids(db.vacancies)
    modifies db
    ensures db.Valid() && vacancyId in Ids(db.vacancies)
    ensures db.State() == old(db.State()).(tags := db.tags, vacancyTags := db.vacancyTags, nextId := db.nextId)
    ensures ByName(old(db.tags), name).Some? ==> db.tags == old(db.tags) && tagId == ByName(old(db.tags), name).value.id
    ensures ByName(old(db.tags), name).None? ==> db.tags == old(db.tags) + [Row(tagId, Tag(name))] && tagId == old(db.nextId)
    ensures linked <==> !Linked(old(db.vacancyTags), vacancyId, tagId)
    ensures linked ==> exists id :: db.vacancyTags == old(db.vacancyTags) + [Row(id, VacancyTag(vacancyId, tagId))]
    ensures !linked ==> db.vacancyTags == old(db.vacancyTags)
    ensures old(db.nextId) <= db.nextId
  {
    var found := ByName(db.tags, name);
    if found.Some? {
      tagId := found.value.id;
    } else {
      assert !TagNamed(db.tags, name) by {
        forall t | t in db.tags ensures t.val.name != name {
          assert !Text.EqualsIgnoreCase(t.val.name, name);
        }
      }
      tagId := db.AddTag(Tag(name));
      assert Row(tagId, Tag(name)) in db.tags;
    }
    assert tagId in Ids(db.tags);
    if Linked(db.vacancyTags, vacancyId, tagId) {
      linked := false;
    } else {
      var id := db.AddLink(VacancyTag(vacancyId, tagId));
      linked := true;
    }
  }

  /** What `AddTagsToVacancyAsync` leaves true after each name it has handled. */
  ghost predicate Attached(s: Snapshot, old_: Snapshot, vacancyId: int, done: seq<string>, ids: seq<int>)
  {
    && s == old_.(tags := s.tags, vacancyTags := s.vacancyTags, nextId := s.nextId)
    && old_.tags <= s.tags && old_.vacancyTags <= s.vacancyTags
    && (forall n :: n in done ==> NameLinked(s.tags, s.vacancyTags, vacancyId, n))
    && NoDuplicates(ids)
    && (forall id :: id in ids ==> Linked(s.vacancyTags, vacancyId, id) && !Linked(old_.vacancyTags, vacancyId, id))
    && (forall l :: l in s.vacancyTags ==> l in old_.vacancyTags || (l.val.vacancyId == vacancyId && l.val.tagId in ids))
    && (forall t :: t in s.tags ==> t in old_.tags || t.val.name in done)
  }

  /**
   * `AddTagsToVacancyAsync`, with the check for an existing link made
   * against every link made so far: nothing for a vacancy that does not
   * exist; otherwise every name ends up linked through a tag matching it
   * ignoring case, tags are created only for names given, no link is made
   * twice, and the answer lists the newly linked tags once each.
   */
  method AddTagsToVacancy(db: Db, vacancyId: int, names: seq<string>) returns (ids: seq<int>)
    requires db.Valid()
    modifies db
    ensures db.Valid()
    ensures vacancyId !in old(Ids(db.vacancies)) ==> ids == [] && unchanged(db)
    ensures vacancyId in old(Ids(db.vacancies)) ==>
      Attached(db.State(), old(db.State()), vacancyId, names, ids)
  {
    if IndexOf(db.vacancies, vacancyId).None? {
      return [];
    }
    var distinct := Distinct(names);
    ids := [];
    for i := 0 to |distinct|
      invariant db.Valid() && vacancyId in Ids(db.vacancies)
      invariant Attached(db.State(), old(db.State()), vacancyId, distinct[..i], ids)
    {
      ghost var before := db.State();
      PrefixSnoc(distinct, i);
      var tagId, linked := AttachTag(db, vacancyId, distinct[i]);
      AttachStep(before, db.State(), old(db.State()), vacancyId, distinct[..i], distinct[i], ids, tagId, linked);
      if linked {
        ids := ids + [tagId];
      }
    }
    PrefixAll(distinct);
  }

  /** One attached name keeps `Attached` true, with the name handled and the tag listed when it was linked. */
  lemma AttachStep(before: Snapshot, after: Snapshot, start: Snapshot, vacancyId: int, done: seq<string>,
                   name: string, ids: seq<int>, tagId: int, linked: bool)
    requires Attached(before, start, vacancyId, done, ids)
    requires after == before.(tags := after.tags, vacancyTags := after.vacancyTags, nextId := after.nextId)
    requires ByName(before.tags, name).Some? ==> after.tags == before.tags && tagId == ByName(before.tags, name).value.id
    requires ByName(before.tags, name).None? ==> after.tags == before.tags + [Row(tagId, Tag(name))]
    requires linked <==> !Linked(before.vacancyTags, vacancyId, tagId)
    requires linked ==> exists id :: after.vacancyTags == before.vacancyTags + [Row(id, VacancyTag(vacancyId, tagId))]
    requires !linked ==> after.vacancyTags == before.vacancyTags
    ensures Attached(after, start, vacancyId, done + [name], if linked then ids + [tagId] else ids)
  {
    var ids' := if linked then ids + [tagId] else ids;
    assert before.tags <= after.tags && before.vacancyTags <= after.vacancyTags;
    assert Linked(after.vacancyTags, vacancyId, tagId);
    var t: Row<Tag> := if ByName(before.tags, name).Some? then ByName(before.tags, name).value else Row(tagId, Tag(name));
    assert t in after.tags && t.id == tagId && Text.EqualsIgnoreCase(t.val.name, name);
    forall n | n in done + [name] ensures NameLinked(after.tags, after.vacancyTags, vacancyId, n) {
      if n in done {
        var u :| u in before.tags && Text.EqualsIgnoreCase(u.val.name, n) && Linked(before.vacancyTags, vacancyId, u.id);
        assert u in after.tags;
      }
    }
    if linked {
      assert tagId !in ids;
      forall p, q | 0 <= p < q < |ids'| ensures ids'[p] != ids'[q] {
        if q == |ids| {
          assert ids'[p] in ids;
        }
      }
    }
  }

  // ----- the loop as written -----

  /**
   * The state `AddTagsToVacancyAsync` works on as written: the tags, the
   * tag keys already linked to the vacancy in the database (all that the
   * existence query sees), the tag keys whose links are added to the
   * context but not saved yet, the keys collected, and whether a save has
   * thrown. Link keys are not tracked here.
   */
  datatype Session = Session(tags: seq<Row<Tag>>, nextId: int, saved: seq<int>, pending: seq<int>, ids: seq<int>,
                             failed: bool)

  /** Some value occurs twice. */
  predicate HasRepeat(xs: seq<int>)
  {
    exists i, j :: 0 <= i < j < |xs| && xs[i] == xs[j]
  }

  /**
   * One name as written: an existing tag is linked unless a saved link
   * exists; a new tag is created by `AddAsync`, whose save also writes the
   * pending links: that save throws when two pending links repeat a
   * (vacancy, tag) pair, and otherwise the new tag is linked. After a
   * throw nothing more happens.
   */
  function StepAsWritten(s: Session, name: string): (r: Session)
    ensures s.failed ==> r == s
    ensures !s.failed && ByName(s.tags, name).None? ==> (r.failed <==> HasRepeat(s.pending))
    ensures !s.failed && ByName(s.tags, name).Some? ==> !r.failed && r.tags == s.tags && r.saved == s.saved
    ensures |s.ids| <= |r.ids| <= |s.ids| + 1 && r.ids[..|s.ids|] == s.ids
    ensures |s.tags| <= |r.tags| && r.tags[..|s.tags|] == s.tags
  {
    if s.failed then s
    else match ByName(s.tags, name)
    case Some(t) =>
      if t.id in s.saved then s
      else s.(pending := s.pending + [t.id], ids := s.ids + [t.id])
    case None =>
      if HasRepeat(s.pending) then s.(failed := true)
      else
        var id := s.nextId;
        s.(tags := s.tags + [Row(id, Tag(name))], nextId := id + 1,
           saved := s.saved + s.pending, pending := [id], ids := s.ids + [id])
  }

  /**
   * The loop as written over the names in order: the collected keys and the
   * stored tags only grow, by at most one key per name.
   */
  function LoopAsWritten(s: Session, names: seq<string>): (r: Session)
    ensures |s.ids| <= |r.ids| <= |s.ids| + |names| && r.ids[..|s.ids|] == s.ids
    ensures |s.tags| <= |r.tags| && r.tags[..|s.tags|] == s.tags
    decreases names
  {
    if names == [] then s else LoopAsWritten(StepAsWritten(s, names[0]), names[1..])
  }

  /** Once a save has thrown, the rest of the names change nothing. */
  lemma {:induction false} FailedStays(s: Session, names: seq<string>)
    requires s.failed
    ensures LoopAsWritten(s, names) == s
    decreases names
  {
    if names != [] {
      FailedStays(StepAsWritten(s, names[0]), names[1..]);
    }
  }

  /**
   * `AddTagsToVacancyAsync` as written, for a vacancy whose linked tag keys
   * are `linked`: it fails (None) when a save, in the middle of the loop or
   * at its end, meets two pending links joining the vacancy to the same
   * tag, which the unique index on (VacancyId, TagId) refuses.
   */
  function AddTagsAsWritten(tags: seq<Row<Tag>>, nextId: int, linked: seq<int>, names: seq<string>): (r: Option<seq<int>>)
    ensures r.Some? <==>
      !LoopAsWritten(Session(tags, nextId, linked, [], [], false), Distinct(names)).failed
      && !HasRepeat(LoopAsWritten(Session(tags, nextId, linked, [], [], false), Distinct(names)).pending)
    ensures r.Some? ==> r.value == LoopAsWritten(Session(tags, nextId, linked, [], [], false), Distinct(names)).ids
  {
    var s := LoopAsWritten(Session(tags, nextId, linked, [], [], false), Distinct(names));
    if s.failed || HasRepeat(s.pending) then None else Some(s.ids)
  }

  /**
   * Two names that differ only in case, for an existing tag not yet linked:
   * both find the tag, neither sees the other's unsaved link, and the save
   * fails.
   */
  lemma CaseVariantsFailAsWritten()
    ensures AddTagsAsWritten([Row(1, Tag("Java"))], 2, [], ["Java", "java"]) == None
  {
    assert Distinct(["Java", "java"]) == ["Java", "java"] by {
      assert ["Java", "java"][..1] == ["Java"];
      assert Distinct(["Java"]) == ["Java"] by {
        assert ["Java"][..0] == [];
      }
      assert "java" != "Java";
    }
    var s2 := LoopAsWritten(Session([Row(1, Tag("Java"))], 2, [], [], [], false), ["Java", "java"]);
    CaseVariantsLinkTwice();
    assert HasRepeat(s2.pending) by {
      assert s2.pending[0] == s2.pending[1];
    }
  }

  /** Both spellings find tag 1, so the loop queues its link twice. */
  lemma CaseVariantsLinkTwice()
    ensures LoopAsWritten(Session([Row(1, Tag("Java"))], 2, [], [], [], false), ["Java", "java"]).pending == [1, 1]
  {
    var tags := [Row(1, Tag("Java"))];
    assert Text.Lower("Java") == "java";
    assert Text.Lower("java") == "java";
    assert ByName(tags, "Java") == Some(Row(1, Tag("Java")));
    assert ByName(tags, "java") == Some(Row(1, Tag("Java")));
    var s0 := Session(tags, 2, [], [], [], false);
    var s1 := StepAsWritten(s0, "Java");
    assert s1.pending == [1];
    var s2 := StepAsWritten(s1, "java");
    assert s2.pending == [1, 1];
    assert ["Java", "java"][1..] == ["java"];
    assert ["java"][1..] == [];
    assert LoopAsWritten(s0, ["Java", "java"]) == s2;
  }

  /**
   * A case variant followed by a new name: the new tag's `AddAsync` saves
   * the two pending links to tag 1, and that save throws before the end of
   * the loop.
   */
  lemma MidLoopSaveFailsAsWritten()
    ensures LoopAsWritten(Session([Row(1, Tag("Java"))], 2, [], [], [], false), ["Java", "java", "Kotlin"]).failed
    ensures AddTagsAsWritten([Row(1, Tag("Java"))], 2, [], ["Java", "java", "Kotlin"]) == None
  {
    var s0 := Session([Row(1, Tag("Java"))], 2, [], [], [], false);
    var names := ["Java", "java", "Kotlin"];
    ThreeNamesDistinct();
    var s2 := LoopAsWritten(s0, ["Java", "java"]);
    CaseVariantsPending();
    KotlinIsNew();
    var s3 := StepAsWritten(s2, "Kotlin");
    assert s3.failed;
    LoopSplit(s0, ["Java", "java"], ["Kotlin"]);
    assert ["Java", "java"] + ["Kotlin"] == names;
    assert LoopAsWritten(s2, ["Kotlin"]) == LoopAsWritten(s3, []) by {
      assert ["Kotlin"][1..] == [];
    }
  }

  /** The three names are pairwise different, so `Distinct` keeps them all. */
  lemma ThreeNamesDistinct()
    ensures Distinct(["Java", "java", "Kotlin"]) == ["Java", "java", "Kotlin"]
  {
    assert ["Java", "java", "Kotlin"][..2] == ["Java", "java"];
    assert ["Java", "java"][..1] == ["Java"];
    assert ["Java"][..0] == [];
    assert Distinct(["Java"]) == ["Java"];
    assert "java" != "Java";
    assert Distinct(["Java", "java"]) == ["Java", "java"];
    assert "Kotlin" != "Java" && "Kotlin" != "java";
  }

  /** After the two spellings nothing has failed, no tag was added, and tag 1's link is pending twice. */
  lemma CaseVariantsPending()
    ensures var s2 := LoopAsWritten(Session([Row(1, Tag("Java"))], 2, [], [], [], false), ["Java", "java"]);
      !s2.failed && s2.tags == [Row(1, Tag("Java"))] && HasRepeat(s2.pending)
  {
    var s0 := Session([Row(1, Tag("Java"))], 2, [], [], [], false);
    CaseVariantsLinkTwice();
    var s1 := StepAsWritten(s0, "Java");
    var s2 := StepAsWritten(s1, "java");
    assert ["Java", "java"][1..] == ["java"];
    assert ["java"][1..] == [];
    assert LoopAsWritten(s0, ["Java", "java"]) == s2;
    assert s2.pending[0] == s2.pending[1];
  }

  /** No stored tag is named "Kotlin" in any case. */
  lemma KotlinIsNew()
    ensures ByName([Row(1, Tag("Java"))], "Kotlin").None?
  {
    assert Text.Lower("Kotlin")[0] == 'k';
    assert Text.Lower("Java")[0] == 'j';
  }

  /** Running the loop over two lists one after the other is running it over their concatenation. */
  lemma {:induction false} LoopSplit(s: Session, xs: seq<string>, ys: seq<string>)
    ensures LoopAsWritten(s, xs + ys) == LoopAsWritten(LoopAsWritten(s, xs), ys)
    decreases xs
  {
    if xs == [] {
      assert xs + ys == ys;
    } else {
      assert (xs + ys)[0] == xs[0];
      assert (xs + ys)[1..] == xs[1..] + ys;
      LoopSplit(StepAsWritten(s, xs[0]), xs[1..], ys);
    }
  }
}
