/**
 * The string helpers of .NET that the core relies on: blank tests, `Trim`,
 * lower-casing and substring search.
 */
module Text {
  import opened Wrappers
  import Seqs

  /** The characters `char.IsWhiteSpace` accepts in the Latin-1 range and the usual Unicode spaces. */
  predicate IsWhiteSpace(c: char)
  {
    c == ' ' || ('\U{0009}' <= c <= '\U{000D}') || c == '\U{0085}' || c == '\U{00A0}'
    || c == '\U{1680}' || ('\U{2000}' <= c <= '\U{200A}') || c == '\U{2028}' || c == '\U{2029}'
    || c == '\U{202F}' || c == '\U{205F}' || c == '\U{3000}'
  }

  /** Every character is white space (the empty string included). */
  predicate IsBlank(s: string)
  {
    forall i :: 0 <= i < |s| ==> IsWhiteSpace(s[i])
  }

  /** `string.IsNullOrWhiteSpace`. */
  predicate IsNullOrWhiteSpace(s: Option<string>)
  {
    s.None? || IsBlank(s.value)
  }

  /** `string.IsNullOrEmpty`. */
  predicate IsNullOrEmpty(s: Option<string>)
  {
    s.None? || s.value == ""
  }

  function TrimStart(s: string): (r: string)
    ensures |r| <= |s| && r == s[|s| - |r|..]
    ensures IsBlank(s[..|s| - |r|])
    ensures r == [] || !IsWhiteSpace(r[0])
  {
    if s == [] || !IsWhiteSpace(s[0]) then s else TrimStart(s[1..])
  }

  function TrimEnd(s: string): (r: string)
    ensures |r| <= |s| && r == s[..|r|]
    ensures IsBlank(s[|r|..])
    ensures r == [] || !IsWhiteSpace(r[|r| - 1])
  {
    if s == [] || !IsWhiteSpace(s[|s| - 1]) then s else TrimEnd(s[..|s| - 1])
  }

  /** `r` sits in `s` at `i` with only white space before and after it. */
  predicate Framed(s: string, r: string, i: int)
  {
    0 <= i <= |s| - |r| && r == s[i..i + |r|] && IsBlank(s[..i]) && IsBlank(s[i + |r|..])
  }

  /**
   * `string.Trim`: the longest middle part of `s` that neither starts nor ends
   * with white space; only white space is cut off on either side.
   */
  function Trim(s: string): (r: string)
    ensures exists i :: Framed(s, r, i)
    ensures r == [] || (!IsWhiteSpace(r[0]) && !IsWhiteSpace(r[|r| - 1]))
    ensures r == [] <==> IsBlank(s)
  {
    var t := TrimStart(s);
    var r := TrimEnd(t);
    TrimPieces(s, t, r, |s| - |t|);
    r
  }

  lemma TrimPieces(s: string, t: string, r: string, i: int)
    requires 0 <= i <= |s| && t == s[i..] && IsBlank(s[..i]) && (t == [] || !IsWhiteSpace(t[0]))
    requires |r| <= |t| && r == t[..|r|] && IsBlank(t[|r|..]) && (r == [] || !IsWhiteSpace(r[|r| - 1]))
    ensures Framed(s, r, i)
    ensures r == [] || (!IsWhiteSpace(r[0]) && !IsWhiteSpace(r[|r| - 1]))
    ensures r == [] <==> IsBlank(s)
  {
    SliceOfSlice(s, i, |r|);
    assert r != [] ==> r[0] == t[0];
    TrimEmptyIffBlank(s, t, r, i);
  }

  /** Slicing a suffix is slicing the whole at shifted bounds. */
  lemma SliceOfSlice(s: string, i: nat, k: nat)
    requires i + k <= |s|
    ensures s[i..][..k] == s[i..i + k]
    ensures s[i..][k..] == s[i + k..]
  {
  }

  lemma TrimEmptyIffBlank(s: string, t: string, r: string, i: int)
    requires 0 <= i <= |s| && t == s[i..] && IsBlank(s[..i])
    requires |r| <= |t| && r == t[..|r|] && IsBlank(t[|r|..])
    requires r == [] || !IsWhiteSpace(r[0])
    ensures r == [] <==> IsBlank(s)
  {
    if r == [] {
      assert t[|r|..] == t;
      assert s == s[..i] + t;
      BlankConcat(s[..i], t);
    } else {
      assert s[i] == r[0];
    }
  }

  lemma BlankConcat(a: string, b: string)
    requires IsBlank(a) && IsBlank(b)
    ensures IsBlank(a + b)
  {
  }

  /** Trimming a trimmed string changes nothing. */
  lemma TrimIdempotent(s: string)
    ensures Trim(Trim(s)) == Trim(s)
  {
    var r := Trim(s);
    if r != [] {
      assert TrimStart(r) == r;
      assert TrimEnd(r) == r;
    }
  }

  /** A form entry as the clean-up leaves it: trimmed, and not blank. */
  predicate IsClean(s: string)
  {
    !IsBlank(s) && Trim(s) == s
  }

  /** One list entry after the clean-up: nothing when null or blank, else the entry trimmed. */
  function CleanEntry(t: Option<string>): (r: seq<string>)
    ensures |r| <= 1
    ensures r == [] <==> IsNullOrWhiteSpace(t)
  {
    if IsNullOrWhiteSpace(t) then [] else [Trim(t.value)]
  }

  /**
   * The clean-up every list field of the vacancy form gets:
   * `Where(t => !string.IsNullOrWhiteSpace(t)).Select(t => t.Trim())`.
   */
  function TrimmedNonBlank(texts: seq<Option<string>>): seq<string>
  {
    Seqs.FlatMap(texts, CleanEntry)
  }

  /** What the clean-up leaves is trimmed and not blank. */
  lemma {:induction false} TrimmedNonBlankClean(texts: seq<Option<string>>)
    ensures forall s :: s in TrimmedNonBlank(texts) ==> IsClean(s)
  {
    if texts != [] {
      var init, t := texts[..|texts| - 1], texts[|texts| - 1];
      TrimmedNonBlankClean(init);
      assert TrimmedNonBlank(texts) == TrimmedNonBlank(init) + CleanEntry(t);
      if !IsNullOrWhiteSpace(t) {
        TrimClean(t.value);
      }
    }
  }

  /** The trimmed form of a string that is not blank is clean. */
  lemma TrimClean(v: string)
    requires !IsBlank(v)
    ensures IsClean(Trim(v))
  {
    TrimIdempotent(v);
    assert !IsWhiteSpace(Trim(v)[0]);
  }

  /** The clean-up works entry by entry, keeping the order: it distributes over concatenation. */
  lemma TrimmedNonBlankAppend(a: seq<Option<string>>, b: seq<Option<string>>)
    ensures TrimmedNonBlank(a + b) == TrimmedNonBlank(a) + TrimmedNonBlank(b)
  {
    Seqs.FlatMapAppend(a, b, CleanEntry);
  }

  /** One entry: dropped when null or blank, else kept trimmed. */
  lemma TrimmedNonBlankOne(t: Option<string>)
    ensures TrimmedNonBlank([t]) == if IsNullOrWhiteSpace(t) then [] else [Trim(t.value)]
  {
    assert Seqs.FlatMap([t], CleanEntry) == Seqs.FlatMap([t][..0], CleanEntry) + CleanEntry(t);
    assert [t][..0] == [];
  }

  /** The strings as a list of non-null entries. */
  function Somes(xs: seq<string>): (r: seq<Option<string>>)
  {
    seq(|xs|, i requires 0 <= i < |xs| => Some(xs[i]))
  }

  lemma SomesAppend(a: seq<string>, b: seq<string>)
    ensures Somes(a + b) == Somes(a) + Somes(b)
  {
  }

  lemma SomesOne(s: string)
    ensures Somes([s]) == [Some(s)]
  {
  }

  /** A cleaned entry passes the clean-up again unchanged. */
  lemma CleanEntryTwice(t: Option<string>)
    ensures TrimmedNonBlank(Somes(CleanEntry(t))) == CleanEntry(t)
  {
    if !IsNullOrWhiteSpace(t) {
      var s := Trim(t.value);
      TrimIdempotent(t.value);
      assert !IsWhiteSpace(s[0]);
      assert CleanEntry(t) == [s];
      SomesOne(s);
      TrimmedNonBlankOne(Some(s));
    } else {
      assert Somes([]) == [];
    }
  }

  /** Cleaning twice (by the page, then by the repository) is cleaning once. */
  lemma {:induction false} TrimmedNonBlankTwice(texts: seq<Option<string>>)
    ensures TrimmedNonBlank(Somes(TrimmedNonBlank(texts))) == TrimmedNonBlank(texts)
  {
    if texts == [] {
      assert Somes([]) == [];
    } else {
      var init, t := texts[..|texts| - 1], texts[|texts| - 1];
      TrimmedNonBlankTwice(init);
      assert TrimmedNonBlank(texts) == TrimmedNonBlank(init) + CleanEntry(t);
      SomesAppend(TrimmedNonBlank(init), CleanEntry(t));
      TrimmedNonBlankAppend(Somes(TrimmedNonBlank(init)), Somes(CleanEntry(t)));
      CleanEntryTwice(t);
    }
  }

  /** Texts that are all clean pass the clean-up unchanged. */
  lemma {:induction false} TrimmedNonBlankOfClean(xs: seq<string>)
    requires forall s :: s in xs ==> IsClean(s)
    ensures TrimmedNonBlank(Somes(xs)) == xs
  {
    if xs == [] {
      assert Somes([]) == [];
    } else {
      var init, last := xs[..|xs| - 1], xs[|xs| - 1];
      Seqs.InitLast(xs);
      assert forall s :: s in init ==> s in xs;
      TrimmedNonBlankOfClean(init);
      SomesAppend(init, [last]);
      SomesOne(last);
      TrimmedNonBlankAppend(Somes(init), [Some(last)]);
      CleanOne(last);
    }
  }

  lemma CleanOne(s: string)
    requires IsClean(s)
    ensures TrimmedNonBlank([Some(s)]) == [s]
  {
    TrimmedNonBlankOne(Some(s));
  }

  /** Lower-casing of one character: ASCII and the basic Cyrillic alphabet with Ё. */
  function LowerChar(c: char): char
  {
    if 'A' <= c <= 'Z' then (c as int + 32) as char
    else if '\U{0410}' <= c <= '\U{042F}' then (c as int + 32) as char
    else if c == '\U{0401}' then '\U{0451}'
    else c
  }

  /** `ToLower`, character by character; it keeps the length and is idempotent. */
  function Lower(s: string): (r: string)
    ensures |r| == |s|
    ensures forall i :: 0 <= i < |s| ==> r[i] == LowerChar(s[i])
  {
    seq(|s|, i requires 0 <= i < |s| => LowerChar(s[i]))
  }

  lemma LowerIdempotent(s: string)
    ensures Lower(Lower(s)) == Lower(s)
  {
  }

  /** Case-insensitive equality, `a.ToLower() == b.ToLower()`. */
  predicate EqualsIgnoreCase(a: string, b: string)
  {
    Lower(a) == Lower(b)
  }

  /** `s.Contains(sub)`: `sub` occurs in `s` at some position. */
  predicate Contains(s: string, sub: string)
  {
    exists i :: 0 <= i <= |s| - |sub| && OccursAt(s, sub, i)
  }

  predicate OccursAt(s: string, sub: string, i: int)
    requires 0 <= i <= |s| - |sub|
  {
    s[i..i + |sub|] == sub
  }

  /** `s.ToLower().Contains(sub.ToLower())`. */
  predicate ContainsIgnoreCase(s: string, sub: string)
  {
    Contains(Lower(s), Lower(sub))
  }
  /** Ordinal string order (`OrderBy(x => x.Name)`): a prefix comes first, else the first differing character decides. */
  predicate LexLe(a: string, b: string)
  {
    a == [] || (b != [] && (a[0] < b[0] || (a[0] == b[0] && LexLe(a[1..], b[1..]))))
  }

  lemma {:induction false} LexTotal(a: string, b: string)
    ensures LexLe(a, b) || LexLe(b, a)
  {
    if a != [] && b != [] && a[0] == b[0] {
      LexTotal(a[1..], b[1..]);
    }
  }

  lemma {:induction false} LexTransitive(a: string, b: string, c: string)
    requires LexLe(a, b) && LexLe(b, c)
    ensures LexLe(a, c)
  {
    if a != [] && b != [] && c != [] && a[0] == b[0] && b[0] == c[0] {
      LexTransitive(a[1..], b[1..], c[1..]);
    }
  }
}
