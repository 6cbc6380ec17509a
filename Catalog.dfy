/** The catalog grid: filtering by query, category and level, the selection
    toggles, the category and level facet lists, the per-card highlights, and
    the view state that holds the query and the selections. */
module Catalog {
  import opened Text
  import opened Sorting
  import opened Courses

  // ---------------------------------------------------------------------
  // Filtering (the `filtered` memo)

  /** The predicate passed to `courses.filter`, for an already normalized
      query `q`: each selection list is empty or holds the course's value,
      and the query is empty or occurs in the course's search text. */
  predicate Passes(c: Course, q: String, cats: seq<String>, lvls: seq<String>): (b: bool)
    ensures b <==>
      && (cats == [] || c.category in cats)
      && (lvls == [] || c.level in lvls)
      && (q == [] || exists i :: OccursAt(SearchText(c), q, i))
  {
    && (|cats| == 0 || c.category in cats)
    && (|lvls| == 0 || c.level in lvls)
    && (q == [] || Includes(SearchText(c), q))
  }

  /** `courses.filter(...)` with `Passes`. */
  function FilterCourses(courses: seq<Course>, q: String, cats: seq<String>, lvls: seq<String>): (r: seq<Course>)
    ensures IsSubsequence(r, courses)
    ensures forall c :: c in r <==> c in courses && Passes(c, q, cats, lvls)
  {
    if courses == [] then []
    else
      var rest := FilterCourses(courses[1..], q, cats, lvls);
      assert forall c :: c in courses <==> c == courses[0] || c in courses[1..];
      if Passes(courses[0], q, cats, lvls) then
        assert ([courses[0]] + rest)[1..] == rest;
        [courses[0]] + rest
      else rest
  }

  /** The `filtered` memo body: normalize the query once, then filter. */
  function Filtered(courses: seq<Course>, query: String, cats: seq<String>, lvls: seq<String>): (r: seq<Course>)
    ensures IsSubsequence(r, courses)
    ensures forall c :: c in r <==> c in courses && Passes(c, Normalize(query), cats, lvls)
  {
    FilterCourses(courses, Normalize(query), cats, lvls)
  }

  /** Nothing is dropped when every course passes. */
  lemma {:induction false} FilterKeepsAll(courses: seq<Course>, q: String, cats: seq<String>, lvls: seq<String>)
    requires forall c :: c in courses ==> Passes(c, q, cats, lvls)
    ensures FilterCourses(courses, q, cats, lvls) == courses
  {
    if courses != [] {
      FilterKeepsAll(courses[1..], q, cats, lvls);
      assert courses == [courses[0]] + courses[1..];
    }
  }

  /** With a blank query and no selected category or level, the catalog shows
      every course, in order. */
  lemma UnfilteredShowsAll(courses: seq<Course>, query: String)
    requires AllWhitespace(query)
    ensures Filtered(courses, query, [], []) == courses
  {
    NormalizeBlank(query);
    FilterKeepsAll(courses, [], [], []);
  }

  lemma SubsequenceOfLonger<T>(a: seq<T>, x: T, b: seq<T>)
    requires IsSubsequence(a, b)
    ensures IsSubsequence(a, [x] + b)
  {
    if a != [] {
      assert ([x] + b)[1..] == b;
    }
  }

  /** A stricter predicate keeps a subsequence of what a looser one keeps. */
  lemma {:induction false} FilterMonotone(courses: seq<Course>,
                                          q: String, cats: seq<String>, lvls: seq<String>,
                                          q': String, cats': seq<String>, lvls': seq<String>)
    requires forall c :: c in courses && Passes(c, q, cats, lvls) ==> Passes(c, q', cats', lvls')
    ensures IsSubsequence(FilterCourses(courses, q, cats, lvls), FilterCourses(courses, q', cats', lvls'))
  {
    if courses != [] {
      var c0 := courses[0];
      var l := FilterCourses(courses[1..], q, cats, lvls);
      var r := FilterCourses(courses[1..], q', cats', lvls');
      FilterMonotone(courses[1..], q, cats, lvls, q', cats', lvls');
      if Passes(c0, q, cats, lvls) {
        assert ([c0] + l)[1..] == l && ([c0] + r)[1..] == r;
      } else if Passes(c0, q', cats', lvls') {
        SubsequenceOfLonger(l, c0, r);
      }
    }
  }

  /** Selecting categories, or levels, never adds courses: the result is a
      subsequence of, and no longer than, the result with that selection
      empty. */
  lemma RestrictionNarrows(courses: seq<Course>, query: String, cats: seq<String>, lvls: seq<String>)
    ensures IsSubsequence(Filtered(courses, query, cats, lvls), Filtered(courses, query, [], lvls))
    ensures IsSubsequence(Filtered(courses, query, cats, lvls), Filtered(courses, query, cats, []))
    ensures |Filtered(courses, query, cats, lvls)| <= |Filtered(courses, query, [], lvls)|
    ensures |Filtered(courses, query, cats, lvls)| <= |Filtered(courses, query, cats, [])|
  {
    var q := Normalize(query);
    FilterMonotone(courses, q, cats, lvls, q, [], lvls);
    FilterMonotone(courses, q, cats, lvls, q, cats, []);
    SubsequenceLength(Filtered(courses, query, cats, lvls), Filtered(courses, query, [], lvls));
    SubsequenceLength(Filtered(courses, query, cats, lvls), Filtered(courses, query, cats, []));
  }

  /** The three filters combine by intersection: a course is shown exactly
      when the category filter alone, the level filter alone and the query
      alone would each show it. */
  lemma FilterIsIntersection(courses: seq<Course>, query: String, cats: seq<String>, lvls: seq<String>)
    ensures forall c :: c in Filtered(courses, query, cats, lvls) <==>
      && c in Filtered(courses, [], cats, [])
      && c in Filtered(courses, [], [], lvls)
      && c in Filtered(courses, query, [], [])
  {
    NormalizeBlank([]);
  }

  /** The query is matched case-insensitively and with surrounding
      whitespace ignored. */
  lemma QueryIsNormalized(courses: seq<Course>, query: String, cats: seq<String>, lvls: seq<String>)
    ensures Filtered(courses, Lower(query), cats, lvls) == Filtered(courses, query, cats, lvls)
    ensures Filtered(courses, Normalize(query), cats, lvls) == Filtered(courses, query, cats, lvls)
  {
    NormalizeIgnoresCase(query);
    NormalizeIdempotent(query);
  }

  /** Spaces, tabs or line breaks typed around the query change nothing. */
  lemma QueryIgnoresPadding(courses: seq<Course>, w1: String, query: String, w2: String,
                            cats: seq<String>, lvls: seq<String>)
    requires AllWhitespace(w1) && AllWhitespace(w2)
    ensures Filtered(courses, w1 + query + w2, cats, lvls) == Filtered(courses, query, cats, lvls)
  {
    NormalizeIgnoresPadding(w1, query, w2);
  }

  /** A query whose normalized form occurs in the normalized form of any one
      fragment of a course (its title, description, a skill, a module item,
      ...) matches that course: "  RISK  " matches a course described as
      "Risk management". */
  lemma QueryFoundInFragmentMatches(c: Course, f: String, query: String)
    requires f in Fragments(c)
    requires Includes(Normalize(f), Normalize(query))
    ensures Passes(c, Normalize(query), [], [])
  {
    var nf, nq := Normalize(f), Normalize(query);
    SearchTextFindsFragment(c, f);
    var a :| OccursAt(SearchText(c), nf, a);
    var b :| OccursAt(nf, nq, b);
    OccursTransitive(SearchText(c), nf, nq, a, b);
  }

  // ---------------------------------------------------------------------
  // Selection toggles (`toggleInList`)

  /** `prev.filter((v) => v !== value)`. */
  function RemoveAll(l: seq<String>, v: String): (r: seq<String>)
    ensures forall x :: x in r <==> x in l && x != v
    ensures IsSubsequence(r, l)
    ensures multiset(r) == multiset(l)[v := 0]
    ensures v !in l ==> r == l
  {
    if l == [] then []
    else
      var rest := RemoveAll(l[1..], v);
      assert l == [l[0]] + l[1..];
      assert forall x :: x in l <==> x == l[0] || x in l[1..];
      if l[0] == v then
        SubsequenceOfLonger(rest, l[0], l[1..]);
        assert l == [l[0]] + l[1..];
        rest
      else
        assert ([l[0]] + rest)[1..] == rest;
        assert v !in l ==> l == [l[0]] + l[1..];
        [l[0]] + rest
  }

  /** The new selection list after clicking `value`: every occurrence is
      removed if it is selected, otherwise it is appended. */
  function Toggle(l: seq<String>, v: String): (r: seq<String>)
    ensures v in r <==> v !in l
    ensures forall x :: x != v ==> (x in r <==> x in l)
    ensures v !in l ==> r == l + [v]
    ensures v in l ==> IsSubsequence(r, l) && |r| < |l|
  {
    if v in l then
      var r := RemoveAll(l, v);
      SubsequenceNotEqualLength(r, l, v);
      r
    else l + [v]
  }

  /** A subsequence that lacks an element of the original is shorter. */
  lemma {:induction false} SubsequenceNotEqualLength(a: seq<String>, b: seq<String>, v: String)
    requires IsSubsequence(a, b) && v in b && v !in a
    ensures |a| < |b|
  {
    SubsequenceLength(a, b);
    if |a| == |b| {
      SubsequenceOfEqualLength(a, b);
    }
  }

  lemma {:induction false} SubsequenceOfEqualLength<T>(a: seq<T>, b: seq<T>)
    requires IsSubsequence(a, b) && |a| == |b|
    ensures a == b
    decreases |b|
  {
    if a != [] {
      if a[0] == b[0] && IsSubsequence(a[1..], b[1..]) {
        SubsequenceOfEqualLength(a[1..], b[1..]);
        assert a == [a[0]] + a[1..] && b == [b[0]] + b[1..];
      } else {
        SubsequenceLength(a, b[1..]);
      }
    }
  }

  lemma {:induction false} RemoveAllAppended(l: seq<String>, v: String)
    ensures RemoveAll(l + [v], v) == RemoveAll(l, v)
  {
    if l == [] {
      assert [v][1..] == [];
    } else {
      assert (l + [v])[1..] == l[1..] + [v];
      RemoveAllAppended(l[1..], v);
    }
  }

  /** Clicking the same value twice restores which values are selected; when
      the value was not selected, it restores the list exactly. */
  lemma {:induction false} ToggleTwice(l: seq<String>, v: String)
    ensures forall x :: x in Toggle(Toggle(l, v), v) <==> x in l
    ensures v !in l ==> Toggle(Toggle(l, v), v) == l
    ensures v in l ==> Toggle(Toggle(l, v), v) == RemoveAll(l, v) + [v]
  {
    if v !in l {
      RemoveAllAppended(l, v);
    }
  }

  // ---------------------------------------------------------------------
  // Facet lists (the `categories` and `levels` memos)

  datatype Facet = CategoryFacet | LevelFacet

  function FacetValue(c: Course, f: Facet): String {
    match f
    case CategoryFacet => c.category
    case LevelFacet => c.level
  }

  /** The distinct non-empty values of one facet across all courses, sorted
      by `le`: the loop adds each value to a set, whose contents are then
      sorted. */
  method FacetValues(courses: seq<Course>, f: Facet, le: (String, String) -> bool) returns (r: seq<String>)
    requires TotalOrder(le)
    ensures Sorted(r, le) && Distinct(r)
    ensures forall x :: x in r <==> x != [] && exists i :: 0 <= i < |courses| && FacetValue(courses[i], f) == x
  {
    var seen: seq<String> := [];
    for i := 0 to |courses|
      invariant Distinct(seen)
      invariant forall x :: x in seen <==> x != [] && exists k :: 0 <= k < i && FacetValue(courses[k], f) == x
    {
      var v := FacetValue(courses[i], f);
      if v != [] && v !in seen {
        seen := seen + [v];
      }
    }
    r := Sort(seen, le);
    SortCorrect(seen, le);
    assert forall x :: x in r <==> x in seen by {
      forall x ensures x in r <==> x in seen {
        assert x in r <==> x in multiset(r);
        assert x in seen <==> x in multiset(seen);
      }
    }
  }

  // ---------------------------------------------------------------------
  // Per-card highlights

  const HighlightLimit: nat := 3

  /** All module items, module by module and item by item. */
  function AllItems(ms: seq<CourseModule>): seq<String>
  {
    if ms == [] then [] else AllItems(ms[..|ms| - 1]) + ms[|ms| - 1].items
  }

  lemma {:induction false} AllItemsPrefix(ms: seq<CourseModule>, n: nat)
    requires n <= |ms|
    ensures AllItems(ms[..n]) <= AllItems(ms)
    decreases |ms| - n
  {
    if n < |ms| {
      AllItemsPrefix(ms, n + 1);
      assert ms[..n + 1][..n] == ms[..n];
    } else {
      assert ms[..n] == ms;
    }
  }

  /** The card's highlights: module items in order, stopping once three have
      been collected. */
  method Highlights(c: Course) returns (h: seq<String>)
    ensures |h| == if |AllItems(c.modules)| < HighlightLimit then |AllItems(c.modules)| else HighlightLimit
    ensures h == AllItems(c.modules)[..|h|]
  {
    var ms := c.modules;
    h := [];
    var i := 0;
    while i < |ms|
      invariant 0 <= i <= |ms|
      invariant h == AllItems(ms[..i]) && |h| < HighlightLimit
    {
      var items := ms[i].items;
      assert ms[..i + 1][..i] == ms[..i];
      var j := 0;
      while j < |items|
        invariant 0 <= j <= |items|
        invariant h == AllItems(ms[..i]) + items[..j] && |h| < HighlightLimit
      {
        h := h + [items[j]];
        assert items[..j + 1] == items[..j] + [items[j]];
        if |h| >= HighlightLimit {
          AllItemsPrefix(ms, i + 1);
          break;
        }
        j := j + 1;
      }
      if |h| >= HighlightLimit {
        break;
      }
      assert items[..|items|] == items;
      i := i + 1;
    }
    assert i == |ms| ==> ms[..i] == ms;
  }

  // ---------------------------------------------------------------------
  // View state

  /** The catalog component's state: the course list it was given, the
      search query and the two selection lists. */
  class CatalogView {
    const courses: seq<Course>
    var query: String
    var selectedCategories: seq<String>
    var selectedLevels: seq<String>

    constructor (courses: seq<Course>)
      ensures this.courses == courses
      ensures query == [] && selectedCategories == [] && selectedLevels == []
    {
      this.courses := courses;
      query := [];
      selectedCategories := [];
      selectedLevels := [];
    }

    /** The courses the grid shows. */
    function Shown(): (r: seq<Course>)
      reads this
      ensures IsSubsequence(r, courses)
      ensures forall c :: c in r <==>
        c in courses && Passes(c, Normalize(query), selectedCategories, selectedLevels)
    {
      Filtered(courses, query, selectedCategories, selectedLevels)
    }

    /** Typing in the search box. */
    method SetQuery(q: String)
      modifies this
      ensures query == q
      ensures selectedCategories == old(selectedCategories) && selectedLevels == old(selectedLevels)
    {
      query := q;
    }

    /** Clicking a category checkbox. */
    method ToggleCategory(value: String)
      modifies this
      ensures selectedCategories == Toggle(old(selectedCategories), value)
      ensures query == old(query) && selectedLevels == old(selectedLevels)
    {
      selectedCategories := Toggle(selectedCategories, value);
    }

    /** Clicking a level checkbox. */
    method ToggleLevel(value: String)
      modifies this
      ensures selectedLevels == Toggle(old(selectedLevels), value)
      ensures query == old(query) && selectedCategories == old(selectedCategories)
    {
      selectedLevels := Toggle(selectedLevels, value);
    }

    /** The Clear and Reset filters buttons: afterwards every course is shown. */
    method ClearAll()
      modifies this
      ensures query == [] && selectedCategories == [] && selectedLevels == []
      ensures Shown() == courses
    {
      query := [];
      selectedCategories := [];
      selectedLevels := [];
      UnfilteredShowsAll(courses, query);
    }
  }
}
