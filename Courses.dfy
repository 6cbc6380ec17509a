/** Course records and the free-text search string built from each course
    (`courseSearchText`). */
module Courses {
  import opened Text

  /** A unit of a course: a title and its ordered topic items. A missing
      title is the empty string and missing items the empty sequence. */
  datatype CourseModule = CourseModule(title: String, items: seq<String>)

  /** The fields of a course that the catalog reads. Missing text fields
      are empty strings, missing lists empty sequences. Fields used only for
      display (image, rating, popular flag, ...) are not modelled. */
  datatype Course = Course(
    id: String,
    slug: String,
    title: String,
    shortDescription: String,
    category: String,
    level: String,
    duration: String,
    skills: seq<String>,
    modules: seq<CourseModule>)

  /** The initial contents of `parts`: the five text fields, then the skills. */
  function HeadFragments(c: Course): seq<String>
  {
    [c.title, c.shortDescription, c.category, c.level, c.duration] + c.skills
  }

  /** What the module loop appends to `parts`: for each module in order, its
      title followed by its items. */
  function ModuleFragments(ms: seq<CourseModule>): seq<String>
  {
    if ms == [] then []
    else
      var last := ms[|ms| - 1];
      ModuleFragments(ms[..|ms| - 1]) + [last.title] + last.items
  }

  /** Every fragment `courseSearchText` collects, before falsy ones are dropped. */
  function Fragments(c: Course): seq<String>
  {
    HeadFragments(c) + ModuleFragments(c.modules)
  }

  /** The value of `courseSearchText(course)`. */
  function SearchText(c: Course): (r: String)
    ensures Trimmed(r) && IsLower(r)
  {
    Normalize(Join(NonEmpty(Fragments(c))))
  }

  /** `courseSearchText`: collects the fragments into `parts` as the source
      does, then drops the empty ones, joins them with single spaces and
      normalizes the result. */
  method CourseSearchText(c: Course) returns (text: String)
    ensures text == SearchText(c)
  {
    var parts := [c.title, c.shortDescription, c.category, c.level, c.duration] + c.skills;
    for i := 0 to |c.modules|
      invariant parts == HeadFragments(c) + ModuleFragments(c.modules[..i])
    {
      var m := c.modules[i];
      assert c.modules[..i + 1][..i] == c.modules[..i];
      parts := parts + [m.title];
      for j := 0 to |m.items|
        invariant parts == HeadFragments(c) + ModuleFragments(c.modules[..i]) + [m.title] + m.items[..j]
      {
        assert m.items[..j + 1] == m.items[..j] + [m.items[j]];
        parts := parts + [m.items[j]];
      }
      assert m.items[..|m.items|] == m.items;
    }
    assert c.modules[..|c.modules|] == c.modules;
    text := Normalize(Join(NonEmpty(parts)));
  }

  /** Each module's title and each of its items is among the fragments. */
  lemma {:induction false} ModuleFragmentsCover(ms: seq<CourseModule>)
    ensures forall m :: m in ms ==> m.title in ModuleFragments(ms)
    ensures forall m, x :: m in ms && x in m.items ==> x in ModuleFragments(ms)
  {
    if ms != [] {
      var init := ms[..|ms| - 1];
      ModuleFragmentsCover(init);
      assert ms == init + [ms[|ms| - 1]];
    }
  }

  /** A fragment, normalized, can be found in the search text. */
  lemma SearchTextFindsFragment(c: Course, f: String)
    requires f in Fragments(c)
    ensures Includes(SearchText(c), Normalize(f))
  {
    var parts := NonEmpty(Fragments(c));
    var joined := Join(parts);
    if f == [] {
      NormalizeBlank(f);
      assert OccursAt(SearchText(c), [], 0);
    } else {
      assert f in parts;
      var k :| 0 <= k < |parts| && parts[k] == f;
      JoinContains(parts, k);
      var a :| OccursAt(joined, f, a);
      NormalizeKeepsInfix(joined, f, a);
    }
  }

  /** Every skill, normalized, can be found in the search text. */
  lemma SearchTextFindsSkills(c: Course)
    ensures forall s :: s in c.skills ==> Includes(SearchText(c), Normalize(s))
  {
    forall s | s in c.skills ensures Includes(SearchText(c), Normalize(s)) {
      var k :| 0 <= k < |c.skills| && c.skills[k] == s;
      assert Fragments(c)[5 + k] == s;
      SearchTextFindsFragment(c, s);
    }
  }

  /** Every module title and every module item, normalized, can be found in
      the search text. */
  lemma SearchTextFindsModules(c: Course)
    ensures forall m :: m in c.modules ==> Includes(SearchText(c), Normalize(m.title))
    ensures forall m, x :: m in c.modules && x in m.items ==> Includes(SearchText(c), Normalize(x))
  {
    ModuleFragmentsCover(c.modules);
    forall m | m in c.modules ensures Includes(SearchText(c), Normalize(m.title)) {
      assert m.title in ModuleFragments(c.modules);
      SearchTextFindsFragment(c, m.title);
    }
    forall m, x | m in c.modules && x in m.items ensures Includes(SearchText(c), Normalize(x)) {
      assert x in ModuleFragments(c.modules);
      SearchTextFindsFragment(c, x);
    }
  }

  /** The search text contains the trimmed lower-case form of the title, the
      short description, the category, the level, the duration, every skill,
      every module title and every module item. */
  lemma SearchTextCoversCourse(c: Course)
    ensures Includes(SearchText(c), Normalize(c.title))
    ensures Includes(SearchText(c), Normalize(c.shortDescription))
    ensures Includes(SearchText(c), Normalize(c.category))
    ensures Includes(SearchText(c), Normalize(c.level))
    ensures Includes(SearchText(c), Normalize(c.duration))
    ensures forall s :: s in c.skills ==> Includes(SearchText(c), Normalize(s))
    ensures forall m :: m in c.modules ==> Includes(SearchText(c), Normalize(m.title))
    ensures forall m, x :: m in c.modules && x in m.items ==> Includes(SearchText(c), Normalize(x))
  {
    var fs := Fragments(c);
    assert fs[0] == c.title && fs[1] == c.shortDescription && fs[2] == c.category;
    assert fs[3] == c.level && fs[4] == c.duration;
    SearchTextFindsFragment(c, fs[0]);
    SearchTextFindsFragment(c, fs[1]);
    SearchTextFindsFragment(c, fs[2]);
    SearchTextFindsFragment(c, fs[3]);
    SearchTextFindsFragment(c, fs[4]);
    SearchTextFindsSkills(c);
    SearchTextFindsModules(c);
  }
}
