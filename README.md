# Course catalog search and filters

A Dafny model of the course catalog's search and filter logic
(`src/components/courcses/CoursesSec2.js`). The catalog receives a fixed list
of courses. It builds one search string per course and filters the list by a
free-text query, a set of selected categories and a set of selected levels.
It lists the categories and levels on offer, and shows up to three
"highlights" on each card. The component's state is the query and the two
selection lists. Typing sets the query, checkboxes toggle a value in a list,
and the Clear/Reset buttons empty all three.

Layout:

- `Text.dfy` (module `Text`): the string built-ins the code relies on
  (`toLowerCase`, `trim`, `includes`, `filter(Boolean)`, `join(" ")`) and
  `normalize`, with their properties.
- `Sorting.dfy` (module `Sorting`): `Array.prototype.sort` with a comparator,
  as an insertion sort over an arbitrary total order.
- `Courses.dfy` (module `Courses`): the course and module records, and
  `courseSearchText`, both as a specification function (`SearchText`) and as
  the loop that fills `parts` (`CourseSearchText`).
- `Catalog.dfy` (module `Catalog`): the `filtered` memo, `toggleInList`, the
  `categories`/`levels` memos, the highlights loop, and the component state as
  the class `CatalogView`.

Three parts of the source are plain expressions, and the model gives them as
functions: `normalize`, the predicate passed to `courses.filter`, and the new
list `toggleInList` computes. Three parts are loops, and the model gives them
as methods with loop invariants, each proved against a specification:
building `parts`, collecting facet values into a `Set`, and collecting
highlights with `break`. The state that `useState` holds becomes fields of a
class. `setQuery`, `toggleInList` and `clearAll` become methods that modify
those fields, and the `filtered` memo becomes a function of the fields.

Two behaviours of the code are worth noting:

- The selections are arrays. Toggling removes *every* occurrence of a value
  that is already present; otherwise it appends the value. Toggling twice
  therefore restores membership. When the value was absent, the exact list
  comes back; when it was present, the result is the list without it, with
  it appended once.
- The highlight limit is the constant 3, not a parameter.

## Model

| member | source | states |
|---|---|---|
| `Text.LowerChar` | src/components/courcses/CoursesSec2.js:10 | each letter A–Z becomes the matching letter a–z, every other character is unchanged, and whitespace stays whitespace |
| `Text.Lower` | src/components/courcses/CoursesSec2.js:10 | lower-casing keeps the length and lower-cases each character on its own, as `LowerChar` states |
| `Text.Trim` | src/components/courcses/CoursesSec2.js:11 | the result has no whitespace at either end, and only whitespace was cut from the front and the back |
| `Text.TrimUnique` | src/components/courcses/CoursesSec2.js:11 | cutting a whitespace-only prefix and suffix so that neither end is whitespace gives exactly `trim()`; so trimming is fully determined |
| `Text.Normalize` | src/components/courcses/CoursesSec2.js:8-12 | `normalize` returns a string with no whitespace at either end and no upper-case letter |
| `Text.NormalizeIdempotent` | src/components/courcses/CoursesSec2.js:8-12 | `normalize(normalize(s)) == normalize(s)` |
| `Text.NormalizeIgnoresCase` | src/components/courcses/CoursesSec2.js:8-12 | lower-casing first does not change the normalized form |
| `Text.NormalizeIgnoresPadding` | src/components/courcses/CoursesSec2.js:8-12 | whitespace added before or after a string does not change its normalized form |
| `Text.NormalizeBlank` | src/components/courcses/CoursesSec2.js:8-12 | a string normalizes to "" exactly when it is empty or whitespace only |
| `Text.Includes` | src/components/courcses/CoursesSec2.js:60 | `s.includes(q)` holds exactly when `q` occurs at some position of `s` |
| `Text.NonEmpty` | src/components/courcses/CoursesSec2.js:29 | `parts.filter(Boolean)` keeps exactly the non-empty parts, in their order and with their repeats: the result is a subsequence of `parts` whose multiset is that of `parts` without the empty strings |
| `Text.Join` | src/components/courcses/CoursesSec2.js:29 | `parts.join(" ")` starts with the first part, and its length is the parts' total length plus one per gap between neighbouring parts; `JoinAt` says where each part and each space sits |
| `Text.JoinAt` | src/components/courcses/CoursesSec2.js:29 | part `k` occurs at offset (total length of the parts before it) + `k`, and for `k > 0` the character just before it is a single space; with `Join`'s length this determines the joined string |
| `Text.JoinContains` | src/components/courcses/CoursesSec2.js:29 | every part occurs, contiguously, in `parts.join(" ")` |
| `Text.NormalizeKeepsInfix` | src/components/courcses/CoursesSec2.js:29 | whatever occurs in a string occurs, normalized, in the normalized string |
| `Courses.SearchText` | src/components/courcses/CoursesSec2.js:14-30 | the search text is lower-case and has no whitespace at either end |
| `Courses.CourseSearchText` | src/components/courcses/CoursesSec2.js:14-30 | the loops that fill `parts` (title, description, category, level, duration, skills, then each module's title and items), followed by filter, join and normalize, compute `SearchText` |
| `Courses.ModuleFragmentsCover` | src/components/courcses/CoursesSec2.js:24-27 | every module title and every module item is pushed onto `parts` |
| `Courses.SearchTextFindsFragment` | src/components/courcses/CoursesSec2.js:14-30 | every fragment pushed onto `parts`, once normalized, occurs in the course's search text |
| `Courses.SearchTextFindsSkills` | src/components/courcses/CoursesSec2.js:21 | every skill, normalized, occurs in the search text |
| `Courses.SearchTextFindsModules` | src/components/courcses/CoursesSec2.js:24-27 | every module title and every module item, normalized, occurs in the search text |
| `Courses.SearchTextCoversCourse` | src/components/courcses/CoursesSec2.js:14-30 | the normalized title, short description, category, level, duration, skills, module titles and items all occur in the search text |
| `Catalog.Passes` | src/components/courcses/CoursesSec2.js:53-60 | a course passes iff the category selection is empty or holds its category, the level selection is empty or holds its level, and the query is empty or occurs at some position of its search text |
| `Catalog.FilterCourses` | src/components/courcses/CoursesSec2.js:52-61 | the filter keeps an order-preserving subsequence of the courses; a course is kept iff its category check, its level check and the query check all pass |
| `Catalog.Filtered` | src/components/courcses/CoursesSec2.js:49-62 | the `filtered` memo is a subsequence of `courses`, and a course is in it iff it is in `courses` and passes the three checks against the normalized query |
| `Catalog.FilterKeepsAll` | src/components/courcses/CoursesSec2.js:52-61 | when every course passes, the filter returns the list unchanged |
| `Catalog.UnfilteredShowsAll` | src/components/courcses/CoursesSec2.js:49-62 | with a blank query (empty or whitespace only, which by `NormalizeBlank` are exactly the queries that normalize to "") and both selections empty, `filtered` equals `courses` exactly |
| `Catalog.FilterMonotone` | src/components/courcses/CoursesSec2.js:52-61 | when one set of filter settings passes only courses that a second set passes, its result is a subsequence of the second's result |
| `Catalog.RestrictionNarrows` | src/components/courcses/CoursesSec2.js:53-58 | selecting categories (or levels) gives a subsequence of, and no more results than, leaving that selection empty |
| `Catalog.FilterIsIntersection` | src/components/courcses/CoursesSec2.js:53-60 | a course is shown iff the category filter alone, the level filter alone and the query alone would each show it |
| `Catalog.QueryIsNormalized` | src/components/courcses/CoursesSec2.js:50 | the results do not change when the query's letters are upper- or lower-case, or when the query is normalized first |
| `Catalog.QueryIgnoresPadding` | src/components/courcses/CoursesSec2.js:50 | whitespace typed around the query does not change the results |
| `Catalog.QueryFoundInFragmentMatches` | src/components/courcses/CoursesSec2.js:59-60 | a query whose normalized form occurs in any normalized fragment of a course (e.g. "  RISK  " against "Risk management") matches that course |
| `Catalog.RemoveAll` | src/components/courcses/CoursesSec2.js:65 | `prev.filter((v) => v !== value)` keeps every other element, in order and with its repeats (its multiset is the input's with every copy of `value` removed), and no copy of `value` |
| `Catalog.Toggle` | src/components/courcses/CoursesSec2.js:64-66 | the toggled list contains `value` iff the old one did not, and every other value's membership is unchanged; an absent value is appended, and removing a present value shortens the list |
| `Catalog.RemoveAllAppended` | src/components/courcses/CoursesSec2.js:65 | removing `value` from a list that ends in a freshly appended `value` gives the same result as removing it from the list without that last element |
| `Catalog.ToggleTwice` | src/components/courcses/CoursesSec2.js:64-66 | toggling the same value twice restores the set of selected values. If the value was absent, the list itself is restored. If it was present, the result is the list without the value, with the value appended |
| `Sorting.Sort` | src/components/courcses/CoursesSec2.js:40 | sorting returns a permutation of its input |
| `Sorting.SortCorrect` | src/components/courcses/CoursesSec2.js:40 | under a total order, the sorted result is ordered, and distinct inputs give distinct outputs |
| `Catalog.FacetValues` | src/components/courcses/CoursesSec2.js:37-47 | the `categories` (or `levels`) list is sorted and has no duplicates, and a string is in it iff it is the non-empty category (level) of some course |
| `Catalog.Highlights` | src/components/courcses/CoursesSec2.js:148-155 | the highlights are a prefix of all module items concatenated in module and item order, of length min(3, number of items) |
| `Catalog.CatalogView.constructor` | src/components/courcses/CoursesSec2.js:32-35 | the component starts with an empty query and empty selections over the courses it is given |
| `Catalog.CatalogView.Shown` | src/components/courcses/CoursesSec2.js:49-62 | the shown courses are a subsequence of `courses`; a course is shown iff it passes the filter for the current query and selections |
| `Catalog.CatalogView.SetQuery` | src/components/courcses/CoursesSec2.js:91 | typing replaces the query and leaves both selections unchanged |
| `Catalog.CatalogView.ToggleCategory` | src/components/courcses/CoursesSec2.js:120 | a category checkbox toggles the value in the category selection only |
| `Catalog.CatalogView.ToggleLevel` | src/components/courcses/CoursesSec2.js:136 | a level checkbox toggles the value in the level selection only |
| `Catalog.CatalogView.ClearAll` | src/components/courcses/CoursesSec2.js:68-72 | clearing empties the query and both selections, after which every course is shown in its original order |

## Left out

- `Catalog.FacetValues`: `localeCompare` depends on the locale and comes from a library outside this code. It is replaced by any total order `le` that is also antisymmetric, so the model assumes two distinct strings never compare as equal. It does not cover locales where distinct strings tie; with such ties, the order among tied values would come from the `Set`'s insertion order.
- `Text.Lower`: lower-cases only the letters A–Z. Full Unicode `toLowerCase` (other scripts, characters that lower-case to two code units) is not modelled.
- Strings are sequences of Unicode scalar values, not UTF-16 code units, so lone surrogates and the code-unit positions that `includes` works on are not modelled. `trim` uses the exact ECMAScript whitespace and line-terminator set.
- JavaScript coercion (`?.`, `?? []`, `String(value ?? "")`): missing text fields and titles are modelled as empty strings, and missing lists as empty sequences. Non-string values passed to `normalize` are out of scope.
- React and Next.js machinery: re-render scheduling in `useState`/`useMemo`, JSX markup, images, links, CSS modules, the result count and the `key` props. The memos are modelled as functions of the state. The updater-function form of `setList` is modelled as a direct assignment, since updates run one at a time.
- `src/components/courcses/CoursesSec1.js` (static markup) and `src/app/courses/page.jsx` (loads the data file and composes two components): no logic of their own.
- `src/app/courses/[slug]/page.jsx`: the detail page's skill extraction, duration parsing, related-course ranking and numeric defaults are outside the catalog grid and are not part of this model.
