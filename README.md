# Categorised list pages of a portfolio site, in Dafny

This project models the rules inside `script.js` of a static personal website that do not depend
on the browser:

- the **difficulty badge** of a competitive-programming problem: a chain of rating bands that picks
  a colour, with two sub-bands that give the first digit its own colour, and the "Unrated" badge
  shown for a missing or zero rating;
- the **problems page**: problems are grouped by category into an insertion-ordered dictionary.
  The dictionary starts with "Competitive Programming" and "Combinatorics", and a problem without a
  category goes to "Competitive Programming". Empty groups are skipped, and each group is sorted by
  title;
- the **courses page**: courses are grouped by category, with "Uncategorized" as the default.
  Category names are sorted by a fixed priority list, and names not on it come after the listed
  ones in string order. Inside a category, courses are sorted by the first four-digit number in
  their title, highest first; a title without one counts as 0;
- the **accordion**: each rendered category has a header flag and a content flag. Both start
  active, and a click on the header toggles both;
- the **detail pages**: with no id, or an empty one, nothing is rendered. Otherwise the page shows
  the first record whose id equals the requested id, or a fixed "not found" message.

Modules follow the pieces of the page code: `Decimal` (number to text, digit runs to numbers),
`Strings` (string comparison), `Rating`, `Records`, `Seqs` (indexOf and find), `Sorting` (the in-place
sort), `Grouping` (the category dictionary), `Ordering` (the three comparators), `Pages` (the two
list pages and the two detail pages) and `Accordion`.

Modelling choices:

- A JavaScript comparator `cmp` is read as the relation `le(a, b) := cmp(a, b) <= 0`.
  `Array.prototype.sort` becomes an insertion sort, done in place on an array. It is proved to
  leave the array ordered by `le` and to be a permutation of its input, for any `le` that is total
  and transitive. Each comparator is proved to be such a relation.
- The dictionary `categories` is a sequence of (name, records) pairs. The grouping loop is a method
  proved equal to a fold (`GroupAll`), and the lemmas about the fold state what the page relies on.
- Ratings are integers of magnitude at most 2^53. A negative rating is not rejected, as in the source: it is gray and its
  text has a minus sign. A rating counts as falsy when it is absent or 0. A category counts as
  falsy when it is absent or the empty string.
- "Humanities" is at index 6 of the priority list. So the discovered names "Humanities", "Systems",
  "UnknownX" and "Theoretical Computer Science" sort as "Theoretical Computer Science", "Systems",
  "Humanities", "UnknownX", and `Ordering.CategoryExample` proves that this is the only sorted
  order.

## Model

| member | source | states |
|---|---|---|
| `Rating.BodyColor` | script.js:166-198 | each body colour holds exactly on its band: gray below 1000, green on [1000,1400), cyan [1400,1600), blue [1600,1800), violet [1800,2000), orange [2000,2400), red [2400,4000), black from 4000 |
| `Rating.LeadColor` | script.js:167-197 | a first-character colour exists exactly on [2200,2400) (red) and [3000,4000) (black) |
| `Rating.RatingBadge` | script.js:165-208 | never "Unrated"; the characters shown are exactly the rating's toString; the body colour is the band colour; the badge is split exactly on the two sub-bands, red over orange below 3000 and black over red from 3000 |
| `Rating.DifficultyBadge` | script.js:131-136 | "Unrated" exactly when the rating is absent or 0; otherwise the getRatingHTML badge, showing the rating's digits |
| `Rating.BodyColorIsBand` | script.js:169-198 | the if-chain agrees with an independent table of band lower bounds |
| `Rating.RatingTextRoundTrip` | script.js:200-206 | the badge of a non-negative rating shows digits only, and they read back as the rating |
| `Rating.SubBandEdges` | script.js:186-197 | 2199 and 2200 share the orange body but 2200 adds a red first digit; 2999 is uniformly red while 3000 has a black first digit over red |
| `Rating.OrangeSubBandEdge` | script.js:186-190 | 2199 is uniformly orange; 2200 has a red first digit over orange |
| `Rating.RedSubBandEdge` | script.js:191-195 | 2999 is uniformly red; 3000 has a black first digit over red |
| `Rating.ClassName` | script.js:166-197 | the style-sheet class of each colour; `Rating.ClassNamesDistinct` pins that no two colours share a class |
| `Rating.ClassNamesDistinct` | script.js:166-197 | two colours with the same class name are the same colour |
| `Decimal.NatString` | script.js:200 | toString of a natural: non-empty, digits only, a leading zero only for 0 (which is "0"); 10^(|s|-1) <= n < 10^|s| for n > 0, so |s| is exactly the digit count of n |
| `Decimal.IntString` | script.js:200 | toString of a safe integer: the digits, preceded by a minus sign when negative |
| `Decimal.ParseDigits` | script.js:282 | parseInt of a digit string: a value below 10 to the power of its length |
| `Decimal.ParseNatString` | script.js:200-203 | parsing the text of n gives back n |
| `Strings.CompareStrings` | script.js:125 | the stand-in for localeCompare answers -1, 0 or 1, and 0 exactly when the strings are equal |
| `Strings.CompareAntisymmetric` | script.js:253 | swapping the two strings negates the comparison |
| `Strings.CompareTransitive` | script.js:253 | "not after" is transitive |
| `Records.ProblemCategory` | script.js:94 | a problem's group is its category when present and non-empty, else "Competitive Programming" |
| `Records.CourseCategory` | script.js:222 | a course's group is its category when present and non-empty, else "Uncategorized" |
| `Seqs.IndexOf` | script.js:243-244 | indexOf: -1 exactly when absent, else the first position holding the value |
| `Seqs.FindFirst` | script.js:328 | find: the first position whose element matches, or none when no element matches |
| `Sorting.SortInPlace` | script.js:125 | sorting an array in place leaves it ordered by the comparator and a permutation of its old contents |
| `Sorting.SortedCopy` | script.js:279-285 | the sorted group is ordered by the comparator and holds the same records |
| `Sorting.SortedUnique` | script.js:242-254 | with a total order as comparator, two sorted permutations of the same collection are equal |
| `Grouping.GroupBy` | script.js:93-100 | the forEach grouping loop computes the dictionary that the fold `GroupAll` describes |
| `Grouping.Add` | script.js:95-99 | one push-or-create step; pinned by `Grouping.AddShape` and `Grouping.AddFlatten` |
| `Grouping.GroupAll` | script.js:93-100 | the dictionary after the loop, as a fold of `Add` from the seed; pinned by the `GroupAll*` lemmas |
| `Grouping.AddFlatten` | script.js:95-99 | one step adds exactly the new record to the groups' contents |
| `Grouping.AddShape` | script.js:95-99 | one step keeps names distinct, adds the name last only when new, and extends only that name's group |
| `Grouping.GroupAllKeys` | script.js:88-100 | after grouping, names are distinct, the seeded names come first in their order, and the other names are exactly the records' keys |
| `Grouping.GroupAllPrefix` | script.js:88-100 | after grouping, names are distinct and the seeded names come first, in their order |
| `Grouping.GroupAllNames` | script.js:88-100 | after grouping, a name is present exactly when it is a seeded name or some record's key |
| `Grouping.GroupAllMembers` | script.js:93-100 | each group holds exactly the records with its name, in input order |
| `Grouping.GroupAllFirstSeen` | script.js:97-99 | names beyond the seed come in the order in which the records first show them |
| `Grouping.SelectMember` | script.js:95-96 | a record is in the selection for a name exactly when it is one of the records and has that name |
| `Grouping.GroupOfRecord` | script.js:94-99 | each record is in exactly one group, the one named by its key |
| `Grouping.GroupAllPartition` | script.js:93-100 | together the groups hold every record exactly once (multiset equality with the input) |
| `Grouping.NonEmptyMembers` | script.js:106 | skipping empty groups keeps exactly the groups with at least one record |
| `Grouping.NonEmptyDistinct` | script.js:106 | skipping empty groups keeps the names distinct |
| `Grouping.NonEmptyFlatten` | script.js:106 | skipping empty groups loses no record |
| `Grouping.NonEmpty` | script.js:106 | the groups kept by the `continue` on empty groups; pinned by `Grouping.NonEmptyMembers`, `NonEmptyDistinct` and `NonEmptyFlatten` |
| `Grouping.NonEmptyKeepsOrder` | script.js:105-106 | the kept groups come in the order of their names in the dictionary |
| `Ordering.TitleOrderIsTotal` | script.js:125 | the title comparator is total and transitive |
| `Ordering.TitleLe` | script.js:125 | the title comparator `a.title.localeCompare(b.title)`, read as "a may stay before b"; pinned by `Ordering.TitleOrderIsTotal` |
| `Ordering.DigitRunAt` | script.js:281 | a match of `/\d{4}/` at a position; pinned by `Ordering.FirstDigitRun` and `Ordering.CourseNumber` |
| `Ordering.FirstDigitRun` | script.js:281 | the position found holds four digits and no earlier position does; none is found only when no position holds four digits |
| `Ordering.CourseNumber` | script.js:280-283 | the number is below 10000, is 0 when the title has no four-digit run, and is otherwise the value of the leftmost run |
| `Ordering.CourseOrderIsTotal` | script.js:279-285 | the course comparator (higher number first) is total and transitive |
| `Ordering.UnnumberedLast` | script.js:282-284 | a course whose title has no four-digit run may come after any other course |
| `Ordering.CourseLe` | script.js:279-285 | the comparator `getNumber(b.title) - getNumber(a.title)`; pinned by `Ordering.CourseOrderIsTotal`, `UnnumberedLast` and `CourseExampleOrder` |
| `Ordering.CodeNumber` | script.js:280-283 | a title of a three-character code ending in a non-digit, then four digits, has the value of those digits as its number |
| `Ordering.NoDigitsNoNumber` | script.js:282-283 | a title without any digit has number 0 |
| `Ordering.CourseNumberExamples` | script.js:280-283 | "CS 2110" has number 2110 and "CS 4780" has number 4780 |
| `Ordering.CourseExampleOrder` | script.js:279-285 | "CS 4780" sorts before "CS 2110", and not the other way round |
| `Ordering.UnnumberedExample` | script.js:282-283 | "Linear Algebra" has number 0 |
| `Ordering.CategoryPriority` | script.js:232-240 | the seven listed category names in their order; pinned by `Ordering.ExampleIndices` |
| `Ordering.ComparePriority` | script.js:242-254 | the category comparator for a given priority list; pinned by the `Priority*` lemmas |
| `Ordering.CategoryLe` | script.js:242-254 | the comparator loadCourses sorts with, on the fixed list; pinned by `Ordering.CategoryOrderIsTotal` |
| `Ordering.PriorityOrderRules` | script.js:242-254 | for any priority list: listed names are ordered by their index; a listed name comes strictly before an unlisted one; unlisted names are ordered by string comparison |
| `Ordering.PriorityTotal` | script.js:242-254 | any two names are ordered one way or the other |
| `Ordering.PriorityTransitive` | script.js:242-254 | the priority order is transitive |
| `Ordering.PriorityAntisymmetric` | script.js:242-254 | two names ordered both ways are equal |
| `Ordering.CategoryOrderIsTotal` | script.js:242-254 | the category comparator is a total order, so the sorted list of names is determined |
| `Ordering.ExampleIndices` | script.js:232-240 | positions of names on the priority list; "UnknownX" is not on it |
| `Ordering.ExampleSorted` | script.js:232-254 | "Theoretical Computer Science", "Systems", "Humanities", "UnknownX" is in category order |
| `Ordering.CategoryExample` | script.js:232-254 | the only sorted order of those four discovered names is that one |
| `Pages.ProblemSections` | script.js:102-146 | the sections are the non-empty groups in dictionary order; each holds its group's problems, sorted by title, each with its difficulty badge |
| `Pages.RenderProblemGroup` | script.js:124-145 | one section shows its group's name, the group's problems sorted by title, and each problem's difficulty badge |
| `Pages.ProblemSeed` | script.js:88-91 | the dictionary starts with empty "Competitive Programming" and "Combinatorics"; pinned by `Pages.ProblemGroupOrder` |
| `Pages.ProblemGroups` | script.js:93-100 | the problems' dictionary; pinned by `Pages.ProblemGroupOrder`, `ProblemPartition` and `UncategorizedProblem` |
| `Pages.ProblemGroupOrder` | script.js:88-105 | "Competitive Programming" and "Combinatorics" come first, in that order; other categories follow in the order the problems first show them |
| `Pages.ProblemSectionOrder` | script.js:105-106 | the rendered sections keep the dictionary order; skipping empty groups reorders nothing |
| `Pages.ProblemPartition` | script.js:93-106 | the rendered groups have distinct names, none is empty, each holds exactly its category's problems in input order, and together they hold every problem once |
| `Pages.UncategorizedProblem` | script.js:94 | a problem without a category is in the "Competitive Programming" group and in no other |
| `Pages.CourseSections` | script.js:219-305 | the section names are the categories found, sorted by the category comparator; each section holds its category's courses, sorted highest number first |
| `Pages.CourseGroups` | script.js:219-227 | the courses' dictionary; pinned by `Pages.CourseGroupsNonEmpty` and `CoursePartition` |
| `Pages.CourseGroupsNonEmpty` | script.js:221-227 | every course category has at least one course |
| `Pages.CoursePartition` | script.js:219-227 | the categories are exactly the courses' distinct categories; each holds exactly its courses in input order; together they hold every course once |
| `Pages.CourseOrderDetermined` | script.js:242-257 | any two renderings of the same courses list the categories in the same order |
| `Pages.LookupDetail` | script.js:323-330 | no render on a missing or empty id; otherwise the first record with that id, or the not-found message when no record has it |
| `Pages.ProblemDetail` | script.js:318-372 | the problem shown has the requested id and comes with its difficulty badge; the first problem with that id is shown; "Problem not found." only when no problem has the id |
| `Pages.CourseDetail` | script.js:379-404 | the course shown has the requested id; the first course with that id is shown; "Course not found." only when no course has the id |
| `Accordion.Section.constructor` | script.js:111-119 | a section starts with header and content both active |
| `Accordion.Section.Click` | script.js:154-157 | a click flips both flags and keeps them in step |
| `Accordion.ClickTwice` | script.js:154-157 | two clicks restore the section's state |
| `Accordion.ClickOne` | script.js:153-157 | clicking one section leaves every other section unchanged |
| `Accordion.RenderAndClick` | script.js:111-157 | after any number of clicks a rendered section is in step, and active exactly after an even number of clicks |

## Left out

- Fetching the JSON files, `response.json()`, async/await and the try/catch logging are network
  I/O and error plumbing. The error texts shown when loading fails are not modelled.
- DOM construction, `innerHTML` templates and the class names as markup are left out. Rendered
  output is described by datatypes (`Badge`, `ProblemSection`, `CourseSection`, `Detail`).
  `Rating.ClassName` gives the style-sheet name of each colour.
- Page routing by `window.location.pathname`, reading the `id` query parameter and checking for the
  container element are browser glue. The id arrives as an `Option<string>`.
- `setupMobileNav` is UI animation that uses floating-point delays.
- MathJax typesetting is a call into an external library.
- Fields that are only templated are not part of the records: source, description, images, link,
  provider and date. So are the problem description fallback and the image gallery. The pages
  `loadProjects` and `loadExperience` are templating only.
- `Strings.CompareStrings`: localeCompare's collation is replaced by lexicographic order on
  character codes, with no case folding.
- `Sorting.SortInPlace`: the stability of `Array.prototype.sort` is not stated. Only order and
  permutation are proved.
- `Sorting.SortedCopy`: stability is not stated either, and every page sort goes through it. In the
  source, ties keep their input order: problems with equal titles, and courses with equal numbers,
  such as all unnumbered courses of a category. `Pages.RenderProblemGroup` and
  `Pages.CourseSections` allow any order among tied records.
- `Decimal.IntString`, `Rating.RatingBadge`: ratings are taken to be integers of magnitude at most
  2^53. Larger or fractional ratings fall in the same colour bands, but `toString` writes them
  rounded, in exponent form (from 10^21) or with a fraction, which the model's digit text does
  not show.
- `Rating.RatingBadge`: its text equals `IntString`, which is `toString` only for safe integers
  (see the line above).
- `Grouping.GroupAllFirstSeen`: assumes category names are not integer-like. `Object.entries` lists
  such keys first, in numeric order.
- `Grouping.GroupBy`: assumes no category is named after an `Object.prototype` property such as
  `constructor` or `toString`. The dictionary is a plain object, so such a name would find an
  inherited function, and the push would throw.
- Record ids are strings. The source compares with `===`, so a numeric id in the JSON would never
  match a query parameter.
