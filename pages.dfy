/**
 * What the list pages and the detail pages compute from the fetched records: the sections of the
 * problems page, the sections of the courses page, and the record a detail page shows.
 */
module Pages {
  import opened Wrappers
  import opened Seqs
  import opened Records
  import opened Rating
  import opened Sorting
  import opened Grouping
  import opened Ordering

  // ---- problems page ----

  /** The dictionary the problems page starts from: two named, empty groups. */
  const ProblemSeed: Groups<Problem> := [(DefaultProblemCategory, []), ("Combinatorics", [])]

  function ProblemGroups(problems: seq<Problem>): Groups<Problem> {
    GroupAll(ProblemSeed, problems, ProblemCategory)
  }

  datatype ProblemItem = ProblemItem(problem: Problem, badge: Badge)
  datatype ProblemSection = ProblemSection(name: string, items: seq<ProblemItem>)

  function ItemProblems(items: seq<ProblemItem>): seq<Problem> {
    seq(|items|, i requires 0 <= i < |items| => items[i].problem)
  }

  /** A rendered section shows a group: its name, its problems by title, each with its badge. */
  ghost predicate ShowsProblemGroup(s: ProblemSection, g: (string, seq<Problem>)) {
    && s.name == g.0
    && Sorted(ItemProblems(s.items), TitleLe)
    && multiset(ItemProblems(s.items)) == multiset(g.1)
    && forall j :: 0 <= j < |s.items| ==> s.items[j].badge == DifficultyBadge(s.items[j].problem.rating)
  }

  ghost predicate ShowsProblemGroups(sections: seq<ProblemSection>, groups: Groups<Problem>) {
    |sections| == |groups| && forall i :: 0 <= i < |sections| ==> ShowsProblemGroup(sections[i], groups[i])
  }

  /**
   * loadProblems after the fetch: group the problems, then render every group that has problems,
   * in dictionary order, its problems sorted by title.
   */
  method ProblemSections(problems: seq<Problem>) returns (sections: seq<ProblemSection>)
    ensures ShowsProblemGroups(sections, NonEmpty(ProblemGroups(problems)))
  {
    var groups := GroupBy(problems, ProblemCategory, ProblemSeed);
    sections := [];
    for n := 0 to |groups|
      invariant ShowsProblemGroups(sections, NonEmpty(groups[..n]))
    {
      assert groups[..n + 1][..n] == groups[..n];
      var (name, members) := groups[n];
      if |members| != 0 {
        var section := RenderProblemGroup(name, members);
        ShowsAppend(sections, NonEmpty(groups[..n]), section, groups[n]);
        sections := sections + [section];
      }
    }
    assert groups[..|groups|] == groups;
  }

  /** One section of the problems page: the group's problems sorted by title, each with its badge. */
  method RenderProblemGroup(name: string, members: seq<Problem>) returns (section: ProblemSection)
    ensures ShowsProblemGroup(section, (name, members))
  {
    TitleOrderIsTotal();
    var sorted := SortedCopy(members, TitleLe);
    var items := seq(|sorted|, j requires 0 <= j < |sorted| => ProblemItem(sorted[j], DifficultyBadge(sorted[j].rating)));
    assert ItemProblems(items) == sorted;
    section := ProblemSection(name, items);
  }

  lemma ShowsAppend(sections: seq<ProblemSection>, groups: Groups<Problem>, s: ProblemSection, g: (string, seq<Problem>))
    requires ShowsProblemGroups(sections, groups) && ShowsProblemGroup(s, g)
    ensures ShowsProblemGroups(sections + [s], groups + [g])
  {
    var sections', groups' := sections + [s], groups + [g];
    forall i | 0 <= i < |sections'|
      ensures ShowsProblemGroup(sections'[i], groups'[i])
    {
      if i < |sections| {
        assert sections'[i] == sections[i] && groups'[i] == groups[i];
      }
    }
  }

  lemma ProblemGroupOrder(problems: seq<Problem>)
    ensures var g := ProblemGroups(problems);
      && |g| >= 2 && g[0].0 == "Competitive Programming" && g[1].0 == "Combinatorics"
      && FirstSeenOrder(g, 2, KeysOf(problems, ProblemCategory))
  {
    GroupAllKeys(ProblemSeed, problems, ProblemCategory);
    GroupAllFirstSeen(ProblemSeed, problems, ProblemCategory);
    var g := ProblemGroups(problems);
    assert Keys(g)[..2] == Keys(ProblemSeed);
    assert Keys(g)[0] == g[0].0 && Keys(g)[1] == g[1].0;
  }

  /** The rendered sections keep the dictionary order: skipping empty groups reorders nothing. */
  lemma ProblemSectionOrder(problems: seq<Problem>)
    ensures FirstSeenOrder(NonEmpty(ProblemGroups(problems)), 0, Keys(ProblemGroups(problems)))
  {
    GroupAllKeys(ProblemSeed, problems, ProblemCategory);
    NonEmptyKeepsOrder(ProblemGroups(problems));
  }

  /**
   * The rendered groups partition the problems: distinct names, none empty, each with exactly the
   * problems of its category in input order, and together every problem once.
   */
  lemma ProblemPartition(problems: seq<Problem>)
    ensures var shown := NonEmpty(ProblemGroups(problems));
      && DistinctKeys(shown)
      && (forall i :: 0 <= i < |shown| ==> shown[i].1 != [])
      && (forall i :: 0 <= i < |shown| ==> shown[i].1 == Select(problems, ProblemCategory, shown[i].0))
      && multiset(Flatten(shown)) == multiset(problems)
  {
    var g := ProblemGroups(problems);
    var shown := NonEmpty(g);
    GroupAllKeys(ProblemSeed, problems, ProblemCategory);
    GroupAllMembers(ProblemSeed, problems, ProblemCategory);
    GroupAllPartition(ProblemSeed, problems, ProblemCategory);
    NonEmptyMembers(g);
    NonEmptyDistinct(g);
    NonEmptyFlatten(g);
    NonEmptySelect(g, problems, ProblemCategory);
  }

  /** A problem without a category is shown under "Competitive Programming". */
  lemma UncategorizedProblem(problems: seq<Problem>, p: Problem)
    requires p in problems && !HasCategory(p.category)
    ensures var g := ProblemGroups(problems); p in g[0].1 && forall j :: 0 < j < |g| ==> p !in g[j].1
  {
    GroupOfRecord(ProblemSeed, problems, ProblemCategory, p);
    ProblemGroupOrder(problems);
    var g := ProblemGroups(problems);
    assert Keys(g)[0] == DefaultProblemCategory;
  }

  // ---- courses page ----

  function CourseGroups(courses: seq<Course>): Groups<Course> {
    GroupAll([], courses, CourseCategory)
  }

  datatype CourseSection = CourseSection(name: string, courses: seq<Course>)

  function SectionNames(sections: seq<CourseSection>): seq<string> {
    seq(|sections|, i requires 0 <= i < |sections| => sections[i].name)
  }

  /** A rendered section holds the courses of its category, highest number first. */
  ghost predicate ShowsCourseGroup(s: CourseSection, courses: seq<Course>) {
    Sorted(s.courses, CourseLe) && multiset(s.courses) == multiset(Select(courses, CourseCategory, s.name))
  }

  /**
   * loadCourses after the fetch: group the courses, sort the category names by priority, then
   * render each category's courses sorted by number, highest first.
   */
  method CourseSections(courses: seq<Course>) returns (sections: seq<CourseSection>)
    ensures Sorted(SectionNames(sections), CategoryLe)
    ensures multiset(SectionNames(sections)) == multiset(Keys(CourseGroups(courses)))
    ensures forall i :: 0 <= i < |sections| ==> ShowsCourseGroup(sections[i], courses)
  {
    var groups := GroupBy(courses, CourseCategory, []);
    GroupAllMembers([], courses, CourseCategory);
    CategoryOrderIsTotal();
    CourseOrderIsTotal();
    var names := SortedCopy(Keys(groups), CategoryLe);
    sections := [];
    for n := 0 to |names|
      invariant |sections| == n
      invariant forall i :: 0 <= i < n ==> sections[i].name == names[i] && ShowsCourseGroup(sections[i], courses)
    {
      assert names[n] in multiset(Keys(groups));
      var i := IndexOf(Keys(groups), names[n]);
      assert groups[i].0 == Keys(groups)[i];
      var sorted := SortedCopy(groups[i].1, CourseLe);
      sections := sections + [CourseSection(names[n], sorted)];
    }
    assert SectionNames(sections) == names;
  }

  /** Every category of the courses page has at least one course. */
  lemma CourseGroupsNonEmpty(courses: seq<Course>)
    ensures var g := CourseGroups(courses);
      forall i :: 0 <= i < |g| ==> g[i].1 != []
  {
    var g := CourseGroups(courses);
    GroupAllKeys([], courses, CourseCategory);
    GroupAllMembers([], courses, CourseCategory);
    forall i | 0 <= i < |g|
      ensures g[i].1 != []
    {
      assert g[i].0 == Keys(g)[i] && g[i].0 in Keys(g);
      var empty: Groups<Course> := [];
      assert g[i].0 !in Keys(empty);
      assert g[i].0 in KeysOf(courses, CourseCategory);
      var j :| 0 <= j < |courses| && KeysOf(courses, CourseCategory)[j] == g[i].0;
      SelectMember(courses, CourseCategory, g[i].0, courses[j]);
    }
  }

  /**
   * The categories of the courses page: one per distinct category of the courses, none empty,
   * each with exactly the courses of that category, and together every course once.
   */
  lemma CoursePartition(courses: seq<Course>)
    ensures var g := CourseGroups(courses);
      && DistinctKeys(g)
      && (forall k :: k in Keys(g) <==> k in KeysOf(courses, CourseCategory))
      && (forall i :: 0 <= i < |g| ==> g[i].1 != [])
      && (forall i :: 0 <= i < |g| ==> g[i].1 == Select(courses, CourseCategory, g[i].0))
      && multiset(Flatten(g)) == multiset(courses)
  {
    GroupAllKeys([], courses, CourseCategory);
    GroupAllMembers([], courses, CourseCategory);
    GroupAllPartition([], courses, CourseCategory);
    CourseGroupsNonEmpty(courses);
  }

  /** Two renderings of the same courses list their categories in the same order. */
  lemma CourseOrderDetermined(courses: seq<Course>, s1: seq<CourseSection>, s2: seq<CourseSection>)
    requires Sorted(SectionNames(s1), CategoryLe) && Sorted(SectionNames(s2), CategoryLe)
    requires multiset(SectionNames(s1)) == multiset(Keys(CourseGroups(courses)))
    requires multiset(SectionNames(s2)) == multiset(Keys(CourseGroups(courses)))
    ensures SectionNames(s1) == SectionNames(s2)
  {
    CategoryOrderIsTotal();
    SortedUnique(SectionNames(s1), SectionNames(s2), CategoryLe);
  }

  // ---- detail pages ----

  /** What a detail page shows: nothing (no id), the fixed not-found message, or one record. */
  datatype Detail<T> = Skipped | NotFound(message: string) | Found(record: T)

  const ProblemNotFound: string := "Problem not found."
  const CourseNotFound: string := "Course not found."

  /**
   * The shared shape of loadProblemDetail and loadCourseDetail: return early on a missing or empty
   * id, otherwise show the first record whose id equals it, or the not-found message.
   */
  function LookupDetail<T>(records: seq<T>, idOf: T -> string, id: Option<string>, missing: string): (d: Detail<T>)
    ensures d.Skipped? <==> id.None? || id.value == ""
    ensures d.NotFound? ==> d.message == missing && forall j :: 0 <= j < |records| ==> idOf(records[j]) != id.value
    ensures d.Found? ==> exists i :: (0 <= i < |records| && records[i] == d.record && idOf(records[i]) == id.value
      && forall j :: 0 <= j < i ==> idOf(records[j]) != id.value)
  {
    if id.None? || id.value == "" then Skipped
    else
      match FindFirst(records, (r: T) => idOf(r) == id.value)
      case None => NotFound(missing)
      case Some(i) => Found(records[i])
  }

  datatype ProblemView = ProblemView(problem: Problem, badge: Badge)

  /** loadProblemDetail: the problem with the requested id and its badge. */
  function ProblemDetail(problems: seq<Problem>, id: Option<string>): (d: Detail<ProblemView>)
    ensures d.Skipped? <==> id.None? || id.value == ""
    ensures d.NotFound? ==> d.message == ProblemNotFound && forall p :: p in problems ==> p.id != id.value
    ensures d.Found? ==> d.record.problem in problems && d.record.problem.id == id.value
    ensures d.Found? ==> exists i :: (0 <= i < |problems| && problems[i] == d.record.problem
      && forall j :: 0 <= j < i ==> problems[j].id != id.value)
    ensures d.Found? ==> d.record.badge == DifficultyBadge(d.record.problem.rating)
  {
    match LookupDetail(problems, (p: Problem) => p.id, id, ProblemNotFound)
    case Skipped => Skipped
    case NotFound(message) => NotFound(message)
    case Found(p) => Found(ProblemView(p, DifficultyBadge(p.rating)))
  }

  /** loadCourseDetail: the course with the requested id. */
  function CourseDetail(courses: seq<Course>, id: Option<string>): (d: Detail<Course>)
    ensures d.Skipped? <==> id.None? || id.value == ""
    ensures d.NotFound? ==> d.message == CourseNotFound && forall c :: c in courses ==> c.id != id.value
    ensures d.Found? ==> d.record in courses && d.record.id == id.value
    ensures d.Found? ==> exists i :: (0 <= i < |courses| && courses[i] == d.record
      && forall j :: 0 <= j < i ==> courses[j].id != id.value)
  {
    LookupDetail(courses, (c: Course) => c.id, id, CourseNotFound)
  }
}
