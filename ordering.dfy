/**
 * The three sort comparators of the list pages: problems by title, course categories by a fixed
 * priority list, and courses by the number in their title, highest first.
 */
module Ordering {
  import opened Wrappers
  import opened Decimal
  import opened Strings
  import opened Seqs
  import opened Records
  import opened Sorting

  // ---- problems ----

  /** `(a, b) => a.title.localeCompare(b.title)`, read as "a may stay before b". */
  predicate TitleLe(a: Problem, b: Problem) {
    CompareStrings(a.title, b.title) <= 0
  }

  lemma TitleOrderIsTotal()
    ensures TotalPreorder(TitleLe)
  {
    forall a: Problem, b: Problem
      ensures TitleLe(a, b) || TitleLe(b, a)
    {
      CompareAntisymmetric(a.title, b.title);
    }
    forall a: Problem, b: Problem, c: Problem | TitleLe(a, b) && TitleLe(b, c)
      ensures TitleLe(a, c)
    {
      CompareTransitive(a.title, b.title, c.title);
    }
  }

  // ---- course numbers ----

  /** Four consecutive digits start at position i of s (a match of /\d{4}/). */
  predicate DigitRunAt(s: string, i: nat) {
    i + 4 <= |s| && AllDigits(s[i..i + 4])
  }

  /** The leftmost position at or after `from` where four digits start, if any. */
  function FirstDigitRun(s: string, from: nat): (r: Option<nat>)
    ensures r.Some? ==> from <= r.value && DigitRunAt(s, r.value)
    ensures r.Some? ==> forall j :: from <= j < r.value ==> !DigitRunAt(s, j)
    ensures r.None? ==> forall j :: from <= j ==> !DigitRunAt(s, j)
    decreases |s| - from
  {
    if from + 4 > |s| then None
    else if AllDigits(s[from..from + 4]) then Some(from)
    else FirstDigitRun(s, from + 1)
  }

  /** The getNumber helper: the value of the first four-digit run of the title, or 0 when there is none. */
  function CourseNumber(title: string): (n: nat)
    ensures n < 10000
    ensures (forall j: nat :: !DigitRunAt(title, j)) ==> n == 0
    ensures forall i: nat :: DigitRunAt(title, i) && (forall j: nat :: j < i ==> !DigitRunAt(title, j)) ==>
      n == ParseDigits(title[i..i + 4])
  {
    match FirstDigitRun(title, 0)
    case None => 0
    case Some(i) =>
      assert Pow10(4) == 10000;
      ParseDigits(title[i..i + 4])
  }

  /** `getNumber(b.title) - getNumber(a.title)`, read as "a may stay before b": higher numbers first. */
  predicate CourseLe(a: Course, b: Course) {
    CourseNumber(b.title) - CourseNumber(a.title) <= 0
  }

  lemma CourseOrderIsTotal()
    ensures TotalPreorder(CourseLe)
  {
  }

  /** A course whose title holds no four-digit run may come after every other course. */
  lemma UnnumberedLast(a: Course, b: Course)
    requires forall j: nat :: !DigitRunAt(b.title, j)
    ensures CourseLe(a, b)
  {
  }

  /** The value of a four-digit string, digit by digit. */
  lemma ParseFour(s: string)
    requires |s| == 4 && AllDigits(s)
    ensures ParseDigits(s) ==
      1000 * DigitValue(s[0]) + 100 * DigitValue(s[1]) + 10 * DigitValue(s[2]) + DigitValue(s[3])
  {
    assert ParseDigits(s[..1]) == DigitValue(s[0]) by {
      assert s[..1][..0] == [];
    }
    assert ParseDigits(s[..2]) == 10 * DigitValue(s[0]) + DigitValue(s[1]) by {
      assert s[..2][..1] == s[..1];
    }
    assert ParseDigits(s[..3]) == 100 * DigitValue(s[0]) + 10 * DigitValue(s[1]) + DigitValue(s[2]) by {
      assert s[..3][..2] == s[..2];
    }
    assert s[..4] == s;
  }

  /** A title of three characters, the last not a digit, then four digits: the number is those digits. */
  lemma CodeNumber(title: string)
    requires |title| == 7 && !IsDigit(title[2])
    requires IsDigit(title[3]) && IsDigit(title[4]) && IsDigit(title[5]) && IsDigit(title[6])
    ensures CourseNumber(title) ==
      1000 * DigitValue(title[3]) + 100 * DigitValue(title[4]) + 10 * DigitValue(title[5]) + DigitValue(title[6])
  {
    var digits := title[3..7];
    assert digits[0] == title[3] && digits[1] == title[4] && digits[2] == title[5] && digits[3] == title[6];
    assert AllDigits(digits);
    assert title[0..4][2] == title[1..5][1] == title[2..6][0] == title[2];
    assert FirstDigitRun(title, 3) == Some(3);
    assert FirstDigitRun(title, 0) == FirstDigitRun(title, 1) == FirstDigitRun(title, 2) == Some(3);
    ParseFour(digits);
  }

  /** The numbers of the two titles of the course example. */
  lemma CourseNumberExamples()
    ensures CourseNumber("CS 2110") == 2110
    ensures CourseNumber("CS 4780") == 4780
  {
    CodeNumber("CS 2110");
    CodeNumber("CS 4780");
  }

  /** In the example, CS 4780 sorts before CS 2110 and not the other way round. */
  lemma CourseExampleOrder()
    ensures CourseLe(Course("b", "CS 4780", None), Course("a", "CS 2110", None))
    ensures !CourseLe(Course("a", "CS 2110", None), Course("b", "CS 4780", None))
  {
    CourseNumberExamples();
  }

  /** An unnumbered title of the example. */
  lemma UnnumberedExample()
    ensures CourseNumber("Linear Algebra") == 0
  {
    NoDigitsNoNumber("Linear Algebra");
  }

  /** A title without a digit has number 0. */
  lemma NoDigitsNoNumber(title: string)
    requires forall k :: 0 <= k < |title| ==> !IsDigit(title[k])
    ensures CourseNumber(title) == 0
  {
    forall j: nat | j + 4 <= |title|
      ensures !DigitRunAt(title, j)
    {
      assert title[j..j + 4][0] == title[j];
    }
  }

  // ---- course categories ----

  /** The fixed order of the known course categories. */
  const CategoryPriority: seq<string> := [
    "Theoretical Computer Science",
    "Artificial Intelligence",
    "Upper-Level Mathematics",
    "Systems",
    "Mathematical Foundations",
    "Software Engineering",
    "Humanities"
  ]

  /**
   * The comparator of the category names, for a priority list `priority`: listed names by their
   * index, a listed name before an unlisted one, unlisted names by string comparison.
   */
  function ComparePriority(priority: seq<string>, a: string, b: string): int {
    var indexA := IndexOf(priority, a);
    var indexB := IndexOf(priority, b);
    if indexA != -1 && indexB != -1 then indexA - indexB
    else if indexA != -1 then -1
    else if indexB != -1 then 1
    else CompareStrings(a, b)
  }

  /** The comparator loadCourses sorts its category names with. */
  predicate CategoryLe(a: string, b: string) {
    ComparePriority(CategoryPriority, a, b) <= 0
  }

  /** How two names are ordered, case by case. */
  lemma PriorityOrderRules(priority: seq<string>, a: string, b: string)
    ensures a in priority && b in priority ==>
      (ComparePriority(priority, a, b) <= 0 <==> IndexOf(priority, a) <= IndexOf(priority, b))
    ensures a in priority && b !in priority ==>
      ComparePriority(priority, a, b) < 0 && ComparePriority(priority, b, a) > 0
    ensures a !in priority && b !in priority ==>
      ComparePriority(priority, a, b) == CompareStrings(a, b)
  {
  }

  lemma PriorityTotal(priority: seq<string>, a: string, b: string)
    ensures ComparePriority(priority, a, b) <= 0 || ComparePriority(priority, b, a) <= 0
  {
    CompareAntisymmetric(a, b);
  }

  lemma PriorityTransitive(priority: seq<string>, a: string, b: string, c: string)
    requires ComparePriority(priority, a, b) <= 0 && ComparePriority(priority, b, c) <= 0
    ensures ComparePriority(priority, a, c) <= 0
  {
    if a !in priority && b !in priority && c !in priority {
      CompareTransitive(a, b, c);
    }
  }

  lemma PriorityAntisymmetric(priority: seq<string>, a: string, b: string)
    requires ComparePriority(priority, a, b) <= 0 && ComparePriority(priority, b, a) <= 0
    ensures a == b
  {
    CompareAntisymmetric(a, b);
  }

  /** The category comparator is a total order: sorting the names leaves no choice. */
  lemma CategoryOrderIsTotal()
    ensures TotalPreorder(CategoryLe) && Antisymmetric(CategoryLe)
  {
    forall a, b
      ensures CategoryLe(a, b) || CategoryLe(b, a)
    {
      PriorityTotal(CategoryPriority, a, b);
    }
    forall a, b, c | CategoryLe(a, b) && CategoryLe(b, c)
      ensures CategoryLe(a, c)
    {
      PriorityTransitive(CategoryPriority, a, b, c);
    }
    forall a, b | CategoryLe(a, b) && CategoryLe(b, a)
      ensures a == b
    {
      PriorityAntisymmetric(CategoryPriority, a, b);
    }
  }

  lemma ExampleIndices()
    ensures IndexOf(CategoryPriority, "Theoretical Computer Science") == 0
    ensures IndexOf(CategoryPriority, "Systems") == 3
    ensures IndexOf(CategoryPriority, "Humanities") == 6
    ensures IndexOf(CategoryPriority, "UnknownX") == -1
  {
    var p := CategoryPriority;
    assert p[0] == "Theoretical Computer Science" && p[3] == "Systems" && p[6] == "Humanities";
    assert "Systems" !in p[..3];
    assert "Humanities" !in p[..6];
    assert "UnknownX" !in p;
  }

  /** Four values in order, pair by pair, make a sorted sequence. */
  lemma SortedFour<T>(le: (T, T) -> bool, a: T, b: T, c: T, d: T)
    requires le(a, b) && le(a, c) && le(a, d) && le(b, c) && le(b, d) && le(c, d)
    ensures Sorted([a, b, c, d], le)
  {
  }

  lemma ExampleSorted()
    ensures Sorted(["Theoretical Computer Science", "Systems", "Humanities", "UnknownX"], CategoryLe)
  {
    ExampleIndices();
    var a, b, c, d := "Theoretical Computer Science", "Systems", "Humanities", "UnknownX";
    assert CategoryLe(a, b) && CategoryLe(a, c) && CategoryLe(a, d);
    assert CategoryLe(b, c) && CategoryLe(b, d) && CategoryLe(c, d);
    SortedFour(CategoryLe, a, b, c, d);
  }

  /**
   * A worked example: whatever order the categories are discovered in, the sorted names are the
   * listed ones by index and then the unlisted one.
   */
  lemma CategoryExample()
    ensures var found := ["Humanities", "Systems", "UnknownX", "Theoretical Computer Science"];
      var sorted := ["Theoretical Computer Science", "Systems", "Humanities", "UnknownX"];
      forall r :: Sorted(r, CategoryLe) && multiset(r) == multiset(found) ==> r == sorted
  {
    var a, b, c, d := "Theoretical Computer Science", "Systems", "Humanities", "UnknownX";
    ExampleSorted();
    SameFour(a, b, c, d);
    CategoryOrderIsTotal();
    forall r | Sorted(r, CategoryLe) && multiset(r) == multiset([c, b, d, a])
      ensures r == [a, b, c, d]
    {
      SortedUnique(r, [a, b, c, d], CategoryLe);
    }
  }

  /** The order in which the example's categories are discovered holds the same names. */
  lemma SameFour<T>(a: T, b: T, c: T, d: T)
    ensures multiset([c, b, d, a]) == multiset([a, b, c, d])
  {
  }
}
