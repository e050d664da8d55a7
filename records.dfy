/** The fields of the JSON records that the list and detail pages compute with. */
module Records {
  import opened Wrappers

  /** An element of data/problems.json. */
  datatype Problem = Problem(id: string, title: string, category: Option<string>, rating: Option<int>)

  /** An element of data/courses.json. */
  datatype Course = Course(id: string, title: string, category: Option<string>)

  const DefaultProblemCategory: string := "Competitive Programming"
  const DefaultCourseCategory: string := "Uncategorized"

  /** A category field counts only when it is present and not the empty string (JavaScript truthiness). */
  predicate HasCategory(category: Option<string>) {
    category.Some? && category.value != ""
  }

  /** The group a problem goes to: `problem.category || "Competitive Programming"`. */
  function ProblemCategory(p: Problem): (k: string)
    ensures k != ""
    ensures HasCategory(p.category) ==> k == p.category.value
    ensures !HasCategory(p.category) ==> k == DefaultProblemCategory
  {
    if HasCategory(p.category) then p.category.value else DefaultProblemCategory
  }

  /** The group a course goes to: `course.category || "Uncategorized"`. */
  function CourseCategory(c: Course): (k: string)
    ensures k != ""
    ensures HasCategory(c.category) ==> k == c.category.value
    ensures !HasCategory(c.category) ==> k == DefaultCourseCategory
  {
    if HasCategory(c.category) then c.category.value else DefaultCourseCategory
  }
}
