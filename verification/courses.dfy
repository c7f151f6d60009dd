/**
 * The course index's client-side filter (`src/app/courses/CoursesIndexClient.tsx`):
 * a category menu built from the courses and a single-category selection.
 */
module Courses {
  import opened Seqs
  import opened Catalogue

  /** The fields of a course the index uses. */
  datatype Course = Course(title: string, slug: string, category: string)

  /** The category of a course, the key the menu is built from. */
  function CourseCategory(c: Course): string { c.category }

  /**
   * `categories`: `'All'` and then each course's category, and every entry after
   * `'All'` selects at least one course.
   */
  function Categories(courses: seq<Course>): (r: seq<string>)
    ensures |r| >= 1 && r[0] == All
    ensures forall i :: 0 <= i < |courses| ==> courses[i].category in r[1..]
    ensures forall j :: 1 <= j < |r| ==> |FilteredCourses(courses, r[j])| > 0
    ensures Distinct(r[1..])
  {
    var r := Menu(courses, CourseCategory);
    assert forall j :: 1 <= j < |r| ==> |FilteredCourses(courses, r[j])| > 0 by {
      forall j | 1 <= j < |r| ensures |FilteredCourses(courses, r[j])| > 0 {
        var i :| 0 <= i < |courses| && CourseCategory(courses[i]) == r[j];
        assert courses[i] in FilteredCourses(courses, r[j]);
      }
    }
    r
  }

  /** `c.category === selectedCategory`. */
  function InCategory(category: string): Course -> bool {
    (c: Course) => c.category == category
  }

  /** `filteredCourses`: every course for `'All'`, otherwise exactly those of the chosen category, in order. */
  function FilteredCourses(courses: seq<Course>, selected: string): (r: seq<Course>)
    ensures selected == All ==> r == courses
    ensures IsSubseq(r, courses)
    ensures selected != All ==> forall i :: 0 <= i < |r| ==> r[i] in courses && r[i].category == selected
    ensures forall i :: 0 <= i < |courses| && courses[i].category == selected ==> courses[i] in r
    ensures forall c :: multiset(r)[c] == if selected == All || c.category == selected then multiset(courses)[c] else 0
  {
    if selected == All then
      FilterKeepsAll((c: Course) => true, courses);
      FilterIsSubseq((c: Course) => true, courses);
      courses
    else
      FilterIsSubseq(InCategory(selected), courses);
      FilterCounts(InCategory(selected), courses);
      Filter(InCategory(selected), courses)
  }
}
