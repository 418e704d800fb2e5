/**
 * The text shown for one course: its number and name, then, only when it
 * has prerequisites, a line listing them separated by ", ".
 */
module Display {
  import opened Courses
  import opened Split

  /** The prerequisites separated by ", ", with nothing after the last one. */
  function PrereqList(preReqs: seq<string>): string
  {
    Join(preReqs, ", ")
  }

  /** The prerequisite line, or nothing at all when there are no prerequisites. */
  function PrereqLine(c: Course): string
  {
    if c.preReqs == [] then ""
    else "Prerequisites for " + c.courseName + ": " + PrereqList(c.preReqs) + "\n"
  }

  /** The number-and-name line followed by the prerequisite line. */
  function CourseText(c: Course): string
  {
    c.courseNumber + ": " + c.courseName + "\n" + PrereqLine(c)
  }

  /** The prerequisite line is left out exactly when there are no prerequisites. */
  lemma PrereqLineOmitted(c: Course)
    ensures PrereqLine(c) == "" <==> c.preReqs == []
  {
  }

  /**
   * Cutting the listed prerequisites at each comma gives back every
   * prerequisite in order, the later ones after the space of their ", "
   * separator; the last piece is the last prerequisite and nothing more, so
   * no separator follows it. (Prerequisites never contain a comma, since the
   * loader cuts lines at commas.)
   */
  lemma PrereqListSplits(preReqs: seq<string>)
    requires preReqs != []
    requires forall i :: 0 <= i < |preReqs| ==> ',' !in preReqs[i]
    ensures Pieces(PrereqList(preReqs), ',') == [preReqs[0]] + PrefixEach(" ", preReqs[1..])
  {
    assert ", " == [','] + " ";
    PiecesOfJoin(preReqs, ',', " ");
  }

  /**
   * Builds the text the program prints for course: every prerequisite but the
   * last is followed by ", ", the last one by the end of the line.
   */
  method DisplayCourse(course: Course) returns (text: string)
    ensures text == CourseText(course)
    ensures course.preReqs == [] <==> text == course.courseNumber + ": " + course.courseName + "\n"
  {
    text := course.courseNumber + ": " + course.courseName + "\n";
    ghost var header := text;
    var preReqs := course.preReqs;
    if preReqs != [] {
      text := text + "Prerequisites for " + course.courseName + ": ";
      ghost var lead := text;
      for i := 0 to |preReqs|
        invariant i == 0 ==> text == lead
        invariant 0 < i < |preReqs| ==> text == lead + Join(preReqs[..i], ", ") + ", "
        invariant i == |preReqs| ==> text == lead + Join(preReqs, ", ") + "\n"
      {
        assert preReqs[..i + 1][..i] == preReqs[..i];
        if i != |preReqs| - 1 {
          text := text + preReqs[i] + ", ";
        } else {
          text := text + preReqs[i] + "\n";
        }
        assert i + 1 == |preReqs| ==> preReqs[..i + 1] == preReqs;
      }
      PrereqLineOmitted(course);
      assert |text| > |header|;
    }
  }
}
