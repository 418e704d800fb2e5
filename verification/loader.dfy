/**
 * Loading the catalog: the lines of the course file, blank ones skipped,
 * are each cut at commas into a course (number, name, then prerequisites)
 * and inserted into the index, until a line with fewer than two fields
 * stops the load.
 */
module Loader {
  import opened Courses
  import opened Split
  import opened CourseTree
  import opened CourseIndex

  /** xs without its empty strings, the others kept in order. */
  function NonEmpty(xs: seq<string>): seq<string>
    decreases |xs|
  {
    if xs == [] then []
    else
      var rest := NonEmpty(xs[..|xs| - 1]);
      if xs[|xs| - 1] == "" then rest else rest + [xs[|xs| - 1]]
  }

  /** Every non-empty string of xs is kept, as often as it occurs, and no empty one. */
  lemma {:induction false} NonEmptyContents(xs: seq<string>)
    ensures multiset(NonEmpty(xs)) == multiset(xs)["" := 0]
    decreases |xs|
  {
    if xs != [] {
      var init, last := xs[..|xs| - 1], xs[|xs| - 1];
      assert xs == init + [last];
      NonEmptyContents(init);
    }
  }

  /** Filtering keeps order: it works piece by piece. */
  lemma {:induction false} NonEmptyAppend(xs: seq<string>, ys: seq<string>)
    ensures NonEmpty(xs + ys) == NonEmpty(xs) + NonEmpty(ys)
    decreases |ys|
  {
    if ys == [] {
      assert xs + ys == xs;
    } else {
      var init, last := ys[..|ys| - 1], ys[|ys| - 1];
      NonEmptyAppend(xs, init);
      assert (xs + ys)[..|xs + ys| - 1] == xs + init;
    }
  }

  /** With no empty string in xs, nothing is dropped. */
  lemma {:induction false} NonEmptyKeepsAll(xs: seq<string>)
    requires forall i :: 0 <= i < |xs| ==> xs[i] != ""
    ensures NonEmpty(xs) == xs
    decreases |xs|
  {
    if xs != [] {
      NonEmptyKeepsAll(xs[..|xs| - 1]);
    }
  }

  /** Field 0 is the number, field 1 the name, the non-empty later fields the prerequisites. */
  function CourseOf(fields: seq<string>): Course
    requires |fields| >= 2
  {
    Course(fields[0], fields[1], NonEmpty(fields[2..]))
  }

  /** The course a line describes, or nothing when it has fewer than two fields. */
  function ParseLine(line: string): Option<Course>
  {
    var fields := Fields(line, ',');
    if |fields| < 2 then None else Some(CourseOf(fields))
  }

  /** A parsed course has no comma in any field and no empty prerequisite. */
  lemma ParsedCourseClean(line: string)
    requires ParseLine(line).Some?
    ensures var c := ParseLine(line).value;
      && ',' !in c.courseNumber && ',' !in c.courseName
      && forall i :: 0 <= i < |c.preReqs| ==> c.preReqs[i] != "" && ',' !in c.preReqs[i]
  {
    var fields := Fields(line, ',');
    FieldsAvoidDelimiter(line, ',');
    var ps := ParseLine(line).value.preReqs;
    NonEmptyContents(fields[2..]);
    forall i | 0 <= i < |ps|
      ensures ps[i] != "" && ',' !in ps[i]
    {
      assert ps[i] in multiset(ps);
      assert ps[i] in multiset(fields[2..]);
      var j :| 0 <= j < |fields[2..]| && fields[2..][j] == ps[i];
      assert fields[j + 2] == ps[i];
    }
  }

  /**
   * A course written as a line (fields joined by commas) reads back as the
   * same course, provided no field holds a comma, no prerequisite is empty,
   * and the line does not end in a comma (a name, or a prerequisite, closes it).
   */
  lemma ParseLineRoundTrip(c: Course)
    requires ',' !in c.courseNumber && ',' !in c.courseName
    requires forall i :: 0 <= i < |c.preReqs| ==> c.preReqs[i] != "" && ',' !in c.preReqs[i]
    requires c.courseName != "" || c.preReqs != []
    ensures ParseLine(Join([c.courseNumber, c.courseName] + c.preReqs, ",")) == Some(c)
  {
    var xs := [c.courseNumber, c.courseName] + c.preReqs;
    assert forall i :: 2 <= i < |xs| ==> xs[i] == c.preReqs[i - 2];
    assert "," == [','];
    FieldsOfJoin(xs, ',');
    assert xs[2..] == c.preReqs;
    NonEmptyKeepsAll(c.preReqs);
  }

  /**
   * A line of empty fields reads as a course equal to the empty course,
   * which is also what a search returns when it finds nothing.
   */
  lemma EmptyFieldsLine()
    ensures ParseLine(",,") == Some(EmptyCourse)
  {
    assert Pieces(",", ',') == ["", ""];
  }

  /** The courses a load inserts, and whether it stopped at a badly formatted line. */
  datatype Load = Load(courses: seq<Course>, formatError: bool)

  /** The allocation loop over the non-blank lines, line by line. */
  function Allocate(fileLines: seq<string>): Load
    decreases |fileLines|
  {
    if fileLines == [] then Load([], false)
    else
      var before := Allocate(fileLines[..|fileLines| - 1]);
      if before.formatError then before
      else match ParseLine(fileLines[|fileLines| - 1])
        case None => Load(before.courses, true)
        case Some(c) => Load(before.courses + [c], false)
  }

  /**
   * Loading inserts the courses of the leading well-formed lines, one per
   * line and in order, and stops at the first line with fewer than two
   * fields; the courses before it stay inserted.
   */
  lemma {:induction false} AllocateStopsAtFirstBadLine(fileLines: seq<string>)
    ensures var r := Allocate(fileLines);
      && |r.courses| <= |fileLines|
      && (forall i :: 0 <= i < |r.courses| ==> ParseLine(fileLines[i]) == Some(r.courses[i]))
      && (r.formatError <==> |r.courses| < |fileLines|)
      && (r.formatError ==> ParseLine(fileLines[|r.courses|]) == None)
    decreases |fileLines|
  {
    if fileLines != [] {
      var init := fileLines[..|fileLines| - 1];
      AllocateStopsAtFirstBadLine(init);
      assert forall i :: 0 <= i < |init| ==> fileLines[i] == init[i];
    }
  }

  /** Once a prefix of the lines stops the load, the later lines change nothing. */
  lemma {:induction false} AllocateStops(fileLines: seq<string>, n: nat)
    requires n <= |fileLines|
    requires Allocate(fileLines[..n]).formatError
    ensures Allocate(fileLines) == Allocate(fileLines[..n])
    decreases |fileLines| - n
  {
    if n < |fileLines| {
      var m := |fileLines| - 1;
      assert fileLines[..m][..n] == fileLines[..n];
      AllocateStops(fileLines[..m], n);
    } else {
      assert fileLines[..n] == fileLines;
    }
  }

  /**
   * The course-building loop: field 0 becomes the number, field 1 the name,
   * and each later field that is not empty is appended to the prerequisites.
   */
  method BuildCourse(brokenStrings: seq<string>) returns (course: Course)
    requires |brokenStrings| >= 2
    ensures course.courseNumber == brokenStrings[0]
    ensures course.courseName == brokenStrings[1]
    ensures course.preReqs == NonEmpty(brokenStrings[2..])
  {
    course := EmptyCourse;
    for j := 0 to |brokenStrings|
      invariant j >= 1 ==> course.courseNumber == brokenStrings[0]
      invariant j >= 2 ==> course.courseName == brokenStrings[1]
      invariant j <= 2 ==> course.preReqs == []
      invariant j >= 2 ==> course.preReqs == NonEmpty(brokenStrings[2..j])
    {
      if j == 0 {
        course := course.(courseNumber := brokenStrings[j]);
      } else if j == 1 {
        course := course.(courseName := brokenStrings[j]);
      } else {
        assert brokenStrings[2..j + 1][..j - 2] == brokenStrings[2..j];
        if brokenStrings[j] != "" {
          course := course.(preReqs := course.preReqs + [brokenStrings[j]]);
        }
      }
    }
    assert brokenStrings[2..|brokenStrings|] == brokenStrings[2..];
  }

  datatype LoadStatus = NoData | IncorrectFormat | Stored

  /**
   * Keeps the non-blank lines of the file, then hands them to the
   * allocation loop; a file without any reports that no data was found.
   */
  method LoadCourses(lines: seq<string>, bst: BinarySearchTree) returns (status: LoadStatus)
    requires bst.Valid()
    modifies bst.Repr
    ensures bst.Valid() && fresh(bst.Repr - old(bst.Repr))
    ensures bst.history == old(bst.history) + Allocate(NonEmpty(lines)).courses
    ensures status ==
      if NonEmpty(lines) == [] then NoData
      else if Allocate(NonEmpty(lines)).formatError then IncorrectFormat
      else Stored
  {
    var fileLines: seq<string> := [];
    for i := 0 to |lines|
      invariant fileLines == NonEmpty(lines[..i])
    {
      assert lines[..i + 1][..i] == lines[..i];
      if lines[i] != "" {
        fileLines := fileLines + [lines[i]];
      }
    }
    assert lines[..|lines|] == lines;
    if |fileLines| == 0 {
      return NoData;
    }
    var complete := AllocateCourses(fileLines, bst);
    status := if complete then Stored else IncorrectFormat;
  }

  /**
   * One pass of the allocation loop: cuts line at commas and, when it has at
   * least two fields, builds its course and inserts it.
   */
  method LoadLine(line: string, bst: BinarySearchTree) returns (ok: bool)
    requires bst.Valid()
    modifies bst.Repr
    ensures bst.Valid() && fresh(bst.Repr - old(bst.Repr))
    ensures ok == ParseLine(line).Some?
    ensures bst.history == old(bst.history) + (if ok then [ParseLine(line).value] else [])
  {
    var brokenStrings := SplitString(line, ',');
    if |brokenStrings| < 2 {
      return false;
    }
    var course := BuildCourse(brokenStrings);
    ghost var added := bst.Insert(course);
    return true;
  }

  /**
   * Inserts one course per line in order, returning early, with false, at
   * the first line with fewer than two fields.
   */
  method AllocateCourses(fileLines: seq<string>, bst: BinarySearchTree) returns (complete: bool)
    requires bst.Valid()
    modifies bst.Repr
    ensures bst.Valid() && fresh(bst.Repr - old(bst.Repr))
    ensures bst.history == old(bst.history) + Allocate(fileLines).courses
    ensures complete == !Allocate(fileLines).formatError
  {
    for i := 0 to |fileLines|
      invariant bst.Valid() && fresh(bst.Repr - old(bst.Repr))
      invariant !Allocate(fileLines[..i]).formatError
      invariant bst.history == old(bst.history) + Allocate(fileLines[..i]).courses
    {
      ghost var done := Allocate(fileLines[..i]).courses;
      assert Allocate(fileLines[..i + 1]) ==
        match ParseLine(fileLines[i])
        case None => Load(done, true)
        case Some(c) => Load(done + [c], false)
      by {
        assert fileLines[..i + 1][..i] == fileLines[..i];
      }
      var ok := LoadLine(fileLines[i], bst);
      if !ok {
        AllocateStops(fileLines, i + 1);
        return false;
      }
      assert bst.history == old(bst.history) + (done + [ParseLine(fileLines[i]).value]);
    }
    assert fileLines[..|fileLines|] == fileLines;
    return true;
  }
}
