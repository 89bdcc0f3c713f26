/**
 * The value classes of StudentGradeProcessor: the checks of the Person and Course constructors
 * and Course.computeFinalGrade. The Student class, whose course list changes in place, is in
 * module Processor.
 */
module Grades {
  import opened Outcomes
  import opened JavaNumbers

  /** The file a malformed line came from. */
  datatype InputFile = NameFile | CourseFile

  /** The exceptions the readers of StudentGradeProcessor let escape. */
  datatype Error =
    | MalformedLine(file: InputFile, line: string)  // "Malformed line in NameFile/CourseFile: ..."
    | NumberFormat(text: string)                     // Double.parseDouble rejected the text
    | EmptyIdOrName                                  // Person constructor
    | EmptyCourseCode                                // Course constructor
    | GradeOutOfRange                                // Course constructor

  /** The Person constructor: an id and a name, neither of them empty. */
  function PersonCheck(id: string, name: string): (r: Option<Error>)
    ensures r == None <==> id != [] && name != []
    ensures r != None ==> r == Some(EmptyIdOrName)
  {
    if id == [] || name == [] then Some(EmptyIdOrName) else None
  }

  /** One course of one student with its three test scores and its final exam score. */
  datatype Course = Course(code: string, test1: real, test2: real, test3: real, finalExam: real)

  predicate InRange(score: real) {
    0.0 <= score <= 100.0
  }

  /** What the Course constructor accepts. */
  predicate ValidCourse(c: Course) {
    c.code != [] && InRange(c.test1) && InRange(c.test2) && InRange(c.test3) && InRange(c.finalExam)
  }

  /**
   * The Course constructor: an empty code is rejected first, then any of the four scores
   * outside [0, 100]; otherwise the course holds exactly the given values.
   */
  function NewCourse(code: string, test1: real, test2: real, test3: real, finalExam: real): (r: Result<Course, Error>)
    ensures r.Success? <==> ValidCourse(Course(code, test1, test2, test3, finalExam))
    ensures r.Success? ==> r.value == Course(code, test1, test2, test3, finalExam)
    ensures r.Failure? ==> r.error == (if code == [] then EmptyCourseCode else GradeOutOfRange)
  {
    if code == [] then Failure(EmptyCourseCode)
    else if !(InRange(test1) && InRange(test2) && InRange(test3) && InRange(finalExam)) then Failure(GradeOutOfRange)
    else Success(Course(code, test1, test2, test3, finalExam))
  }

  /** Each test weighs 20 percent and the final exam 40 percent. */
  function WeightedScore(c: Course): real {
    (c.test1 + c.test2 + c.test3) * 0.2 + c.finalExam * 0.4
  }

  /**
   * roundToOneDecimal, Math.round(v * 10.0) / 10.0: the whole number of tenths nearest to v,
   * a value exactly halfway between two tenths going to the upper one.
   */
  function RoundToOneDecimal(v: real): (r: real)
    ensures IsTenth(r)
    ensures v - 0.05 < r <= v + 0.05
  {
    var n := Round(v * 10.0);
    assert (n as real / 10.0) * 10.0 == n as real;
    n as real / 10.0
  }

  /** A value that already is a whole number of tenths is not changed by rounding it again. */
  lemma RoundingKeepsTenths(v: real)
    requires IsTenth(v)
    ensures RoundToOneDecimal(v) == v
  {
    var n := (v * 10.0).Floor;
    RoundOfWhole(n);
    assert n as real / 10.0 == v;
  }

  /**
   * Course.computeFinalGrade: the weighted score rounded to one decimal. A valid course's grade
   * lies in [0, 100].
   */
  function FinalGrade(c: Course): (g: real)
    ensures IsTenth(g)
    ensures WeightedScore(c) - 0.05 < g <= WeightedScore(c) + 0.05
    ensures ValidCourse(c) ==> InRange(g)
  {
    var g := RoundToOneDecimal(WeightedScore(c));
    assert ValidCourse(c) ==> 0.0 <= WeightedScore(c) <= 100.0;
    var n := (g * 10.0).Floor;
    assert n as real == g * 10.0;
    g
  }
}
