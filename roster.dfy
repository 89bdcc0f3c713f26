/**
 * StudentGradeProcessor's static students map as a value, and what readNameFile, readCourseFile
 * and writeOutputFile do to it or print from it, as functions. Processor.GradeProcessor performs
 * the same steps in place and is proved to agree with these functions.
 */
module Roster {
  import opened Outcomes
  import opened JavaText
  import opened JavaNumbers
  import opened LexOrder
  import opened Grades

  /** One Student object: its id, its name and the courses added to it so far. */
  datatype StudentRecord = StudentRecord(id: string, name: string, courses: seq<Course>)

  /** The students map, from student id to student. */
  type Roster = map<string, StudentRecord>

  /** Text that survives a round trip through a comma-separated line: not empty, trimmed, no comma. */
  predicate CleanField(s: string) {
    s != [] && IsTrimmed(s) && ',' !in s
  }

  predicate WellFormedStudent(id: string, s: StudentRecord) {
    && s.id == id
    && CleanField(id)
    && CleanField(s.name)
    && forall c :: c in s.courses ==> ValidCourse(c) && CleanField(c.code)
  }

  /** What the readers keep true of the map: each student sits under its own id, and every text field is clean. */
  predicate WellFormed(roster: Roster) {
    forall id :: id in roster ==> WellFormedStudent(id, roster[id])
  }

  lemma ConcatAssociates<T>(a: seq<T>, b: seq<T>, c: seq<T>)
    ensures (a + b) + c == a + (b + c)
  {
  }

  // ---------------------------------------------------------------------------------------------
  // readNameFile

  /** What parsing one name-file line gave: its id and name, or the exception that stopped it. */
  type NameParse = Result<(string, string), Error>

  predicate NameClean(p: NameParse) {
    p.Success? ==> CleanField(p.value.0) && CleanField(p.value.1)
  }

  /**
   * One line of the name file: its comma split must give exactly two parts, both are trimmed,
   * and the Person constructor rejects an empty id or name.
   */
  function NameLine(line: string): (r: NameParse)
    ensures NameClean(r)
  {
    var parts := Split(line, ',');
    if |parts| != 2 then Failure(MalformedLine(NameFile, line))
    else
      var id := Trim(parts[0]);
      var name := Trim(parts[1]);
      match PersonCheck(id, name)
      case Some(e) => Failure(e)
      case None => Success((id, name))
  }

  /** NameLine, one check at a time, in the order readNameFile makes them. */
  lemma NameLineSteps(line: string)
    ensures var parts := Split(line, ',');
            && (|parts| != 2 ==> NameLine(line) == Failure(MalformedLine(NameFile, line)))
            && (|parts| == 2 && PersonCheck(Trim(parts[0]), Trim(parts[1])).Some? ==>
                  NameLine(line) == Failure(EmptyIdOrName))
            && (|parts| == 2 && PersonCheck(Trim(parts[0]), Trim(parts[1])).None? ==>
                  NameLine(line) == Success((Trim(parts[0]), Trim(parts[1]))))
  {
  }

  /** A line without a comma, the empty line among them, is rejected as malformed. */
  lemma LineWithoutCommaIsMalformed(line: string)
    requires ',' !in line
    ensures NameLine(line) == Failure(MalformedLine(NameFile, line))
  {
  }

  /** Split drops the empty piece after a trailing comma. */
  lemma SplitDropsTrailingComma(id: string)
    requires ',' !in id
    ensures |Split(id + ",", ',')| < 2
  {
    PiecesAround(id, [], ',');
    PiecesWithout(id, ',');
    assert id + [','] + [] == id + ",";
    assert (id + ",")[|id|] == ',';
    assert Pieces(id + ",", ',') == [id, []];
  }

  /** A trailing comma gives no empty second part, so "S1," is malformed too. */
  lemma TrailingCommaIsMalformed(id: string)
    requires ',' !in id
    ensures NameLine(id + ",") == Failure(MalformedLine(NameFile, id + ","))
  {
    SplitDropsTrailingComma(id);
  }

  /** The lines of a name file, each parsed on its own. */
  function ParseNameLines(lines: seq<string>): (ps: seq<NameParse>)
    ensures |ps| == |lines|
    ensures forall i :: 0 <= i < |ps| ==> NameClean(ps[i])
  {
    if lines == [] then [] else [NameLine(lines[0])] + ParseNameLines(lines[1..])
  }

  /** Each line is parsed on its own. */
  lemma {:induction false} ParseNameLinesAt(lines: seq<string>, i: nat)
    requires i < |lines|
    ensures ParseNameLines(lines)[i] == NameLine(lines[i])
  {
    if i > 0 {
      ParseNameLinesAt(lines[1..], i - 1);
      assert lines[1..][i - 1] == lines[i];
    }
  }

  /** The parsed line is accepted and defines a student with this id. */
  predicate DefinesId(p: NameParse, id: string) {
    p.Success? && p.value.0 == id
  }

  /** Putting a new Student with clean fields under its own id keeps the map well formed. */
  lemma PutKeeps(roster: Roster, id: string, name: string)
    ensures WellFormed(roster) && CleanField(id) && CleanField(name) ==> WellFormed(roster[id := StudentRecord(id, name, [])])
  {
  }

  lemma NameCleanTail(ps: seq<NameParse>)
    requires ps != []
    ensures (forall i :: 0 <= i < |ps| ==> NameClean(ps[i])) ==> forall i :: 0 <= i < |ps[1..]| ==> NameClean(ps[1..][i])
  {
    assert forall i :: 0 <= i < |ps| - 1 ==> ps[1..][i] == ps[i + 1];
  }

  datatype NamesRead = NamesRead(roster: Roster, error: Option<Error>)

  /**
   * readNameFile on lines parsed as ps, starting from the map as it is (the map is never
   * cleared): each accepted line puts a new Student with no courses under its id, replacing any
   * earlier one; the first rejected line stops the reading, and what the lines before it did
   * remains.
   */
  function ReadNamesParsed(roster: Roster, ps: seq<NameParse>): NamesRead
    decreases |ps|
  {
    if ps == [] then NamesRead(roster, None)
    else if ps[0].Failure? then NamesRead(roster, Some(ps[0].error))
    else ReadNamesParsed(roster[ps[0].value.0 := StudentRecord(ps[0].value.0, ps[0].value.1, [])], ps[1..])
  }

  /** Reading names never removes a student, and keeps a well-formed map well formed. */
  lemma {:induction false} ReadNamesKeeps(roster: Roster, ps: seq<NameParse>)
    ensures roster.Keys <= ReadNamesParsed(roster, ps).roster.Keys
    ensures WellFormed(roster) && (forall i :: 0 <= i < |ps| ==> NameClean(ps[i])) ==> WellFormed(ReadNamesParsed(roster, ps).roster)
    decreases |ps|
  {
    if ps != [] && ps[0].Success? {
      var id := ps[0].value.0;
      var name := ps[0].value.1;
      NameCleanTail(ps);
      PutKeeps(roster, id, name);
      ReadNamesKeeps(roster[id := StudentRecord(id, name, [])], ps[1..]);
    }
  }

  /** readNameFile on the given lines. */
  function ReadNames(roster: Roster, lines: seq<string>): NamesRead
  {
    ReadNamesParsed(roster, ParseNameLines(lines))
  }

  /** The map after an accepted line. */
  function Accept(roster: Roster, p: NameParse): Roster
    requires p.Success?
  {
    roster[p.value.0 := StudentRecord(p.value.0, p.value.1, [])]
  }

  /** Reading from line i on: line i's outcome, then the lines after it. */
  lemma ReadNamesAt(roster: Roster, ps: seq<NameParse>, i: nat)
    requires i < |ps|
    ensures ps[i].Failure? ==> ReadNamesParsed(roster, ps[i..]) == NamesRead(roster, Some(ps[i].error))
    ensures ps[i].Success? ==> ReadNamesParsed(roster, ps[i..]) == ReadNamesParsed(Accept(roster, ps[i]), ps[i + 1..])
  {
    SuffixHead(ps, i);
  }

  /** Ids that no line defines keep their students (or stay absent). */
  lemma {:induction false} ReadNamesUntouched(roster: Roster, ps: seq<NameParse>, k: string)
    requires forall j :: 0 <= j < |ps| ==> !DefinesId(ps[j], k)
    ensures k in ReadNamesParsed(roster, ps).roster <==> k in roster
    ensures k in roster ==> ReadNamesParsed(roster, ps).roster[k] == roster[k]
    decreases |ps|
  {
    if ps != [] && ps[0].Success? {
      assert !DefinesId(ps[0], k);
      assert forall j :: 0 <= j < |ps| - 1 ==> ps[1..][j] == ps[j + 1];
      ReadNamesUntouched(Accept(roster, ps[0]), ps[1..], k);
    }
  }

  /** Reading succeeds exactly when every line is accepted. */
  lemma {:induction false} ReadNamesSucceeds(roster: Roster, ps: seq<NameParse>)
    ensures ReadNamesParsed(roster, ps).error == None <==> forall j :: 0 <= j < |ps| ==> ps[j].Success?
    decreases |ps|
  {
    if ps != [] && ps[0].Success? {
      ReadNamesSucceeds(Accept(roster, ps[0]), ps[1..]);
      assert forall j :: 0 <= j < |ps| - 1 ==> ps[1..][j] == ps[j + 1];
      if forall j :: 0 <= j < |ps[1..]| ==> ps[1..][j].Success? {
        forall j | 0 <= j < |ps|
          ensures ps[j].Success?
        {
          if j > 0 {
            assert ps[j] == ps[1..][j - 1];
          }
        }
      }
    }
  }

  /**
   * After a successful read, the last line defining an id decides that student: the trimmed
   * name, and an empty course list whatever the student had before.
   */
  lemma {:induction false} ReadNamesLastWins(roster: Roster, ps: seq<NameParse>, i: nat)
    requires ReadNamesParsed(roster, ps).error == None
    requires i < |ps| && ps[i].Success?
    requires forall j :: i < j < |ps| ==> !DefinesId(ps[j], ps[i].value.0)
    ensures var after := ReadNamesParsed(roster, ps).roster;
            ps[i].value.0 in after && after[ps[i].value.0] == StudentRecord(ps[i].value.0, ps[i].value.1, [])
    decreases |ps|
  {
    ReadNamesSucceeds(roster, ps);
    assert ps[0].Success?;
    var next := Accept(roster, ps[0]);
    var tail := ps[1..];
    if i == 0 {
      forall j | 0 <= j < |tail|
        ensures !DefinesId(tail[j], ps[0].value.0)
      {
        assert tail[j] == ps[j + 1];
      }
      ReadNamesUntouched(next, tail, ps[0].value.0);
    } else {
      assert tail[i - 1] == ps[i];
      forall j | i - 1 < j < |tail|
        ensures !DefinesId(tail[j], ps[i].value.0)
      {
        assert tail[j] == ps[j + 1];
      }
      ReadNamesLastWins(next, tail, i - 1);
    }
  }

  /**
   * The first rejected line decides the error, and the map keeps what the lines before it put
   * there: there is no rollback.
   */
  lemma {:induction false} ReadNamesStopsAtFirstBadLine(roster: Roster, ps: seq<NameParse>, i: nat)
    requires i < |ps| && ps[i].Failure?
    requires forall j :: 0 <= j < i ==> ps[j].Success?
    ensures ReadNamesParsed(roster, ps) == NamesRead(ReadNamesParsed(roster, ps[..i]).roster, Some(ps[i].error))
    decreases i
  {
    if i > 0 {
      var tail := ps[1..];
      assert tail[i - 1] == ps[i];
      forall j | 0 <= j < i - 1
        ensures tail[j].Success?
      {
        assert tail[j] == ps[j + 1];
      }
      ReadNamesStopsAtFirstBadLine(Accept(roster, ps[0]), tail, i - 1);
      PrefixTail(ps, i);
    }
  }

  /** The first i lines without their first one are the first i - 1 lines after it. */
  lemma PrefixTail<T>(lines: seq<T>, i: nat)
    requires 0 < i <= |lines|
    ensures lines[..i][0] == lines[0] && lines[..i][1..] == lines[1..][..i - 1]
  {
  }

  // ---------------------------------------------------------------------------------------------
  // readCourseFile

  /** The values of one course-file line, read before the student is looked up. */
  datatype CourseFields = CourseFields(id: string, code: string, test1: real, test2: real, test3: real, finalExam: real)

  /** What parsing one line gave: its fields, or the exception that stopped it. */
  type ParsedLine = Result<CourseFields, Error>

  /** The id and the code of a parsed line are trimmed and hold no comma. */
  predicate ParsedClean(p: ParsedLine) {
    p.Success? ==> IsTrimmed(p.value.id) && ',' !in p.value.id && IsTrimmed(p.value.code) && ',' !in p.value.code
  }

  /** Double.parseDouble(part.trim()). */
  function ParseScore(part: string): Result<real, Error>
  {
    var text := Trim(part);
    match ParseDouble(text)
    case None => Failure(NumberFormat(text))
    case Some(v) => Success(v)
  }

  /**
   * One line of the course file up to the student lookup: its comma split must give exactly six
   * parts, the id and the code are trimmed, and the four scores are parsed in order.
   */
  function CourseLine(line: string): (r: ParsedLine)
    ensures ParsedClean(r)
  {
    var parts := Split(line, ',');
    if |parts| != 6 then Failure(MalformedLine(CourseFile, line))
    else
      var test1 :- ParseScore(parts[2]);
      var test2 :- ParseScore(parts[3]);
      var test3 :- ParseScore(parts[4]);
      var finalExam :- ParseScore(parts[5]);
      Success(CourseFields(Trim(parts[0]), Trim(parts[1]), test1, test2, test3, finalExam))
  }

  /** CourseLine, one check at a time, in the order readCourseFile makes them. */
  lemma CourseLineSteps(line: string)
    ensures var parts := Split(line, ',');
            && (|parts| != 6 ==> CourseLine(line) == Failure(MalformedLine(CourseFile, line)))
            && (|parts| == 6 ==> CourseLineScores(line, parts))
  {
  }

  /** The four scores of a six-part line are parsed in order, and the first that fails decides. */
  predicate CourseLineScores(line: string, parts: seq<string>)
    requires |parts| == 6
  {
    var t1, t2, t3, f := ParseScore(parts[2]), ParseScore(parts[3]), ParseScore(parts[4]), ParseScore(parts[5]);
    if t1.Failure? then CourseLine(line) == Failure(t1.error)
    else if t2.Failure? then CourseLine(line) == Failure(t2.error)
    else if t3.Failure? then CourseLine(line) == Failure(t3.error)
    else if f.Failure? then CourseLine(line) == Failure(f.error)
    else CourseLine(line) == Success(CourseFields(Trim(parts[0]), Trim(parts[1]), t1.value, t2.value, t3.value, f.value))
  }

  /**
   * The lines of a course file, each parsed on its own. Parsing reads nothing but the line, so
   * parsing a line before or after the lines ahead of it are applied gives the same result.
   */
  function ParseLines(lines: seq<string>): (ps: seq<ParsedLine>)
    ensures |ps| == |lines|
    ensures forall i :: 0 <= i < |ps| ==> ParsedClean(ps[i])
  {
    if lines == [] then [] else [CourseLine(lines[0])] + ParseLines(lines[1..])
  }

  /** Each line is parsed on its own. */
  lemma {:induction false} ParseLinesAt(lines: seq<string>, i: nat)
    requires i < |lines|
    ensures ParseLines(lines)[i] == CourseLine(lines[i])
  {
    if i > 0 {
      ParseLinesAt(lines[1..], i - 1);
      assert lines[1..][i - 1] == lines[i];
    }
  }

  /** The Course a parsed line asks the constructor for. */
  function CourseOf(f: CourseFields): Course {
    Course(f.code, f.test1, f.test2, f.test3, f.finalExam)
  }

  /** What one course-file line does. */
  datatype CourseStep = Failed(error: Error) | Skipped(id: string) | Added(id: string, course: Course)

  /**
   * One line of readCourseFile, given what parsing it gave. A malformed line fails whatever the
   * map holds; a line whose id is not in the map is skipped before any Course is built, so its
   * scores are never checked; otherwise the Course constructor decides between failing and adding.
   */
  function StepOf(roster: Roster, parsed: ParsedLine): (r: CourseStep)
    ensures parsed.Failure? ==> r == Failed(parsed.error)
    ensures r.Skipped? <==> parsed.Success? && parsed.value.id !in roster
    ensures r.Skipped? ==> r.id == parsed.value.id
    ensures r.Added? ==> r.id == parsed.value.id && r.id in roster
    ensures r.Added? ==> ValidCourse(r.course) && r.course == CourseOf(parsed.value)
    ensures parsed.Success? && parsed.value.id in roster ==>
              (r.Added? <==> ValidCourse(CourseOf(parsed.value)))
    ensures parsed.Success? && r.Failed? ==>
              r.error == (if parsed.value.code == [] then EmptyCourseCode else GradeOutOfRange)
  {
    if parsed.Failure? then Failed(parsed.error)
    else
      var f := parsed.value;
      if f.id !in roster then Skipped(f.id)
      else
        var built := NewCourse(f.code, f.test1, f.test2, f.test3, f.finalExam);
        if built.Failure? then Failed(built.error) else Added(f.id, built.value)
  }

  /** Student.addCourse on the student under id. */
  function AddCourse(roster: Roster, id: string, c: Course): (r: Roster)
    requires id in roster
    ensures r.Keys == roster.Keys
    ensures r[id].courses == roster[id].courses + [c]
    ensures forall k :: k in roster && k != id ==> r[k] == roster[k]
  {
    roster[id := roster[id].(courses := roster[id].courses + [c])]
  }

  /** Adding a valid course with a clean code keeps the map well formed and changes no id or name. */
  lemma AddCourseKeeps(roster: Roster, id: string, c: Course)
    requires id in roster
    ensures var next := AddCourse(roster, id, c);
            forall k :: k in roster ==>
              next[k].id == roster[k].id && next[k].name == roster[k].name && roster[k].courses <= next[k].courses
    ensures WellFormed(roster) && ValidCourse(c) && CleanField(c.code) ==> WellFormed(AddCourse(roster, id, c))
  {
    if WellFormed(roster) && ValidCourse(c) && CleanField(c.code) {
      AddCourseKeepsStudent(roster[id], c);
    }
  }

  /** A valid course with a clean code appended to a well-formed student keeps it well formed. */
  lemma AddCourseKeepsStudent(s: StudentRecord, c: Course)
    requires WellFormedStudent(s.id, s) && ValidCourse(c) && CleanField(c.code)
    ensures WellFormedStudent(s.id, s.(courses := s.courses + [c]))
  {
    assert forall d :: d in s.courses + [c] ==> d in s.courses || d == c;
  }

  /** The map after a step that does not fail. */
  function Apply(roster: Roster, step: CourseStep): Roster
    requires step.Added? ==> step.id in roster
  {
    if step.Added? then AddCourse(roster, step.id, step.course) else roster
  }

  datatype CoursesRead = CoursesRead(roster: Roster, skipped: seq<string>, error: Option<Error>)

  /** A read that first skipped the given ids. */
  function Prefixed(skipped: seq<string>, r: CoursesRead): CoursesRead {
    r.(skipped := skipped + r.skipped)
  }

  /**
   * readCourseFile on lines parsed as ps: the set of students, their ids and their names never
   * change, each student's earlier courses stay in front of the new ones, and skipped ids are
   * collected in line order (they are the warnings printed on the error stream).
   */
  function ReadParsed(roster: Roster, ps: seq<ParsedLine>): CoursesRead
    decreases |ps|
  {
    if ps == [] then CoursesRead(roster, [], None)
    else
      var step := StepOf(roster, ps[0]);
      if step.Failed? then CoursesRead(roster, [], Some(step.error))
      else if step.Skipped? then Prefixed([step.id], ReadParsed(roster, ps[1..]))
      else ReadParsed(AddCourse(roster, step.id, step.course), ps[1..])
  }

  /** Courses are only ever appended: the keys, ids and names stay, and every text stays clean. */
  lemma {:induction false} ReadParsedKeeps(roster: Roster, ps: seq<ParsedLine>)
    ensures var r := ReadParsed(roster, ps);
            && r.roster.Keys == roster.Keys
            && (forall id :: id in roster ==>
                  r.roster[id].id == roster[id].id && r.roster[id].name == roster[id].name && roster[id].courses <= r.roster[id].courses)
    ensures WellFormed(roster) && (forall i :: 0 <= i < |ps| ==> ParsedClean(ps[i])) ==> WellFormed(ReadParsed(roster, ps).roster)
    decreases |ps|
  {
    if ps != [] {
      var step := StepOf(roster, ps[0]);
      if !step.Failed? {
        CleanTail(ps);
        if step.Skipped? {
          ReadParsedKeeps(roster, ps[1..]);
        } else {
          var next := AddCourse(roster, step.id, step.course);
          AddCourseKeeps(roster, step.id, step.course);
          ReadParsedKeeps(next, ps[1..]);
          var r := ReadParsed(roster, ps);
          assert r == ReadParsed(next, ps[1..]);
          forall id | id in roster
            ensures roster[id].courses <= r.roster[id].courses
          {
            assert roster[id].courses <= next[id].courses;
          }
        }
      }
    }
  }

  lemma CleanTail(ps: seq<ParsedLine>)
    requires ps != []
    ensures (forall i :: 0 <= i < |ps| ==> ParsedClean(ps[i])) ==> forall i :: 0 <= i < |ps[1..]| ==> ParsedClean(ps[1..][i])
  {
    assert forall i :: 0 <= i < |ps| - 1 ==> ps[1..][i] == ps[i + 1];
  }

  /** readCourseFile on the given lines. */
  function ReadCourses(roster: Roster, lines: seq<string>): CoursesRead
  {
    ReadParsed(roster, ParseLines(lines))
  }

  /** readCourseFile keeps the students, their ids and names, and a well-formed map well formed. */
  lemma ReadCoursesKeeps(roster: Roster, lines: seq<string>)
    ensures var r := ReadCourses(roster, lines);
            && r.roster.Keys == roster.Keys
            && (forall id :: id in roster ==>
                  r.roster[id].id == roster[id].id && r.roster[id].name == roster[id].name && roster[id].courses <= r.roster[id].courses)
    ensures WellFormed(roster) ==> WellFormed(ReadCourses(roster, lines).roster)
  {
    ReadParsedKeeps(roster, ParseLines(lines));
  }

  /** Reading a first line that does not fail, then the rest, told by the step the line takes. */
  lemma ReadParsedNext(roster: Roster, ps: seq<ParsedLine>)
    requires ps != [] && !StepOf(roster, ps[0]).Failed?
    ensures var step := StepOf(roster, ps[0]);
            ReadParsed(roster, ps) == Prefixed(if step.Skipped? then [step.id] else [], ReadParsed(Apply(roster, step), ps[1..]))
  {
    var step := StepOf(roster, ps[0]);
    if step.Added? {
      var rest := ReadParsed(Apply(roster, step), ps[1..]);
      assert [] + rest.skipped == rest.skipped;
    }
  }

  /** Line i and the lines after it are the lines from i on. */
  lemma SuffixHead<T>(ps: seq<T>, i: nat)
    requires i < |ps|
    ensures ps[i..] != [] && ps[i..][0] == ps[i] && ps[i..][1..] == ps[i + 1..]
  {
  }

  /** Reading from line i on, when line i does not fail: its step, then the lines after it. */
  lemma ReadParsedAt(roster: Roster, ps: seq<ParsedLine>, i: nat)
    requires i < |ps| && !StepOf(roster, ps[i]).Failed?
    ensures var step := StepOf(roster, ps[i]);
            ReadParsed(roster, ps[i..]) ==
              Prefixed(if step.Skipped? then [step.id] else [], ReadParsed(Apply(roster, step), ps[i + 1..]))
  {
    SuffixHead(ps, i);
    ReadParsedNext(roster, ps[i..]);
  }

  /** Reading from line i on, when line i fails. */
  lemma ReadParsedFailsAt(roster: Roster, ps: seq<ParsedLine>, i: nat)
    requires i < |ps| && StepOf(roster, ps[i]).Failed?
    ensures ReadParsed(roster, ps[i..]) == CoursesRead(roster, [], Some(StepOf(roster, ps[i]).error))
  {
    SuffixHead(ps, i);
  }

  lemma PrefixedTwice(a: seq<string>, b: seq<string>, r: CoursesRead)
    ensures Prefixed(a, Prefixed(b, r)) == Prefixed(a + b, r)
  {
    ConcatAssociates(a, b, r.skipped);
  }

  /** A read that has reached line i, with skipped gathered so far, goes on past a line that does not fail. */
  lemma ReadParsedContinues(total: CoursesRead, skipped: seq<string>, roster: Roster, ps: seq<ParsedLine>, i: nat)
    requires i < |ps| && !StepOf(roster, ps[i]).Failed?
    requires total == Prefixed(skipped, ReadParsed(roster, ps[i..]))
    ensures var step := StepOf(roster, ps[i]);
            step.Skipped? ==> total == Prefixed(skipped + [step.id], ReadParsed(roster, ps[i + 1..]))
    ensures var step := StepOf(roster, ps[i]);
            step.Added? ==> total == Prefixed(skipped, ReadParsed(Apply(roster, step), ps[i + 1..]))
  {
    var step := StepOf(roster, ps[i]);
    ReadParsedAt(roster, ps, i);
    if step.Skipped? {
      PrefixedTwice(skipped, [step.id], ReadParsed(roster, ps[i + 1..]));
    } else {
      PrefixedTwice(skipped, [], ReadParsed(Apply(roster, step), ps[i + 1..]));
      assert skipped + [] == skipped;
    }
  }

  /** A read that has reached line i, with skipped gathered so far, ends at a line that fails. */
  lemma ReadParsedEndsAt(total: CoursesRead, skipped: seq<string>, roster: Roster, ps: seq<ParsedLine>, i: nat)
    requires i < |ps| && StepOf(roster, ps[i]).Failed?
    requires total == Prefixed(skipped, ReadParsed(roster, ps[i..]))
    ensures total == CoursesRead(roster, skipped, Some(StepOf(roster, ps[i]).error))
  {
    ReadParsedFailsAt(roster, ps, i);
    assert skipped + [] == skipped;
  }

  /** A read that has passed every line ends without an error. */
  lemma ReadParsedDone(total: CoursesRead, skipped: seq<string>, roster: Roster, ps: seq<ParsedLine>)
    requires total == Prefixed(skipped, ReadParsed(roster, ps[|ps|..]))
    ensures total == CoursesRead(roster, skipped, None)
  {
    assert ps[|ps|..] == [];
    assert skipped + [] == skipped;
  }

  /** The course a parsed line gives the student k: none, or the one the Course constructor builds. */
  function FieldsCourse(parsed: ParsedLine, k: string): (r: seq<Course>)
    ensures r == if parsed.Success? && parsed.value.id == k && ValidCourse(CourseOf(parsed.value))
                 then [CourseOf(parsed.value)] else []
  {
    if parsed.Failure? || parsed.value.id != k then []
    else
      var f := parsed.value;
      var built := NewCourse(f.code, f.test1, f.test2, f.test3, f.finalExam);
      if built.Failure? then [] else [built.value]
  }

  /** The courses the parsed lines give the student k, in line order. */
  function CoursesFor(ps: seq<ParsedLine>, k: string): seq<Course>
  {
    if ps == [] then [] else FieldsCourse(ps[0], k) + CoursesFor(ps[1..], k)
  }

  /** The id of a parsed line, when it names no student in keys. */
  function FieldsUnknownId(keys: set<string>, parsed: ParsedLine): seq<string>
  {
    if parsed.Success? && parsed.value.id !in keys then [parsed.value.id] else []
  }

  /** The ids of the parsed lines that name no student in keys, in line order. */
  function UnknownIds(keys: set<string>, ps: seq<ParsedLine>): seq<string>
  {
    if ps == [] then [] else FieldsUnknownId(keys, ps[0]) + UnknownIds(keys, ps[1..])
  }

  /** What a line that does not fail gives the student k. */
  lemma ApplyCourses(roster: Roster, parsed: ParsedLine, k: string)
    requires !StepOf(roster, parsed).Failed? && k in roster
    ensures Apply(roster, StepOf(roster, parsed)).Keys == roster.Keys
    ensures Apply(roster, StepOf(roster, parsed))[k].courses == roster[k].courses + FieldsCourse(parsed, k)
  {
  }

  /** What a line that does not fail adds to the skipped ids. */
  lemma StepSkips(roster: Roster, parsed: ParsedLine)
    requires !StepOf(roster, parsed).Failed?
    ensures var step := StepOf(roster, parsed);
            FieldsUnknownId(roster.Keys, parsed) == (if step.Skipped? then [step.id] else [])
  {
  }

  /** A successful read did not fail on its first line. */
  lemma FirstLineAccepted(roster: Roster, ps: seq<ParsedLine>)
    requires ps != [] && ReadParsed(roster, ps).error == None
    ensures !StepOf(roster, ps[0]).Failed?
  {
  }

  /** A line the reader accepts: it parsed, and a known student's course passes the Course checks. */
  predicate Accepted(keys: set<string>, parsed: ParsedLine) {
    parsed.Success? && (parsed.value.id in keys ==> ValidCourse(CourseOf(parsed.value)))
  }

  /**
   * readCourseFile ends without an exception exactly when every line parses and every line naming
   * a known student describes a valid course; courses of unknown students are never checked.
   */
  lemma {:induction false} ReadParsedSucceeds(roster: Roster, ps: seq<ParsedLine>)
    ensures ReadParsed(roster, ps).error == None <==> forall j :: 0 <= j < |ps| ==> Accepted(roster.Keys, ps[j])
    decreases |ps|
  {
    if ps != [] {
      var step := StepOf(roster, ps[0]);
      if step.Failed? {
        assert !Accepted(roster.Keys, ps[0]);
      } else {
        ReadParsedNext(roster, ps);
        var next := Apply(roster, step);
        assert next.Keys == roster.Keys;
        ReadParsedSucceeds(next, ps[1..]);
        assert Accepted(roster.Keys, ps[0]);
        assert forall j :: 1 <= j < |ps| ==> ps[j] == ps[1..][j - 1];
      }
    }
  }

  /** The exception a line the reader does not accept throws. */
  function Rejection(parsed: ParsedLine): Error {
    if parsed.Failure? then parsed.error
    else if parsed.value.code == [] then EmptyCourseCode
    else GradeOutOfRange
  }

  /**
   * The first line the reader does not accept decides the exception: its parse error, or the
   * Course constructor's error for a known student's invalid course.
   */
  lemma {:induction false} ReadParsedFirstError(roster: Roster, ps: seq<ParsedLine>, i: nat)
    requires i < |ps| && !Accepted(roster.Keys, ps[i])
    requires forall j :: 0 <= j < i ==> Accepted(roster.Keys, ps[j])
    ensures ReadParsed(roster, ps).error == Some(Rejection(ps[i]))
    decreases i
  {
    var step := StepOf(roster, ps[0]);
    if i == 0 {
      assert step.Failed?;
    } else {
      assert Accepted(roster.Keys, ps[0]);
      ReadParsedNext(roster, ps);
      var next := Apply(roster, step);
      assert next.Keys == roster.Keys;
      assert forall j :: 0 <= j < i - 1 ==> ps[1..][j] == ps[j + 1];
      ReadParsedFirstError(next, ps[1..], i - 1);
    }
  }

  /**
   * After a successful read each student has its earlier courses followed by the courses its
   * lines define, in line order.
   */
  lemma {:induction false} ReadParsedAppends(roster: Roster, ps: seq<ParsedLine>, k: string)
    requires ReadParsed(roster, ps).error == None
    requires k in roster
    ensures var after := ReadParsed(roster, ps).roster;
            k in after && after[k].courses == roster[k].courses + CoursesFor(ps, k)
    decreases |ps|
  {
    ReadParsedKeeps(roster, ps);
    if ps != [] {
      FirstLineAccepted(roster, ps);
      ReadParsedNext(roster, ps);
      ApplyCourses(roster, ps[0], k);
      var next := Apply(roster, StepOf(roster, ps[0]));
      ReadParsedAppends(next, ps[1..], k);
      ConcatAssociates(roster[k].courses, FieldsCourse(ps[0], k), CoursesFor(ps[1..], k));
    }
  }

  /** After a successful read the skipped ids are those of the lines naming no student, in line order. */
  lemma {:induction false} ReadParsedSkips(roster: Roster, ps: seq<ParsedLine>)
    requires ReadParsed(roster, ps).error == None
    ensures ReadParsed(roster, ps).skipped == UnknownIds(roster.Keys, ps)
    decreases |ps|
  {
    if ps != [] {
      FirstLineAccepted(roster, ps);
      ReadParsedNext(roster, ps);
      StepSkips(roster, ps[0]);
      var next := Apply(roster, StepOf(roster, ps[0]));
      assert next.Keys == roster.Keys;
      ReadParsedSkips(next, ps[1..]);
    }
  }

  /**
   * The first failing line decides the error; the courses added by the lines before it remain
   * (there is no rollback), and so do the ids skipped before it.
   */
  lemma {:induction false} ReadParsedStopsAtFirstFailure(roster: Roster, ps: seq<ParsedLine>, i: nat)
    requires i < |ps|
    requires ReadParsed(roster, ps[..i]).error == None
    requires StepOf(ReadParsed(roster, ps[..i]).roster, ps[i]).Failed?
    ensures var before := ReadParsed(roster, ps[..i]);
            ReadParsed(roster, ps) == CoursesRead(before.roster, before.skipped, Some(StepOf(before.roster, ps[i]).error))
    decreases i
  {
    if i == 0 {
      assert ps[..0] == [];
    } else {
      ReadParsedShift(roster, ps, i);
      var step := StepOf(roster, ps[0]);
      assert ps[1..][i - 1] == ps[i];
      ReadParsedStopsAtFirstFailure(Apply(roster, step), ps[1..], i - 1);
    }
  }

  /** Reading the first i lines, and reading them all, both start with the step of the first line. */
  lemma ReadParsedShift(roster: Roster, ps: seq<ParsedLine>, i: nat)
    requires 0 < i <= |ps| && ReadParsed(roster, ps[..i]).error == None
    ensures !StepOf(roster, ps[0]).Failed?
    ensures var step := StepOf(roster, ps[0]);
            var next := Apply(roster, step);
            var extra := if step.Skipped? then [step.id] else [];
            && ReadParsed(roster, ps[..i]) == Prefixed(extra, ReadParsed(next, ps[1..][..i - 1]))
            && ReadParsed(roster, ps) == Prefixed(extra, ReadParsed(next, ps[1..]))
  {
    PrefixTail(ps, i);
    FirstLineAccepted(roster, ps[..i]);
    ReadParsedNext(roster, ps[..i]);
    ReadParsedNext(roster, ps);
  }

  // ---------------------------------------------------------------------------------------------
  // writeOutputFile

  /** One printed report line, before formatting. */
  datatype ReportRow = ReportRow(id: string, name: string, code: string, grade: real)

  /** The rows printed for the given courses of student s, in list order. */
  function CourseRows(s: StudentRecord, courses: seq<Course>): (rows: seq<ReportRow>)
    ensures |rows| == |courses|
    ensures forall i :: 0 <= i < |rows| ==> rows[i] == ReportRow(s.id, s.name, courses[i].code, FinalGrade(courses[i]))
  {
    if courses == [] then []
    else
      var c := courses[|courses| - 1];
      CourseRows(s, courses[..|courses| - 1]) + [ReportRow(s.id, s.name, c.code, FinalGrade(c))]
  }

  /** The rows printed for the students under ids, visited in that order. */
  function RowsOf(roster: Roster, ids: seq<string>): seq<ReportRow>
    requires forall id :: id in ids ==> id in roster
  {
    if ids == [] then []
    else
      var s := roster[ids[|ids| - 1]];
      RowsOf(roster, ids[..|ids| - 1]) + CourseRows(s, s.courses)
  }

  /** The number of courses of the students under ids. */
  function TotalCourses(roster: Roster, ids: seq<string>): nat
    requires forall id :: id in ids ==> id in roster
  {
    if ids == [] then 0 else TotalCourses(roster, ids[..|ids| - 1]) + |roster[ids[|ids| - 1]].courses|
  }

  /** printf("%s<sep>%s<sep>%s<sep>%.1f", ...) for one row. */
  function FormatRow(row: ReportRow, sep: string): string {
    row.id + sep + row.name + sep + row.code + sep + FormatOneDecimal(row.grade)
  }

  function FormatLines(rows: seq<ReportRow>, sep: string): (lines: seq<string>)
    ensures |lines| == |rows|
    ensures forall i :: 0 <= i < |rows| ==> lines[i] == FormatRow(rows[i], sep)
  {
    if rows == [] then [] else FormatLines(rows[..|rows| - 1], sep) + [FormatRow(rows[|rows| - 1], sep)]
  }

  /** The rows of the first j + 1 courses: those of the first j, then course j's. */
  lemma CourseRowsNext(s: StudentRecord, courses: seq<Course>, j: nat)
    requires j < |courses|
    ensures CourseRows(s, courses[..j + 1]) ==
            CourseRows(s, courses[..j]) + [ReportRow(s.id, s.name, courses[j].code, FinalGrade(courses[j]))]
  {
    assert courses[..j + 1][..j] == courses[..j];
  }

  /** Formatting one more row adds one more line. */
  lemma FormatLinesNext(rows: seq<ReportRow>, row: ReportRow, sep: string)
    ensures FormatLines(rows + [row], sep) == FormatLines(rows, sep) + [FormatRow(row, sep)]
  {
    assert (rows + [row])[..|rows|] == rows;
  }

  /** The lines of the first j + 1 courses of s: those of the first j, then course j's. */
  lemma PrintNextCourse(s: StudentRecord, j: nat, sep: string)
    requires j < |s.courses|
    ensures FormatLines(CourseRows(s, s.courses[..j + 1]), sep) ==
            FormatLines(CourseRows(s, s.courses[..j]), sep) + [FormatRow(ReportRow(s.id, s.name, s.courses[j].code, FinalGrade(s.courses[j])), sep)]
  {
    CourseRowsNext(s, s.courses, j);
    FormatLinesNext(CourseRows(s, s.courses[..j]), ReportRow(s.id, s.name, s.courses[j].code, FinalGrade(s.courses[j])), sep);
  }

  lemma AllCourses(s: StudentRecord)
    ensures s.courses[..|s.courses|] == s.courses
  {
  }

  /** Formatting two runs of rows gives the lines of the first, then those of the second. */
  lemma {:induction false} FormatLinesAppend(a: seq<ReportRow>, b: seq<ReportRow>, sep: string)
    ensures FormatLines(a + b, sep) == FormatLines(a, sep) + FormatLines(b, sep)
    decreases |b|
  {
    if b == [] {
      assert a + b == a;
    } else {
      var front, last := b[..|b| - 1], b[|b| - 1];
      assert b == front + [last] && a + b == (a + front) + [last];
      FormatLinesAppend(a, front, sep);
      FormatLinesNext(a + front, last, sep);
      FormatLinesNext(front, last, sep);
      ConcatAssociates(FormatLines(a, sep), FormatLines(front, sep), [FormatRow(last, sep)]);
    }
  }

  /** The lines printed for student id after the header and the lines printed for the students of visited. */
  lemma PrintStudentAfter(head: string, roster: Roster, visited: seq<string>, id: string, sep: string)
    requires id in roster
    requires forall k :: k in visited ==> k in roster
    ensures forall k :: k in visited + [id] ==> k in roster
    ensures [head] + FormatLines(RowsOf(roster, visited), sep) + FormatLines(CourseRows(roster[id], roster[id].courses), sep) ==
            [head] + FormatLines(RowsOf(roster, visited + [id]), sep)
  {
    assert (visited + [id])[..|visited|] == visited;
    var done, more := FormatLines(RowsOf(roster, visited), sep), FormatLines(CourseRows(roster[id], roster[id].courses), sep);
    FormatLinesAppend(RowsOf(roster, visited), CourseRows(roster[id], roster[id].courses), sep);
    ConcatAssociates([head], done, more);
  }

  lemma TakeOneMore(ids: seq<string>, i: nat)
    requires i < |ids|
    ensures ids[..i] + [ids[i]] == ids[..i + 1]
  {
  }

  const Header := "Student ID" + ", " + "Student Name" + ", " + "Course Code" + ", " + "Final Grade"

  /** The rows writeOutputFile prints: students in ascending id order, each one's courses in list order. */
  ghost function ReportRows(roster: Roster): seq<ReportRow> {
    RowsOf(roster, SortedIds(roster.Keys))
  }

  /** The lines writeOutputFile prints: the header, then one ", "-separated line per row. */
  ghost function Report(roster: Roster): seq<string> {
    [Header] + FormatLines(ReportRows(roster), ", ")
  }

  /** A sequence of keys that lists every key of the set exactly once. */
  predicate IsEnumeration(ids: seq<string>, keys: set<string>) {
    && Distinct(ids)
    && (forall i :: 0 <= i < |ids| ==> ids[i] in keys)
    && (forall k :: k in keys ==> k in ids)
  }

  /** Visiting one more key of the set, not visited before, keeps the visit order an enumeration. */
  lemma EnumerationGrows(visited: seq<string>, keys: set<string>, remaining: set<string>, id: string)
    requires remaining <= keys && id in remaining
    requires IsEnumeration(visited, keys - remaining)
    ensures IsEnumeration(visited + [id], keys - (remaining - {id}))
  {
    var grown := visited + [id];
    forall i, j | 0 <= i < j < |grown|
      ensures grown[i] != grown[j]
    {
      if j < |visited| {
        assert grown[i] == visited[i] && grown[j] == visited[j];
      } else {
        assert grown[i] == visited[i] && visited[i] in keys - remaining;
      }
    }
  }

  /** Every student sits under its own id. */
  predicate IdsMatch(roster: Roster) {
    forall id :: id in roster ==> roster[id].id == id
  }

  /** The rows of students under ids carry the ids of those students. */
  lemma {:induction false} RowIdsAmong(roster: Roster, ids: seq<string>)
    requires forall id :: id in ids ==> id in roster
    requires IdsMatch(roster)
    ensures forall r :: r in RowsOf(roster, ids) ==> r.id in ids
  {
    if ids != [] {
      var prefix := ids[..|ids| - 1];
      RowIdsAmong(roster, prefix);
      forall r | r in RowsOf(roster, ids)
        ensures r.id in ids
      {
        if r in RowsOf(roster, prefix) {
          assert r.id in prefix;
        }
      }
    }
  }

  /** The rows are in ascending id order. */
  predicate IdsAscending(rows: seq<ReportRow>) {
    forall i, j :: 0 <= i < j < |rows| ==> LessEq(rows[i].id, rows[j].id)
  }

  /** Visiting the students in ascending id order prints the rows in ascending id order. */
  lemma {:induction false} RowsOfSorted(roster: Roster, ids: seq<string>)
    requires forall id :: id in ids ==> id in roster
    requires IdsMatch(roster)
    requires StrictlySorted(ids)
    ensures IdsAscending(RowsOf(roster, ids))
  {
    if ids != [] {
      var prefix := ids[..|ids| - 1];
      var last := ids[|ids| - 1];
      RowsOfSorted(roster, prefix);
      RowIdsAmong(roster, prefix);
      var front := RowsOf(roster, prefix);
      var back := CourseRows(roster[last], roster[last].courses);
      var rows := RowsOf(roster, ids);
      assert rows == front + back;
      forall i, j | 0 <= i < j < |rows|
        ensures LessEq(rows[i].id, rows[j].id)
      {
        if j >= |front| {
          assert rows[j] == back[j - |front|];
          assert rows[j].id == last;
          if i < |front| {
            assert rows[i] == front[i];
            assert rows[i] in front;
            var p :| 0 <= p < |prefix| && prefix[p] == rows[i].id;
            assert ids[p] == prefix[p];
            assert Less(ids[p], ids[|ids| - 1]);
            assert LessEq(rows[i].id, rows[j].id);
          } else {
            assert rows[i] == back[i - |front|];
            assert rows[i].id == last;
            assert LessEq(rows[i].id, rows[j].id);
          }
        } else {
          assert rows[i] == front[i] && rows[j] == front[j];
          assert LessEq(front[i].id, front[j].id);
        }
      }
    }
  }

  /** writeOutputFile prints its rows in ascending student id order. */
  lemma ReportSorted(roster: Roster)
    requires IdsMatch(roster)
    ensures IdsAscending(ReportRows(roster))
  {
    RowsOfSorted(roster, SortedIds(roster.Keys));
  }

  /** The rows whose id is k, in order. */
  function RowsWithId(rows: seq<ReportRow>, k: string): seq<ReportRow>
  {
    if rows == [] then []
    else RowsWithId(rows[..|rows| - 1], k) + (if rows[|rows| - 1].id == k then [rows[|rows| - 1]] else [])
  }

  lemma {:induction false} RowsWithIdAppend(a: seq<ReportRow>, b: seq<ReportRow>, k: string)
    ensures RowsWithId(a + b, k) == RowsWithId(a, k) + RowsWithId(b, k)
    decreases |b|
  {
    if b != [] {
      RowsWithIdAppend(a, b[..|b| - 1], k);
      assert (a + b)[..|a + b| - 1] == a + b[..|b| - 1];
      assert (a + b)[|a + b| - 1] == b[|b| - 1];
    } else {
      assert a + b == a;
    }
  }

  lemma {:induction false} RowsWithIdOfStudent(s: StudentRecord, courses: seq<Course>, k: string)
    ensures RowsWithId(CourseRows(s, courses), k) == if s.id == k then CourseRows(s, courses) else []
    decreases |courses|
  {
    if courses != [] {
      var rows := CourseRows(s, courses);
      RowsWithIdOfStudent(s, courses[..|courses| - 1], k);
      assert rows[..|rows| - 1] == CourseRows(s, courses[..|courses| - 1]);
    }
  }

  /**
   * Visiting each student once, the rows of student k are exactly k's courses in list order,
   * wherever k comes in the visiting order.
   */
  lemma {:induction false} RowsOfStudent(roster: Roster, ids: seq<string>, k: string)
    requires forall id :: id in ids ==> id in roster
    requires IdsMatch(roster)
    requires Distinct(ids)
    ensures RowsWithId(RowsOf(roster, ids), k) ==
            if k in ids then CourseRows(roster[k], roster[k].courses) else []
  {
    if ids != [] {
      var prefix := ids[..|ids| - 1];
      var last := ids[|ids| - 1];
      var front := RowsOf(roster, prefix);
      var back := CourseRows(roster[last], roster[last].courses);
      assert RowsOf(roster, ids) == front + back;
      DistinctWithoutLast(ids);
      RowsOfStudent(roster, prefix, k);
      RowsWithIdAppend(front, back, k);
      RowsWithIdOfStudent(roster[last], roster[last].courses, k);
    }
  }

  /** No key occurs twice. */
  predicate Distinct(ids: seq<string>) {
    forall i, j :: 0 <= i < j < |ids| ==> ids[i] != ids[j]
  }

  lemma DistinctWithoutLast(ids: seq<string>)
    requires ids != [] && Distinct(ids)
    ensures Distinct(ids[..|ids| - 1])
    ensures ids[|ids| - 1] !in ids[..|ids| - 1]
    ensures forall k :: k in ids <==> k in ids[..|ids| - 1] || k == ids[|ids| - 1]
  {
    var prefix := ids[..|ids| - 1];
    assert ids == prefix + [ids[|ids| - 1]];
    forall p | 0 <= p < |prefix|
      ensures prefix[p] != ids[|ids| - 1]
    {
      assert prefix[p] == ids[p];
    }
  }

  /** In writeOutputFile's output the rows of a student are its courses, in the order they were added. */
  lemma ReportRowsOfStudent(roster: Roster, k: string)
    requires IdsMatch(roster)
    ensures RowsWithId(ReportRows(roster), k) ==
            if k in roster then CourseRows(roster[k], roster[k].courses) else []
  {
    var ids := SortedIds(roster.Keys);
    SortedIdsEnumerate(roster.Keys);
    RowsOfStudent(roster, ids, k);
  }

  lemma {:induction false} RowsOfCount(roster: Roster, ids: seq<string>)
    requires forall id :: id in ids ==> id in roster
    ensures |RowsOf(roster, ids)| == TotalCourses(roster, ids)
  {
    if ids != [] {
      RowsOfCount(roster, ids[..|ids| - 1]);
    }
  }

  /** writeOutputFile prints the header and one line per course of every student. */
  lemma ReportLength(roster: Roster)
    ensures |Report(roster)| == 1 + TotalCourses(roster, SortedIds(roster.Keys))
  {
    RowsOfCount(roster, SortedIds(roster.Keys));
  }

  /** Every grade printed from a well-formed map is a whole number of tenths in [0, 100]. */
  lemma {:induction false} RowsOfGrades(roster: Roster, ids: seq<string>)
    requires forall id :: id in ids ==> id in roster
    requires WellFormed(roster)
    ensures forall r :: r in RowsOf(roster, ids) ==> InRange(r.grade) && IsTenth(r.grade)
  {
    if ids != [] {
      RowsOfGrades(roster, ids[..|ids| - 1]);
      var s := roster[ids[|ids| - 1]];
      assert forall i :: 0 <= i < |s.courses| ==> ValidCourse(s.courses[i]) by {
        assert forall i :: 0 <= i < |s.courses| ==> s.courses[i] in s.courses;
      }
    }
  }

  lemma {:induction false} TotalCoursesAppend(roster: Roster, a: seq<string>, b: seq<string>)
    requires forall id :: id in a + b ==> id in roster
    ensures TotalCourses(roster, a + b) == TotalCourses(roster, a) + TotalCourses(roster, b)
    decreases |b|
  {
    if b != [] {
      assert forall id :: id in a + b[..|b| - 1] ==> id in a + b;
      TotalCoursesAppend(roster, a, b[..|b| - 1]);
      assert (a + b)[..|a + b| - 1] == a + b[..|b| - 1];
      assert (a + b)[|a + b| - 1] == b[|b| - 1];
    } else {
      assert a + b == a;
    }
  }

  /** Removing one entry of an enumeration enumerates the other keys. */
  lemma RemoveFromEnumeration(ids: seq<string>, keys: set<string>, j: nat)
    requires IsEnumeration(ids, keys) && j < |ids|
    ensures IsEnumeration(ids[..j] + ids[j + 1..], keys - {ids[j]})
  {
    RemoveKeepsDistinct(ids, j);
    RemoveKeepsOthers(ids, keys, j);
  }

  lemma RemoveKeepsDistinct(ids: seq<string>, j: nat)
    requires Distinct(ids) && j < |ids|
    ensures Distinct(ids[..j] + ids[j + 1..])
  {
    var rest := ids[..j] + ids[j + 1..];
    RemoveAt(ids, j);
    forall p, q | 0 <= p < q < |rest|
      ensures rest[p] != rest[q]
    {
      var p', q' := if p < j then p else p + 1, if q < j then q else q + 1;
      assert rest[p] == ids[p'] && rest[q] == ids[q'] && p' < q';
    }
  }

  /** Without ids[j], the others list exactly the other keys. */
  lemma RemoveKeepsOthers(ids: seq<string>, keys: set<string>, j: nat)
    requires IsEnumeration(ids, keys) && j < |ids|
    ensures var rest := ids[..j] + ids[j + 1..];
            && (forall i :: 0 <= i < |rest| ==> rest[i] in keys - {ids[j]})
            && (forall k :: k in keys - {ids[j]} ==> k in rest)
  {
    var rest := ids[..j] + ids[j + 1..];
    RemoveAt(ids, j);
    forall i | 0 <= i < |rest|
      ensures rest[i] in keys - {ids[j]}
    {
      var i' := if i < j then i else i + 1;
      assert rest[i] == ids[i'] && i' != j;
    }
    forall k | k in keys - {ids[j]}
      ensures k in rest
    {
      var p :| 0 <= p < |ids| && ids[p] == k;
      assert rest[if p < j then p else p - 1] == k;
    }
  }

  /** The positions of a sequence with one element taken out. */
  lemma RemoveAt<T>(s: seq<T>, j: nat)
    requires j < |s|
    ensures var rest := s[..j] + s[j + 1..];
            |rest| == |s| - 1 && forall i :: 0 <= i < |rest| ==> rest[i] == (if i < j then s[i] else s[i + 1])
  {
  }

  /** Taking one student out of the visiting order takes its courses out of the count. */
  lemma TotalCoursesRemove(roster: Roster, ids: seq<string>, j: nat)
    requires forall id :: id in ids ==> id in roster
    requires j < |ids|
    ensures TotalCourses(roster, ids) == TotalCourses(roster, ids[..j] + ids[j + 1..]) + |roster[ids[j]].courses|
  {
    assert ids == ids[..j] + [ids[j]] + ids[j + 1..];
    TotalCoursesAppend(roster, ids[..j] + [ids[j]], ids[j + 1..]);
    TotalCoursesAppend(roster, ids[..j], [ids[j]]);
    TotalCoursesAppend(roster, ids[..j], ids[j + 1..]);
  }

  /** The number of courses does not depend on the order the students are visited in. */
  lemma {:induction false} TotalCoursesAnyOrder(roster: Roster, a: seq<string>, b: seq<string>, keys: set<string>)
    requires keys <= roster.Keys
    requires IsEnumeration(a, keys) && IsEnumeration(b, keys)
    ensures TotalCourses(roster, a) == TotalCourses(roster, b)
    decreases |a|
  {
    if a == [] {
      if b != [] {
        HeadIn(b);
      }
    } else {
      var x := a[0];
      assert x in b;
      var j :| 0 <= j < |b| && b[j] == x;
      var a', b' := a[..0] + a[1..], b[..j] + b[j + 1..];
      RemoveFromEnumeration(a, keys, 0);
      RemoveFromEnumeration(b, keys, j);
      TotalCoursesRemove(roster, a, 0);
      TotalCoursesRemove(roster, b, j);
      assert |a'| < |a|;
      TotalCoursesAnyOrder(roster, a', b', keys - {x});
    }
  }

  /** The ascending enumeration lists every key once. */
  lemma SortedIdsEnumerate(keys: set<string>)
    ensures IsEnumeration(SortedIds(keys), keys)
  {
    var ids := SortedIds(keys);
    forall i, j | 0 <= i < j < |ids|
      ensures ids[i] != ids[j]
    {
      LessIrreflexive(ids[i]);
    }
  }

  // ---------------------------------------------------------------------------------------------
  // writeOutputFile of the unsorted variant

  const PlainHeader := "Student ID" + "," + "Student Name" + "," + "Course Code" + "," + "Final Grade"

  /** The lines the unsorted writer prints when the map hands out its students in the order ids. */
  function UnorderedReport(roster: Roster, ids: seq<string>): seq<string>
    requires forall id :: id in ids ==> id in roster
  {
    [PlainHeader] + FormatLines(RowsOf(roster, ids), ",")
  }

  /**
   * Whatever order the map hands out its students in, the unsorted writer prints as many lines as
   * the sorted one, and the rows of each student are its courses in the order they were added.
   */
  lemma UnorderedReportFacts(roster: Roster, ids: seq<string>, k: string)
    requires IdsMatch(roster)
    requires IsEnumeration(ids, roster.Keys)
    ensures |UnorderedReport(roster, ids)| == |Report(roster)|
    ensures RowsWithId(RowsOf(roster, ids), k) == if k in roster then CourseRows(roster[k], roster[k].courses) else []
  {
    var sorted := SortedIds(roster.Keys);
    SortedIdsEnumerate(roster.Keys);
    RowsOfCount(roster, ids);
    RowsOfCount(roster, sorted);
    TotalCoursesAnyOrder(roster, ids, sorted, roster.Keys);
    RowsOfStudent(roster, ids, k);
  }
}
