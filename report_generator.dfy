/**
 * The second design of the grade pipeline (Main.java): a generic line parser with a name-file and
 * a course-file variant, a processor that joins courses to student names, rounds the weighted
 * grade and sorts the records by student id, and a writer of space-separated report lines.
 */
module ReportGenerator {
  import opened Outcomes
  import opened JavaText
  import opened JavaNumbers
  import opened LexOrder
  import Grades

  /** A line of the name file: an id and a name. */
  datatype Student = Student(studentId: string, studentName: string)

  /** A line of the course file: an id, a course code and four scores, none of them checked. */
  datatype Course = Course(studentId: string, courseCode: string, test1: real, test2: real, test3: real, finalExam: real)

  /** One report line's worth: a student's id and name, a course code and the stored grade. */
  datatype StudentCourseRecord = StudentCourseRecord(studentId: string, studentName: string, courseCode: string, finalGrade: real)

  /** The exceptions parsing lets escape. */
  datatype ParseError =
    | InvalidLineFormat(tokens: seq<string>)  // IllegalArgumentException "Invalid line format: ..."
    | NumberFormat(text: string)              // Double.parseDouble rejected the text

  // ---------------------------------------------------------------------------------------------
  // StudentCourseRecord

  /**
   * The StudentCourseRecord constructor: the grade is stored rounded to tenths, halves going up,
   * and the getters hand back what was stored.
   */
  function NewRecord(studentId: string, studentName: string, courseCode: string, grade: real): (r: StudentCourseRecord)
    ensures r.studentId == studentId && r.studentName == studentName && r.courseCode == courseCode
    ensures IsTenth(r.finalGrade)
    ensures grade - 0.05 < r.finalGrade <= grade + 0.05
  {
    StudentCourseRecord(studentId, studentName, courseCode, Grades.RoundToOneDecimal(grade))
  }

  /** Building a record again from a record's own fields gives the same record. */
  lemma NewRecordOfRecord(r: StudentCourseRecord)
    requires IsTenth(r.finalGrade)
    ensures NewRecord(r.studentId, r.studentName, r.courseCode, r.finalGrade) == r
  {
    Grades.RoundingKeepsTenths(r.finalGrade);
  }

  // ---------------------------------------------------------------------------------------------
  // AbstractTextParser

  /** The tokens of a line: the line trimmed, then split on single spaces. */
  function Tokens(line: string): (tokens: seq<string>)
    ensures forall i :: 0 <= i < |tokens| ==> ' ' !in tokens[i]
  {
    Split(Trim(line), ' ')
  }

  /**
   * One line of AbstractTextParser.parse: the tokens must pass isValid, or the line is rejected
   * with them; otherwise toModel builds the model (and may itself throw).
   */
  function ParseLine<T>(line: string, isValid: seq<string> -> bool, toModel: seq<string> --> Result<T, ParseError>): Result<T, ParseError>
    requires forall tokens :: isValid(tokens) ==> toModel.requires(tokens)
  {
    var tokens := Tokens(line);
    if !isValid(tokens) then Failure(InvalidLineFormat(tokens)) else toModel(tokens)
  }

  /** The outcome of each line, in file order. */
  function LineOutcomes<T>(lines: seq<string>, isValid: seq<string> -> bool, toModel: seq<string> --> Result<T, ParseError>): seq<Result<T, ParseError>>
    requires forall tokens :: isValid(tokens) ==> toModel.requires(tokens)
  {
    seq(|lines|, i requires 0 <= i < |lines| => ParseLine(lines[i], isValid, toModel))
  }

  /** The values of the outcomes in order, or the error of the first failure among them. */
  function Collect<T, E>(outcomes: seq<Result<T, E>>): Result<seq<T>, E> {
    if outcomes == [] then Success([])
    else
      var front := Collect(outcomes[..|outcomes| - 1]);
      var last := outcomes[|outcomes| - 1];
      if front.Failure? then front
      else if last.Failure? then Failure(last.error)
      else Success(front.value + [last.value])
  }

  /** Collecting succeeds exactly when every outcome does, and then holds every value in order. */
  lemma {:induction false} CollectSucceeds<T, E>(outcomes: seq<Result<T, E>>)
    ensures Collect(outcomes).Success? <==> forall i :: 0 <= i < |outcomes| ==> outcomes[i].Success?
    ensures Collect(outcomes).Success? ==>
            |Collect(outcomes).value| == |outcomes| &&
            forall i :: 0 <= i < |outcomes| ==> Collect(outcomes).value[i] == outcomes[i].value
  {
    if outcomes != [] {
      var front := outcomes[..|outcomes| - 1];
      CollectSucceeds(front);
      assert forall i :: 0 <= i < |front| ==> front[i] == outcomes[i];
    }
  }

  /** The first failure decides the error, whatever follows it. */
  lemma {:induction false} CollectFirstError<T, E>(outcomes: seq<Result<T, E>>, k: nat)
    requires k < |outcomes| && outcomes[k].Failure?
    requires forall i :: 0 <= i < k ==> outcomes[i].Success?
    ensures Collect(outcomes) == Failure(outcomes[k].error)
  {
    var front := outcomes[..|outcomes| - 1];
    assert forall i :: 0 <= i < |front| ==> front[i] == outcomes[i];
    if k < |outcomes| - 1 {
      CollectFirstError(front, k);
    } else {
      CollectSucceeds(front);
    }
  }

  /** Once the outcomes up to j have failed, the ones after j do not change the result. */
  lemma {:induction false} CollectFailurePersists<T, E>(outcomes: seq<Result<T, E>>, j: nat)
    requires j <= |outcomes| && Collect(outcomes[..j]).Failure?
    ensures Collect(outcomes) == Collect(outcomes[..j])
    decreases |outcomes| - j
  {
    if j < |outcomes| {
      assert outcomes[..j + 1][..j] == outcomes[..j];
      CollectFailurePersists(outcomes, j + 1);
    } else {
      assert outcomes[..j] == outcomes;
    }
  }

  /**
   * AbstractTextParser.parse over the lines of a file: the models of the lines in file order,
   * or the error of the first line that fails.
   */
  function ParseAll<T>(lines: seq<string>, isValid: seq<string> -> bool, toModel: seq<string> --> Result<T, ParseError>): Result<seq<T>, ParseError>
    requires forall tokens :: isValid(tokens) ==> toModel.requires(tokens)
  {
    Collect(LineOutcomes(lines, isValid, toModel))
  }

  /**
   * Parsing succeeds exactly when every line does, and then gives one model per line, the
   * model of that line.
   */
  lemma ParseAllSucceeds<T>(lines: seq<string>, isValid: seq<string> -> bool, toModel: seq<string> --> Result<T, ParseError>)
    requires forall tokens :: isValid(tokens) ==> toModel.requires(tokens)
    ensures ParseAll(lines, isValid, toModel).Success? <==>
            forall i :: 0 <= i < |lines| ==> ParseLine(lines[i], isValid, toModel).Success?
    ensures ParseAll(lines, isValid, toModel).Success? ==>
            |ParseAll(lines, isValid, toModel).value| == |lines| &&
            forall i :: 0 <= i < |lines| ==> ParseAll(lines, isValid, toModel).value[i] == ParseLine(lines[i], isValid, toModel).value
  {
    var outcomes := LineOutcomes(lines, isValid, toModel);
    CollectSucceeds(outcomes);
    assert forall i :: 0 <= i < |lines| ==> outcomes[i] == ParseLine(lines[i], isValid, toModel);
  }

  /** The first line that fails decides the error, whatever the lines after it hold. */
  lemma ParseAllFirstError<T>(lines: seq<string>, k: nat, isValid: seq<string> -> bool, toModel: seq<string> --> Result<T, ParseError>)
    requires forall tokens :: isValid(tokens) ==> toModel.requires(tokens)
    requires k < |lines| && ParseLine(lines[k], isValid, toModel).Failure?
    requires forall i :: 0 <= i < k ==> ParseLine(lines[i], isValid, toModel).Success?
    ensures ParseAll(lines, isValid, toModel) == Failure(ParseLine(lines[k], isValid, toModel).error)
  {
    CollectFirstError(LineOutcomes(lines, isValid, toModel), k);
  }

  lemma PrefixStep<X>(s: seq<X>, i: nat)
    requires i < |s|
    ensures s[..i + 1][..i] == s[..i] && s[..i + 1][i] == s[i]
  {
  }

  /** The body of the loop of AbstractTextParser.parse: the checks on one line, then its model. */
  method ParseOneLine<T>(line: string, isValid: seq<string> -> bool, toModel: seq<string> --> Result<T, ParseError>) returns (model: Result<T, ParseError>)
    requires forall tokens :: isValid(tokens) ==> toModel.requires(tokens)
    ensures model == ParseLine(line, isValid, toModel)
  {
    var tokens := Split(Trim(line), ' ');
    if !isValid(tokens) {
      return Failure(InvalidLineFormat(tokens));
    }
    model := toModel(tokens);
  }

  /** AbstractTextParser.parse: the loop over the lines that adds each model to the result list. */
  method Parse<T>(lines: seq<string>, isValid: seq<string> -> bool, toModel: seq<string> --> Result<T, ParseError>) returns (r: Result<seq<T>, ParseError>)
    requires forall tokens :: isValid(tokens) ==> toModel.requires(tokens)
    ensures r == ParseAll(lines, isValid, toModel)
  {
    ghost var outcomes := LineOutcomes(lines, isValid, toModel);
    var result: seq<T> := [];
    var i := 0;
    while i < |lines|
      invariant i <= |lines|
      invariant Collect(outcomes[..i]) == Success(result)
    {
      PrefixStep(outcomes, i);
      var model := ParseOneLine(lines[i], isValid, toModel);
      if model.Failure? {
        CollectFailurePersists(outcomes, i + 1);
        return Failure(model.error);
      }
      result := result + [model.value];
      i := i + 1;
    }
    assert outcomes[..i] == outcomes;
    return Success(result);
  }

  // ---------------------------------------------------------------------------------------------
  // NameFileParser

  /** NameFileParser.isValid: at least an id and one name token. */
  predicate NameIsValid(tokens: seq<string>) {
    |tokens| >= 2
  }

  /** NameFileParser.toModel: the first token is the id, the others joined by single spaces the name. */
  function NameToModel(tokens: seq<string>): Result<Student, ParseError>
    requires |tokens| >= 1
  {
    Success(Student(tokens[0], Join(tokens[1..], " ")))
  }

  /** NameFileParser.parse. */
  function ParseNames(lines: seq<string>): Result<seq<Student>, ParseError> {
    ParseAll(lines, NameIsValid, NameToModel)
  }

  /**
   * A name line is the id, one space and the name: for an id without spaces and a name with
   * nothing to trim at either end, the parser gives back that id and that name, spaces inside
   * the name included.
   */
  lemma NameLineRoundTrip(id: string, name: string)
    requires id != [] && ' ' !in id && !IsTrimSpace(id[0])
    requires name != [] && IsTrimmed(name)
    ensures ParseLine(id + " " + name, NameIsValid, NameToModel) == Success(Student(id, name))
  {
    var line := id + " " + name;
    assert line[0] == id[0] && line[|line| - 1] == name[|name| - 1];
    assert Trim(line) == line;
    PiecesAround(id, name, ' ');
    PiecesWithout(id, ' ');
    LastPieceNotEmpty(name, ' ');
    var pieces := Pieces(name, ' ');
    assert line[|id|] == ' ';
    assert Tokens(line) == [id] + pieces;
    JoinOfPieces(name, ' ');
    assert ([id] + pieces)[1..] == pieces;
  }

  /** A line with no space in it after trimming (a blank line among them) is not a name line. */
  lemma OneTokenIsNotAName(line: string)
    requires ' ' !in Trim(line)
    ensures ParseLine(line, NameIsValid, NameToModel) == Failure(InvalidLineFormat([Trim(line)]))
  {
  }

  // ---------------------------------------------------------------------------------------------
  // CourseFileParser

  /** CourseFileParser.isValid: exactly six tokens. */
  predicate CourseIsValid(tokens: seq<string>) {
    |tokens| == 6
  }

  /** One Double.parseDouble call on a score token. */
  function Score(text: string): (r: Result<real, ParseError>)
    ensures r.Success? <==> ParseDouble(text).Some?
    ensures r.Success? ==> ParseDouble(text) == Some(r.value)
    ensures r.Failure? ==> r.error == NumberFormat(text)
  {
    match ParseDouble(text)
    case None => Failure(NumberFormat(text))
    case Some(v) => Success(v)
  }

  /**
   * CourseFileParser.toModel: id and code, then the four scores parsed left to right, the first
   * one that does not parse stopping it; no range check.
   */
  function CourseToModel(tokens: seq<string>): Result<Course, ParseError>
    requires |tokens| == 6
  {
    var test1 :- Score(tokens[2]);
    var test2 :- Score(tokens[3]);
    var test3 :- Score(tokens[4]);
    var finalExam :- Score(tokens[5]);
    Success(Course(tokens[0], tokens[1], test1, test2, test3, finalExam))
  }

  /** CourseFileParser.parse. */
  function ParseCourses(lines: seq<string>): Result<seq<Course>, ParseError> {
    ParseAll(lines, CourseIsValid, CourseToModel)
  }

  /**
   * Six tokens make a course exactly when the last four parse as numbers, whatever numbers they
   * are; the course holds the tokens and the parsed values, and otherwise the error names the
   * first score that does not parse.
   */
  lemma CourseTokens(tokens: seq<string>)
    requires |tokens| == 6
    ensures CourseToModel(tokens).Success? <==>
            ParseDouble(tokens[2]).Some? && ParseDouble(tokens[3]).Some? &&
            ParseDouble(tokens[4]).Some? && ParseDouble(tokens[5]).Some?
    ensures CourseToModel(tokens).Success? ==>
            CourseToModel(tokens).value == Course(tokens[0], tokens[1],
              ParseDouble(tokens[2]).value, ParseDouble(tokens[3]).value,
              ParseDouble(tokens[4]).value, ParseDouble(tokens[5]).value)
    ensures ParseDouble(tokens[2]).None? ==> CourseToModel(tokens) == Failure(NumberFormat(tokens[2]))
    ensures ParseDouble(tokens[2]).Some? && ParseDouble(tokens[3]).None? ==>
            CourseToModel(tokens) == Failure(NumberFormat(tokens[3]))
    ensures ParseDouble(tokens[2]).Some? && ParseDouble(tokens[3]).Some? && ParseDouble(tokens[4]).None? ==>
            CourseToModel(tokens) == Failure(NumberFormat(tokens[4]))
    ensures (ParseDouble(tokens[2]).Some? && ParseDouble(tokens[3]).Some? && ParseDouble(tokens[4]).Some? &&
             ParseDouble(tokens[5]).None?) ==> CourseToModel(tokens) == Failure(NumberFormat(tokens[5]))
  {
  }

  /** A line that does not have six tokens is rejected before any number is parsed. */
  lemma CourseLineRejected(line: string)
    requires |Tokens(line)| != 6
    ensures ParseLine(line, CourseIsValid, CourseToModel) == Failure(InvalidLineFormat(Tokens(line)))
  {
  }

  /** A blank line has one empty token, so both parsers reject it. */
  lemma BlankLineRejected(line: string)
    requires Trim(line) == []
    ensures ParseLine(line, NameIsValid, NameToModel) == Failure(InvalidLineFormat([[]]))
    ensures ParseLine(line, CourseIsValid, CourseToModel) == Failure(InvalidLineFormat([[]]))
  {
  }

  // ---------------------------------------------------------------------------------------------
  // CourseProcessor

  /** The grade CourseProcessor.process computes inline: each test 20 percent, the exam 40. */
  function Grade(c: Course): real {
    (c.test1 + c.test2 + c.test3) * 0.2 + c.finalExam * 0.4
  }

  /** The record of a course of a known student. */
  function RecordOf(c: Course, name: string): StudentCourseRecord {
    NewRecord(c.studentId, name, c.courseCode, Grade(c))
  }

  /** The stored grade is the grade StudentGradeProcessor's Course.computeFinalGrade gives the same scores. */
  lemma SameGradeAsProcessor(c: Course, name: string)
    ensures RecordOf(c, name).finalGrade ==
            Grades.FinalGrade(Grades.Course(c.courseCode, c.test1, c.test2, c.test3, c.finalExam))
  {
  }

  /** The studentMap filled from the student list: a later student with the same id overwrites. */
  function NameMap(students: seq<Student>): map<string, string> {
    if students == [] then map[]
    else
      var s := students[|students| - 1];
      NameMap(students[..|students| - 1])[s.studentId := s.studentName]
  }

  /** The map holds exactly the ids of the list. */
  lemma {:induction false} NameMapKeys(students: seq<Student>, id: string)
    ensures id in NameMap(students) <==> exists i :: 0 <= i < |students| && students[i].studentId == id
  {
    if students != [] {
      var front := students[..|students| - 1];
      NameMapKeys(front, id);
      if id in NameMap(front) {
        var i :| 0 <= i < |front| && front[i].studentId == id;
        assert students[i].studentId == id;
      }
      if exists i :: 0 <= i < |students| && students[i].studentId == id {
        var i :| 0 <= i < |students| && students[i].studentId == id;
        if i < |front| {
          assert front[i].studentId == id;
        }
      }
    }
  }

  /** The name under an id is the one of the last student in the list with that id. */
  lemma {:induction false} NameMapLastWins(students: seq<Student>, i: nat)
    requires i < |students|
    requires forall j :: i < j < |students| ==> students[j].studentId != students[i].studentId
    ensures students[i].studentId in NameMap(students)
    ensures NameMap(students)[students[i].studentId] == students[i].studentName
  {
    if i < |students| - 1 {
      var front := students[..|students| - 1];
      NameMapLastWins(front, i);
    }
  }

  /** The courses of known students, in course order, each made a record with the mapped name. */
  function Joined(names: map<string, string>, courses: seq<Course>): (records: seq<StudentCourseRecord>)
    ensures |records| <= |courses|
    ensures forall r :: r in records ==> r.studentId in names
  {
    if courses == [] then []
    else
      var c := courses[|courses| - 1];
      var front := Joined(names, courses[..|courses| - 1]);
      if c.studentId in names then front + [RecordOf(c, names[c.studentId])] else front
  }

  /** The records of one id, in list order. */
  function WithId(records: seq<StudentCourseRecord>, id: string): seq<StudentCourseRecord> {
    if records == [] then []
    else
      var r := records[|records| - 1];
      WithId(records[..|records| - 1], id) + (if r.studentId == id then [r] else [])
  }

  /** The records one student's courses give, in course order. */
  function RecordsFor(courses: seq<Course>, id: string, name: string): seq<StudentCourseRecord> {
    if courses == [] then []
    else
      var c := courses[|courses| - 1];
      RecordsFor(courses[..|courses| - 1], id, name) + (if c.studentId == id then [RecordOf(c, name)] else [])
  }

  /** The joined records of an id: none for an unknown id, one per course of a known id. */
  lemma {:induction false} JoinedWithId(names: map<string, string>, courses: seq<Course>, id: string)
    ensures WithId(Joined(names, courses), id) == if id in names then RecordsFor(courses, id, names[id]) else []
  {
    if courses != [] {
      JoinedWithId(names, courses[..|courses| - 1], id);
    }
  }

  lemma {:induction false} WithIdAppend(a: seq<StudentCourseRecord>, b: seq<StudentCourseRecord>, id: string)
    ensures WithId(a + b, id) == WithId(a, id) + WithId(b, id)
  {
    if b == [] {
      assert a + b == a;
    } else {
      var front := b[..|b| - 1];
      assert (a + b)[..|a + b| - 1] == a + front;
      assert (a + b)[|a + b| - 1] == b[|b| - 1];
      WithIdAppend(a, front, id);
    }
  }

  /** Records ordered by id: Comparator.comparing(getStudentId) never sees a pair out of order. */
  predicate SortedById(records: seq<StudentCourseRecord>) {
    forall i, j :: 0 <= i < j < |records| ==> LessEq(records[i].studentId, records[j].studentId)
  }

  /** Puts r after every record whose id is not greater than its own. */
  function InsertById(sorted: seq<StudentCourseRecord>, r: StudentCourseRecord): seq<StudentCourseRecord> {
    if sorted == [] then [r]
    else
      var last := sorted[|sorted| - 1];
      if Less(r.studentId, last.studentId) then InsertById(sorted[..|sorted| - 1], r) + [last]
      else sorted + [r]
  }

  /**
   * result.sort(Comparator.comparing(StudentCourseRecord::getStudentId)): List.sort is stable,
   * so this is the one order that sorts by id and keeps records of equal ids in list order.
   */
  function SortById(records: seq<StudentCourseRecord>): seq<StudentCourseRecord> {
    if records == [] then []
    else InsertById(SortById(records[..|records| - 1]), records[|records| - 1])
  }

  /** Inserting adds r to the records and takes nothing away. */
  lemma {:induction false} InsertByIdPermutes(sorted: seq<StudentCourseRecord>, r: StudentCourseRecord)
    ensures multiset(InsertById(sorted, r)) == multiset(sorted) + multiset{r}
  {
    if sorted != [] {
      var front, last := sorted[..|sorted| - 1], sorted[|sorted| - 1];
      assert sorted == front + [last];
      if Less(r.studentId, last.studentId) {
        InsertByIdPermutes(front, r);
      }
    }
  }

  /** Inserting into sorted records keeps them sorted. */
  lemma {:induction false} InsertByIdSorted(sorted: seq<StudentCourseRecord>, r: StudentCourseRecord)
    requires SortedById(sorted)
    ensures SortedById(InsertById(sorted, r))
  {
    if sorted != [] {
      var front, last := sorted[..|sorted| - 1], sorted[|sorted| - 1];
      assert sorted == front + [last];
      if Less(r.studentId, last.studentId) {
        InsertByIdSorted(front, r);
        InsertByIdPermutes(front, r);
        InsertedBelow(front, r, last);
      } else {
        NotLess(r.studentId, last.studentId);
        forall i | 0 <= i < |sorted|
          ensures LessEq(sorted[i].studentId, r.studentId)
        {
          LessEqTransitive(sorted[i].studentId, last.studentId, r.studentId);
        }
      }
    }
  }

  /** Inserting puts r after the records of its own id. */
  lemma {:induction false} InsertByIdStable(sorted: seq<StudentCourseRecord>, r: StudentCourseRecord, id: string)
    ensures WithId(InsertById(sorted, r), id) == WithId(sorted + [r], id)
  {
    if sorted != [] {
      var front, last := sorted[..|sorted| - 1], sorted[|sorted| - 1];
      assert sorted == front + [last];
      if Less(r.studentId, last.studentId) {
        InsertByIdStable(front, r, id);
        var inserted := InsertById(front, r);
        WithIdAppend(inserted, [last], id);
        WithIdAppend(front + [last], [r], id);
        WithIdAppend(front, [last], id);
        WithIdAppend(front, [r], id);
        LessIrreflexive(r.studentId);
      }
    }
  }

  /** Inserting into records that all precede last keeps them all at or before last. */
  lemma InsertedBelow(front: seq<StudentCourseRecord>, r: StudentCourseRecord, last: StudentCourseRecord)
    requires SortedById(front + [last]) && Less(r.studentId, last.studentId)
    requires SortedById(InsertById(front, r)) && multiset(InsertById(front, r)) == multiset(front) + multiset{r}
    ensures SortedById(InsertById(front, r) + [last])
  {
    var inserted := InsertById(front, r);
    forall i | 0 <= i < |inserted|
      ensures LessEq(inserted[i].studentId, last.studentId)
    {
      assert inserted[i] in multiset(inserted);
      assert (front + [last])[|front|] == last;
      if inserted[i] != r {
        assert inserted[i] in multiset(front);
        var k :| 0 <= k < |front| && front[k] == inserted[i];
        assert (front + [last])[k] == front[k];
      }
    }
  }

  /**
   * The sort orders the records by id, is a permutation of them, and keeps the records of each
   * id in the order they had.
   */
  lemma {:induction false} SortByIdFacts(records: seq<StudentCourseRecord>)
    ensures SortedById(SortById(records))
    ensures multiset(SortById(records)) == multiset(records)
    ensures forall id :: WithId(SortById(records), id) == WithId(records, id)
  {
    if records != [] {
      var front, last := records[..|records| - 1], records[|records| - 1];
      SortByIdFacts(front);
      InsertByIdSorted(SortById(front), last);
      InsertByIdPermutes(SortById(front), last);
      assert records == front + [last];
      forall id
        ensures WithId(SortById(records), id) == WithId(records, id)
      {
        InsertByIdStable(SortById(front), last, id);
        WithIdAppend(SortById(front), [last], id);
        WithIdAppend(front, [last], id);
      }
    }
  }

  /** What CourseProcessor.process returns. */
  function Processed(students: seq<Student>, courses: seq<Course>): seq<StudentCourseRecord> {
    SortById(Joined(NameMap(students), courses))
  }

  /**
   * process: at most one record per course, sorted by id; every record belongs to a listed
   * student; and the records of each id are those of its courses, in course order, under the
   * name the last student with that id gives (none at all for an id no student has).
   */
  lemma ProcessedFacts(students: seq<Student>, courses: seq<Course>, id: string)
    ensures |Processed(students, courses)| <= |courses|
    ensures SortedById(Processed(students, courses))
    ensures forall r :: r in Processed(students, courses) ==> exists i :: 0 <= i < |students| && students[i].studentId == r.studentId
    ensures WithId(Processed(students, courses), id) ==
            if id in NameMap(students) then RecordsFor(courses, id, NameMap(students)[id]) else []
  {
    var joined := Joined(NameMap(students), courses);
    SortByIdFacts(joined);
    JoinedWithId(NameMap(students), courses, id);
    forall r | r in Processed(students, courses)
      ensures exists i :: 0 <= i < |students| && students[i].studentId == r.studentId
    {
      assert r in multiset(joined);
      NameMapKeys(students, r.studentId);
    }
  }

  /** CourseProcessor.process: the name map loop, the join loop, then the sort. */
  method Process(students: seq<Student>, courses: seq<Course>) returns (result: seq<StudentCourseRecord>)
    ensures result == Processed(students, courses)
  {
    var studentMap: map<string, string> := map[];
    for i := 0 to |students|
      invariant studentMap == NameMap(students[..i])
    {
      assert students[..i + 1][..i] == students[..i];
      studentMap := studentMap[students[i].studentId := students[i].studentName];
    }
    assert students[..|students|] == students;
    var joined: seq<StudentCourseRecord> := [];
    for i := 0 to |courses|
      invariant joined == Joined(studentMap, courses[..i])
    {
      assert courses[..i + 1][..i] == courses[..i];
      var c := courses[i];
      if c.studentId in studentMap {
        var name := studentMap[c.studentId];
        var grade := (c.test1 + c.test2 + c.test3) * 0.2 + c.finalExam * 0.4;
        joined := joined + [NewRecord(c.studentId, name, c.courseCode, grade)];
      }
    }
    assert courses[..|courses|] == courses;
    result := SortById(joined);
  }

  // ---------------------------------------------------------------------------------------------
  // TextFileWriter

  /** The "%s %s %s %.1f" line of one record. */
  function RecordLine(r: StudentCourseRecord): string {
    r.studentId + " " + r.studentName + " " + r.courseCode + " " + FormatOneDecimal(r.finalGrade)
  }

  /** A field a space-separated line can carry: not empty, no space in it, nothing to trim. */
  predicate Word(s: string) {
    s != [] && ' ' !in s && IsTrimmed(s)
  }

  /** Text, a space and more text split into the pieces of each. */
  lemma PiecesAroundSpace(a: string, b: string)
    ensures Pieces(a + " " + b, ' ') == Pieces(a, ' ') + Pieces(b, ' ')
  {
    PiecesAround(a, b, ' ');
  }

  /** A string with nothing to trim at its end splits into all its pieces. */
  lemma SplitOfTrimmed(s: string)
    requires s != [] && IsTrimmed(s)
    ensures Split(s, ' ') == Pieces(s, ' ')
  {
    if ' ' !in s {
      PiecesWithout(s, ' ');
    } else {
      LastPieceNotEmpty(s, ' ');
    }
  }

  /** The pieces of four fields joined by spaces, the second one possibly holding spaces. */
  lemma FieldsLinePieces(id: string, name: string, code: string, g: string)
    requires ' ' !in id && ' ' !in code && ' ' !in g
    ensures Pieces(id + " " + name + " " + code + " " + g, ' ') == [id] + Pieces(name, ' ') + [code, g]
  {
    var tail := code + " " + g;
    var rest := name + " " + tail;
    assert id + " " + name + " " + code + " " + g == id + " " + rest;
    PiecesWithout(id, ' ');
    PiecesWithout(code, ' ');
    PiecesWithout(g, ' ');
    PiecesAroundSpace(code, g);
    PiecesAroundSpace(name, tail);
    PiecesAroundSpace(id, rest);
  }

  /** Four fields joined by spaces, the second one possibly holding spaces, split back apart. */
  lemma FieldsLineTokens(id: string, name: string, code: string, g: string)
    requires Word(id) && Word(code) && Word(g) && name != [] && IsTrimmed(name)
    ensures Tokens(id + " " + name + " " + code + " " + g) == [id] + Split(name, ' ') + [code, g]
  {
    var line := id + " " + name + " " + code + " " + g;
    FieldsLinePieces(id, name, code, g);
    SplitOfTrimmed(name);
    assert line[0] == id[0] && line[|line| - 1] == g[|g| - 1];
    SplitOfTrimmed(line);
  }

  /**
   * A written line read back with the parsers' tokenizer: the id, the words of the name, the
   * code and the grade text, which parses back to the stored grade.
   */
  lemma RecordLineTokens(r: StudentCourseRecord)
    requires Word(r.studentId) && Word(r.courseCode) && r.studentName != [] && IsTrimmed(r.studentName)
    requires IsTenth(r.finalGrade)
    ensures Tokens(RecordLine(r)) == [r.studentId] + Split(r.studentName, ' ') + [r.courseCode, FormatOneDecimal(r.finalGrade)]
    ensures ParseDouble(FormatOneDecimal(r.finalGrade)) == Some(r.finalGrade)
  {
    var g := FormatOneDecimal(r.finalGrade);
    assert ' ' !in g;
    FieldsLineTokens(r.studentId, r.studentName, r.courseCode, g);
    FormatParseRoundTrip(r.finalGrade);
  }

  /** TextFileWriter.write: one line per record, in list order, and no header. */
  method Write(records: seq<StudentCourseRecord>) returns (lines: seq<string>)
    ensures |lines| == |records|
    ensures forall i :: 0 <= i < |records| ==> lines[i] == RecordLine(records[i])
  {
    lines := [];
    for i := 0 to |records|
      invariant |lines| == i
      invariant forall j :: 0 <= j < i ==> lines[j] == RecordLine(records[j])
    {
      var r := records[i];
      lines := lines + [r.studentId + " " + r.studentName + " " + r.courseCode + " " + FormatOneDecimal(r.finalGrade)];
    }
  }
}
