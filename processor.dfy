/**
 * StudentGradeProcessor with its state in place: Student objects whose course lists grow, and one
 * GradeProcessor object standing for the class's static students map. Each reader and writer is a
 * method over that state, proved to do what the functions of module Roster say.
 */
module Processor {
  import opened Outcomes
  import opened JavaText
  import opened LexOrder
  import opened Grades
  import opened Roster

  /** A Student: the id and name its Person part fixes, and the list its addCourse appends to. */
  class Student {
    const id: string
    const name: string
    var courses: seq<Course>

    /** The Student constructor; the Person check on id and name is PersonCheck, made by the caller first. */
    constructor (id: string, name: string)
      ensures this.id == id && this.name == name && courses == []
    {
      this.id := id;
      this.name := name;
      courses := [];
    }

    /** Student.addCourse: the course goes at the end of the list. */
    method AddCourse(c: Course)
      modifies this
      ensures courses == old(courses) + [c]
    {
      courses := courses + [c];
    }
  }

  /** The static students map of StudentGradeProcessor. */
  class GradeProcessor {
    var students: map<string, Student>

    /** The map as a value: each Student object read as its id, name and courses. */
    ghost var contents: Roster

    /**
     * contents is what the Student objects hold; every Student sits under its own id (so no two
     * keys share a Student object), and every text field is clean, as the readers leave them.
     */
    ghost predicate Valid()
      reads this, students.Values
    {
      && students.Keys == contents.Keys
      && (forall id :: id in students ==>
            students[id].id == id && contents[id] == StudentRecord(id, students[id].name, students[id].courses))
      && WellFormed(contents)
    }

    constructor ()
      ensures Valid() && contents == map[]
    {
      students := map[];
      contents := map[];
    }

    /**
     * readNameFile: each line is split on commas and must give two parts; the trimmed id and name
     * go into a new Student put under the id. The first bad line stops the reading, and the map
     * keeps what the lines before it did.
     */
    method ReadNameFile(lines: seq<string>) returns (error: Option<Error>)
      requires Valid()
      modifies this
      ensures Valid()
      ensures contents == ReadNames(old(contents), lines).roster
      ensures error == ReadNames(old(contents), lines).error
    {
      ghost var parsedLines := ParseNameLines(lines);
      var i := 0;
      while i < |lines|
        invariant i <= |lines|
        invariant Valid()
        invariant ReadNames(old(contents), lines) == ReadNamesParsed(contents, parsedLines[i..])
      {
        ReadNamesAt(contents, parsedLines, i);
        var parsed := ParseNameLine(lines, i);
        if parsed.Failure? {
          return Some(parsed.error);
        }
        Put(parsed.value.0, parsed.value.1);
        i := i + 1;
      }
      return None;
    }

    /**
     * The checks readNameFile makes on line i: two comma-separated parts, then the trimmed id and
     * name handed to the Person constructor.
     */
    method ParseNameLine(lines: seq<string>, i: nat) returns (parsed: NameParse)
      requires i < |lines|
      ensures parsed == ParseNameLines(lines)[i]
      ensures NameClean(parsed)
    {
      var line := lines[i];
      ParseNameLinesAt(lines, i);
      NameLineSteps(line);
      var parts := Split(line, ',');
      if |parts| != 2 {
        return Failure(MalformedLine(NameFile, line));
      }
      var id := Trim(parts[0]);
      var name := Trim(parts[1]);
      var check := PersonCheck(id, name);
      if check.Some? {
        return Failure(check.value);
      }
      return Success((id, name));
    }

    /** students.put(id, new Student(id, name)): a new Student with no courses replaces any under id. */
    method Put(id: string, name: string)
      requires Valid() && CleanField(id) && CleanField(name)
      modifies this
      ensures Valid()
      ensures contents == old(contents)[id := StudentRecord(id, name, [])]
    {
      var student := new Student(id, name);
      students := students[id := student];
      contents := contents[id := StudentRecord(id, name, [])];
    }

    /**
     * readCourseFile: each line must split into six parts, and its four scores are parsed before
     * the student is looked up (CourseLine). An unknown id is skipped (its id is returned with the
     * others, in line order); otherwise the Course constructor's checks decide between stopping
     * with an error and appending the course to the student. The set of students never changes.
     */
    method ReadCourseFile(lines: seq<string>) returns (skipped: seq<string>, error: Option<Error>)
      requires Valid()
      modifies this, students.Values
      ensures Valid()
      ensures students == old(students)
      ensures CoursesRead(contents, skipped, error) == ReadCourses(old(contents), lines)
    {
      ghost var parsedLines := ParseLines(lines);
      ghost var total := ReadCourses(old(contents), lines);
      skipped := [];
      var i := 0;
      while i < |lines|
        invariant i <= |lines|
        invariant Valid()
        invariant students == old(students)
        invariant total == Prefixed(skipped, ReadParsed(contents, parsedLines[i..]))
      {
        ghost var before := contents;
        var parsed := ParseCourseLine(lines, i);
        var step := CourseFileLine(parsed);
        if step.Failed? {
          ReadParsedEndsAt(total, skipped, before, parsedLines, i);
          return skipped, Some(step.error);
        }
        ReadParsedContinues(total, skipped, before, parsedLines, i);
        if step.Skipped? {
          skipped := skipped + [step.id];
        }
        i := i + 1;
      }
      ReadParsedDone(total, skipped, contents, parsedLines);
      return skipped, None;
    }

    /** The split and the four parseDouble calls readCourseFile makes on line i. */
    method ParseCourseLine(lines: seq<string>, i: nat) returns (parsed: ParsedLine)
      requires i < |lines|
      ensures parsed == ParseLines(lines)[i]
      ensures ParsedClean(parsed)
    {
      ParseLinesAt(lines, i);
      parsed := CourseLine(lines[i]);
    }

    /**
     * One parsed line of readCourseFile: an unknown id is skipped, and a known one gets the
     * Course the constructor builds, unless it throws.
     */
    method CourseFileLine(parsed: ParsedLine) returns (step: CourseStep)
      requires Valid() && ParsedClean(parsed)
      modifies this, students.Values
      ensures Valid()
      ensures students == old(students)
      ensures step == StepOf(old(contents), parsed)
      ensures contents == if step.Failed? then old(contents) else Apply(old(contents), step)
    {
      if parsed.Failure? {
        return Failed(parsed.error);
      }
      var fields := parsed.value;
      if fields.id !in students {
        return Skipped(fields.id);
      }
      var course := NewCourse(fields.code, fields.test1, fields.test2, fields.test3, fields.finalExam);
      if course.Failure? {
        return Failed(course.error);
      }
      AddCourseTo(fields.id, course.value);
      return Added(fields.id, course.value);
    }

    /** students.get(id).addCourse(course) for a Student the map holds. */
    method AddCourseTo(id: string, c: Course)
      requires Valid() && id in students && ValidCourse(c) && CleanField(c.code)
      modifies this, students[id]
      ensures Valid()
      ensures students == old(students)
      ensures contents == AddCourse(old(contents), id, c)
    {
      students[id].AddCourse(c);
      AddCourseKeeps(contents, id, c);
      contents := AddCourse(contents, id, c);
    }

    /**
     * writeOutputFile: the header, then for each student in ascending id order (the order of a
     * TreeMap built from the map) one ", "-separated line per course, in list order.
     */
    method WriteOutputFile() returns (lines: seq<string>)
      requires Valid()
      ensures lines == Report(contents)
    {
      lines := [Header];
      var ids := SortedKeys(students.Keys);
      var i := 0;
      while i < |ids|
        invariant i <= |ids|
        invariant lines == [Header] + FormatLines(RowsOf(contents, ids[..i]), ", ")
      {
        var printed := StudentLines(students[ids[i]], ", ");
        PrintStudentAfter(Header, contents, ids[..i], ids[i], ", ");
        TakeOneMore(ids, i);
        lines := lines + printed;
        i := i + 1;
      }
      assert ids[..i] == ids;
    }

    /**
     * writeOutputFile of the unsorted variant: the header without spaces, then for each student in
     * the order the map hands them out (left open here) one ","-separated line per course, in
     * list order.
     */
    method WriteOutputFileUnordered() returns (lines: seq<string>)
      requires Valid()
      ensures exists ids :: IsEnumeration(ids, students.Keys) && lines == UnorderedReport(contents, ids)
    {
      lines := [PlainHeader];
      ghost var visited: seq<string> := [];
      var remaining := students.Keys;
      while remaining != {}
        invariant remaining <= students.Keys
        invariant IsEnumeration(visited, students.Keys - remaining)
        invariant lines == [PlainHeader] + FormatLines(RowsOf(contents, visited), ",")
        decreases remaining
      {
        var id :| id in remaining;
        var printed := StudentLines(students[id], ",");
        PrintStudentAfter(PlainHeader, contents, visited, id, ",");
        EnumerationGrows(visited, students.Keys, remaining, id);
        lines := lines + printed;
        visited := visited + [id];
        remaining := remaining - {id};
      }
      assert students.Keys - remaining == students.Keys;
      assert IsEnumeration(visited, students.Keys) && lines == UnorderedReport(contents, visited);
    }

    /** The inner loop of both writers: one line per course of the student, in list order. */
    method StudentLines(student: Student, sep: string) returns (printed: seq<string>)
      requires Valid() && student.id in students && students[student.id] == student
      ensures printed == FormatLines(CourseRows(contents[student.id], contents[student.id].courses), sep)
    {
      ghost var s := contents[student.id];
      assert s.id == student.id && s.name == student.name && s.courses == student.courses;
      printed := [];
      var j := 0;
      while j < |student.courses|
        invariant j <= |student.courses|
        invariant printed == FormatLines(CourseRows(s, s.courses[..j]), sep)
      {
        var course := student.courses[j];
        PrintNextCourse(s, j, sep);
        printed := printed + [FormatRow(ReportRow(student.id, student.name, course.code, FinalGrade(course)), sep)];
        j := j + 1;
      }
      AllCourses(s);
    }
  }
}
