# Student grade pipeline, modelled in Dafny

The repository holds a small batch grade pipeline in three near-duplicate Java variants, plus a
reader for the report it writes:

- `Testing/StudentGradeProcessor.java`: reads a name file (`id, name` per line) into a static
  `HashMap` of `Student` objects. It then reads a course file (`id, code, t1, t2, t3, final`),
  appends a validated `Course` to each known student and skips unknown ids. Last, it writes a
  report: a header, then one `id, name, code, grade` line per course, students in ascending id
  order (through a `TreeMap`).
- `Testing/StudentGradeProcessor1.java`: the same classes and readers. Its writer uses `,` without
  spaces and the map's own (unspecified) iteration order. The stray `public class Main {` wrapper
  around the file is ignored.
- `Testing/Main.java`: a second design. A generic text parser splits trimmed lines on single
  spaces, with a name-file and a course-file variant. `CourseProcessor.process` joins courses to
  names, rounds the weighted grade, drops courses of unknown students and stable-sorts by id.
  `TextFileWriter` writes space-separated lines with no header.
- `Testing/FinalGradesViewer.java`, `loadTableModel` only: reads a report back by splitting the
  header and each line on `,` and trimming every cell. The `DefaultTableModel` it builds cuts or
  pads every row to the number of columns.

The model, file by file:

- `outcomes.dfy` (`Outcomes`): `Option` and `Result`. A thrown exception is a `Failure`.
- `java_text.dfy` (`JavaText`): `String.split` on one character (trailing empty strings
  dropped), `String.trim` (strips characters up to U+0020) and `String.join`, with their
  round-trip lemmas.
- `java_numbers.dfy` (`JavaNumbers`): `Double.parseDouble` on plain decimal text, `Math.round`
  and the `%.1f` conversion, over exact reals. The printed text of a whole number of tenths
  parses back to that number.
- `lex_order.dfy` (`LexOrder`): the `String.compareTo` order, and the ascending key order a
  `TreeMap` visits.
- `grades.dfy` (`Grades`): the `Person` and `Course` constructor checks and
  `computeFinalGrade`.
- `roster.dfy` (`Roster`): what the readers and writers of `StudentGradeProcessor` do to the
  students map, stated over values. It also holds the lemmas about those functions.
- `processor.dfy` (`Processor`): the `Student` class, whose course list grows in place, and a
  `GradeProcessor` object holding the static map. `readNameFile`, `readCourseFile` and both
  `writeOutputFile` variants are methods with loops, proved equal to the `Roster` functions.
- `viewer.dfy` (`Viewer`): `loadTableModel` with its loops and its in-place trimming of the
  column array, and the row justification of the `DefaultTableModel` constructor. A report written by either processor reads back as the four column names and
  the written fields.
- `report_generator.dfy` (`ReportGenerator`): the classes of `Main.java`, the generic parser,
  the processor and the writer.

## Model

| member | source | states |
|---|---|---|
| `JavaText.Trim` | Testing/StudentGradeProcessor.java:102-103 | the result has no character at or below U+0020 at either end, is no longer than the input, uses only the input's characters, and is the input itself when there was nothing to trim; `TrimStrips` shows it is exactly the input with those characters stripped from both ends |
| `JavaText.TrimStrips` | Testing/StudentGradeProcessor.java:102-103 | `Trim(s)` is a slice `s[i..j]` with only characters at or below U+0020 before `i` and from `j` on; with `Trim(s)` itself trimmed, this is exactly what `String.trim` removes |
| `JavaText.Join` | Testing/Main.java:98 | `String.join`: the parts with the separator between them; `SplitOfJoin` and `JoinOfSplit` show it is the inverse of `Split` |
| `JavaText.Split` | Testing/StudentGradeProcessor.java:99 | no part contains the separator; a string without the separator is its own single part |
| `JavaText.SplitOfJoin` | Testing/FinalGradesViewer.java:92 | splitting parts joined by `c` gives the parts back when none contains `c` and the last is not empty |
| `JavaText.JoinOfSplit` | Testing/Main.java:98 | joining the split parts with `c` rebuilds a string that does not end with `c` |
| `JavaNumbers.Round` | Testing/StudentGradeProcessor.java:75 | `Math.round`: the integer `n` with `n - 0.5 <= x < n + 0.5` (halves go up) |
| `JavaNumbers.FormatOneDecimal` | Testing/StudentGradeProcessor.java:144-148 | `%.1f` text: exactly one digit after the point, nothing to trim, only `-`, `.` and digits |
| `JavaNumbers.ParseDouble` | Testing/StudentGradeProcessor.java:119-122 | `Double.parseDouble` on a trimmed optional sign, digits and an optional point; `FormatParseRoundTrip` shows it reads back every number `%.1f` prints |
| `JavaNumbers.FormatParseRoundTrip` | Testing/FinalGradesViewer.java:92-96 | `parseDouble` of the `%.1f` text of a whole number of tenths gives that number back |
| `LexOrder.LessIrreflexive` | Testing/StudentGradeProcessor.java:140 | no id sorts before itself under `compareTo` |
| `LexOrder.LessAsymmetric` | Testing/StudentGradeProcessor.java:140 | two ids never sort before each other |
| `LexOrder.LessTransitive` | Testing/StudentGradeProcessor.java:140 | the `compareTo` order is transitive |
| `LexOrder.LessTotal` | Testing/StudentGradeProcessor.java:140 | of two distinct ids one sorts before the other |
| `LexOrder.MinimumExists` | Testing/StudentGradeProcessor.java:140 | every non-empty key set has a least key |
| `LexOrder.SortedIds` | Testing/StudentGradeProcessor.java:140 | the `TreeMap` visit order: strictly ascending and holding exactly the keys |
| `LexOrder.SortedUnique` | Testing/StudentGradeProcessor.java:140 | two strictly ascending sequences of the same keys are equal, so the visit order is determined by the keys |
| `LexOrder.Insert` | Testing/StudentGradeProcessor.java:140 | inserting a key into an ascending sequence keeps it ascending and adds exactly that key |
| `LexOrder.SortedKeys` | Testing/StudentGradeProcessor.java:140 | inserting the keys one by one yields the `TreeMap` visit order |
| `Grades.PersonCheck` | Testing/StudentGradeProcessor.java:9-15 | no error exactly when both id and name are non-empty; otherwise the constructor's exception |
| `Grades.NewCourse` | Testing/StudentGradeProcessor.java:50-64 | succeeds exactly when the code is non-empty and all four scores lie in [0, 100], and then holds exactly those values; an empty code is reported before a bad score (same code in StudentGradeProcessor1.java:54-69) |
| `Grades.WeightedScore` | Testing/StudentGradeProcessor.java:71 | `(t1 + t2 + t3) * 0.2 + f * 0.4`; `FinalGrade` is its rounding, and it lies in [0, 100] for a valid course |
| `Grades.RoundToOneDecimal` | Testing/StudentGradeProcessor.java:74-76 | the result is a whole number of tenths in `(v - 0.05, v + 0.05]` |
| `Grades.RoundingKeepsTenths` | Testing/StudentGradeProcessor.java:74-76 | rounding a whole number of tenths changes nothing |
| `Grades.FinalGrade` | Testing/StudentGradeProcessor.java:70-72 | the grade is a whole number of tenths within 0.05 of `(t1+t2+t3)*0.2 + f*0.4`, and lies in [0, 100] for a valid course (same code in StudentGradeProcessor1.java:75-84) |
| `Roster.NameLine` | Testing/StudentGradeProcessor.java:99-103 | an accepted name line yields an id and a name that are non-empty, trimmed and comma-free |
| `Roster.NameLineSteps` | Testing/StudentGradeProcessor.java:99-104 | a line whose comma split is not two parts is malformed; otherwise the trimmed parts go to the `Person` check, which either rejects them or lets them through unchanged |
| `Roster.LineWithoutCommaIsMalformed` | Testing/StudentGradeProcessor.java:99-101 | a name line with no comma, the empty line included, is malformed |
| `Roster.SplitDropsTrailingComma` | Testing/StudentGradeProcessor.java:99 | `"id,".split(",")` has fewer than two parts |
| `Roster.TrailingCommaIsMalformed` | Testing/StudentGradeProcessor.java:99-101 | a name line `id,` with an empty name is malformed, not an empty-name error |
| `Roster.ParseNameLines` | Testing/StudentGradeProcessor.java:98-103 | one parse per line, each accepted one clean |
| `Roster.ParseNameLinesAt` | Testing/StudentGradeProcessor.java:98-103 | the parse of line `i` is `NameLine` of that line |
| `Roster.PutKeeps` | Testing/StudentGradeProcessor.java:104 | putting a new student with clean fields under its own id keeps the map well formed |
| `Roster.ReadNamesParsed` | Testing/StudentGradeProcessor.java:98-105 | the loop of `readNameFile` over parsed lines; `ReadNamesSucceeds`, `ReadNamesLastWins`, `ReadNamesUntouched` and `ReadNamesStopsAtFirstBadLine` state what it does |
| `Roster.ReadNames` | Testing/StudentGradeProcessor.java:95-107 | `readNameFile` on the lines of a file: each line parsed by `NameLine`, then `ReadNamesParsed`; `ReadNameFile` is proved to compute it |
| `Roster.ReadNamesKeeps` | Testing/StudentGradeProcessor.java:98-105 | reading names never removes an id from the map, and keeps it well formed when every parsed line is clean |
| `Roster.ReadNamesAt` | Testing/StudentGradeProcessor.java:98-105 | reading from line `i` on stops with its error when it fails, and otherwise puts its student, then reads the rest |
| `Roster.ReadNamesUntouched` | Testing/StudentGradeProcessor.java:104 | an id no line defines keeps its entry, courses included, or stays absent |
| `Roster.ReadNamesSucceeds` | Testing/StudentGradeProcessor.java:98-105 | reading ends without error exactly when every line is accepted |
| `Roster.ReadNamesLastWins` | Testing/StudentGradeProcessor.java:102-104 | after a clean read, the last line defining an id decides its student: that trimmed name and an empty course list |
| `Roster.ReadNamesStopsAtFirstBadLine` | Testing/StudentGradeProcessor.java:100-101 | the first bad line's error is returned, and the map keeps what the lines before it did |
| `Roster.ParseScore` | Testing/StudentGradeProcessor.java:119-122 | `Double.parseDouble` of a trimmed part; `CourseLineSteps` shows the four scores are parsed in order and the first failure is the error |
| `Roster.CourseLine` | Testing/StudentGradeProcessor.java:113-122 | the id and code of an accepted course line are trimmed and comma-free |
| `Roster.CourseLineSteps` | Testing/StudentGradeProcessor.java:113-122 | a line without six comma parts is malformed; otherwise the four trimmed scores are parsed left to right, the first one that fails giving the error, all before the student is looked up |
| `Roster.ParseLines` | Testing/StudentGradeProcessor.java:112-122 | one parse per course line, each clean |
| `Roster.ParseLinesAt` | Testing/StudentGradeProcessor.java:112-122 | the parse of line `i` is `CourseLine` of that line |
| `Roster.StepOf` | Testing/StudentGradeProcessor.java:124-130 | a parse error stops the reading; an unknown id is skipped exactly when the line parsed; a known id's line adds exactly when its fields make a valid course, and then adds exactly that course; otherwise it fails with the constructor's error (empty code first, then a score out of range) |
| `Roster.FieldsCourse` | Testing/StudentGradeProcessor.java:124-130 | the course one line gives student `k`: the course of its parsed fields when the line names `k` and the course is valid, none otherwise |
| `Roster.AddCourse` | Testing/StudentGradeProcessor.java:34-39 | the course goes at the end of that student's list; no key and no other student changes |
| `Roster.AddCourseKeeps` | Testing/StudentGradeProcessor.java:34-39 | ids and names stay, course lists only grow, and a valid clean course keeps the map well formed |
| `Roster.AddCourseKeepsStudent` | Testing/StudentGradeProcessor.java:38 | appending a valid course keeps one student well formed |
| `Roster.ReadParsed` | Testing/StudentGradeProcessor.java:112-131 | the loop of `readCourseFile` over parsed lines; `ReadParsedSucceeds`, `ReadParsedFirstError`, `ReadParsedAppends`, `ReadParsedSkips` and `ReadParsedStopsAtFirstFailure` state what it does |
| `Roster.ReadCourses` | Testing/StudentGradeProcessor.java:109-133 | `readCourseFile` on the lines of a file: each line parsed by `CourseLine`, then `ReadParsed`; `ReadCourseFile` is proved to compute it |
| `Roster.ReadParsedKeeps` | Testing/StudentGradeProcessor.java:109-133 | reading courses never adds or removes a student, never changes an id or a name, only extends course lists, and keeps the map well formed |
| `Roster.ReadCoursesKeeps` | Testing/StudentGradeProcessor.java:109-133 | the same facts about reading the lines of a course file |
| `Roster.ReadParsedNext` | Testing/StudentGradeProcessor.java:112-131 | reading lines whose first step does not fail: that step, then the rest, with a skipped id put in front |
| `Roster.ReadParsedAt` | Testing/StudentGradeProcessor.java:112-131 | the same step taken at line `i` |
| `Roster.ReadParsedFailsAt` | Testing/StudentGradeProcessor.java:114-130 | a failing line `i` ends the reading with its error and no more skipped ids |
| `Roster.ReadParsedContinues` | Testing/StudentGradeProcessor.java:124-130 | the loop's bookkeeping after a skipped or an added line |
| `Roster.ReadParsedEndsAt` | Testing/StudentGradeProcessor.java:114-130 | the loop's outcome when line `i` throws |
| `Roster.ReadParsedDone` | Testing/StudentGradeProcessor.java:112 | the loop's outcome when all lines were read |
| `Roster.ApplyCourses` | Testing/StudentGradeProcessor.java:124-130 | one line adds to a known student exactly the course that line describes |
| `Roster.StepSkips` | Testing/StudentGradeProcessor.java:124-128 | one line is skipped exactly when its id is unknown |
| `Roster.FirstLineAccepted` | Testing/StudentGradeProcessor.java:112-131 | a clean read accepts its first line |
| `Roster.ReadParsedSucceeds` | Testing/StudentGradeProcessor.java:112-131 | the read ends without an exception exactly when every line parses and every line naming a known student describes a valid course; unknown students' scores are never range-checked |
| `Roster.ReadParsedFirstError` | Testing/StudentGradeProcessor.java:114-130 | the first line not accepted decides the exception: its parse error, or the `Course` constructor's error for a known student |
| `Roster.ReadParsedAppends` | Testing/StudentGradeProcessor.java:124-130 | after a clean read, each student's courses are its old ones followed by those of its lines, in line order |
| `Roster.ReadParsedSkips` | Testing/StudentGradeProcessor.java:124-128 | after a clean read, the skipped ids are the unknown ids of the lines, in line order |
| `Roster.ReadParsedStopsAtFirstFailure` | Testing/StudentGradeProcessor.java:114-130 | a failing line ends the reading with the map and skipped ids the earlier lines left: nothing is rolled back |
| `Roster.ReadParsedShift` | Testing/StudentGradeProcessor.java:112-131 | reading a prefix and reading all lines both start with the first line's step |
| `Roster.CourseRows` | Testing/StudentGradeProcessor.java:143-148 | one row per course of the student, in list order, with its code and final grade |
| `Roster.FormatRow` | Testing/StudentGradeProcessor.java:144-148 | one printed line: id, name, code and `%.1f` grade with the writer's separator; `CellsOfRow` shows the viewer reads it back field by field |
| `Roster.FormatLines` | Testing/StudentGradeProcessor.java:144-148 | one printed line per row, in order |
| `Roster.CourseRowsNext` | Testing/StudentGradeProcessor.java:143 | one more course gives one more row at the end |
| `Roster.FormatLinesNext` | Testing/StudentGradeProcessor.java:144 | one more row gives one more printed line at the end |
| `Roster.PrintNextCourse` | Testing/StudentGradeProcessor.java:143-148 | the inner loop's step: the lines of the first `j + 1` courses |
| `Roster.FormatLinesAppend` | Testing/StudentGradeProcessor.java:142-150 | printing two runs of rows prints the lines of the first, then those of the second |
| `Roster.PrintStudentAfter` | Testing/StudentGradeProcessor.java:142-150 | the outer loop's step: the report so far followed by the next student's lines |
| `Roster.EnumerationGrows` | Testing/StudentGradeProcessor1.java:147 | visiting one more unvisited key keeps the visit order an enumeration of the visited keys |
| `Roster.RowIdsAmong` | Testing/StudentGradeProcessor.java:142-148 | every row carries the id of one of the visited students |
| `Roster.RowsOfSorted` | Testing/StudentGradeProcessor.java:140-142 | visiting students in ascending id order prints rows in ascending id order |
| `Roster.ReportSorted` | Testing/StudentGradeProcessor.java:140-150 | the report's rows are in ascending id order |
| `Roster.RowsWithIdAppend` | Testing/StudentGradeProcessor.java:142 | the rows of one id in two runs are those of the first run, then those of the second |
| `Roster.RowsWithIdOfStudent` | Testing/StudentGradeProcessor.java:143-148 | a student's rows all carry its id |
| `Roster.RowsOfStudent` | Testing/StudentGradeProcessor.java:142-150 | visiting distinct students, the rows of id `k` are `k`'s courses in list order, or none when `k` is not visited |
| `Roster.DistinctWithoutLast` | Testing/StudentGradeProcessor.java:140 | dropping the last of distinct ids keeps them distinct, and the last is not among the rest |
| `Roster.ReportRowsOfStudent` | Testing/StudentGradeProcessor.java:140-150 | in the report, the rows of id `k` are `k`'s courses in insertion order, or none for an unknown id |
| `Roster.RowsOfCount` | Testing/StudentGradeProcessor.java:142-150 | the number of rows is the number of courses of the visited students |
| `Roster.Report` | Testing/StudentGradeProcessor.java:135-152 | the sorted writer's lines; `ReportSorted`, `ReportRowsOfStudent`, `ReportLength` and `ReportReadsBack` state what it holds |
| `Roster.ReportLength` | Testing/StudentGradeProcessor.java:137-150 | the report has one header line plus one line per course |
| `Roster.RowsOfGrades` | Testing/StudentGradeProcessor.java:143-148 | on a well-formed map every printed grade lies in [0, 100] and is a whole number of tenths |
| `Roster.TotalCoursesAppend` | Testing/StudentGradeProcessor1.java:147-155 | the course count of two runs of students is the sum of their counts |
| `Roster.RemoveFromEnumeration` | Testing/StudentGradeProcessor1.java:147 | removing one key from an enumeration enumerates the other keys |
| `Roster.RemoveKeepsDistinct` | Testing/StudentGradeProcessor1.java:147 | removing an element keeps distinct ids distinct |
| `Roster.RemoveKeepsOthers` | Testing/StudentGradeProcessor1.java:147 | removing an element keeps every other key, and only keys |
| `Roster.RemoveAt` | Testing/StudentGradeProcessor1.java:147 | removing element `j` shifts the later elements down by one |
| `Roster.TotalCoursesRemove` | Testing/StudentGradeProcessor1.java:147-155 | removing one student removes exactly its courses from the count |
| `Roster.TotalCoursesAnyOrder` | Testing/StudentGradeProcessor1.java:147-155 | any two visit orders of the same students count the same courses |
| `Roster.SortedIdsEnumerate` | Testing/StudentGradeProcessor.java:140 | the ascending key order visits every key exactly once |
| `Roster.UnorderedReport` | Testing/StudentGradeProcessor1.java:144-157 | the unsorted writer's lines for one visit order; `UnorderedReportFacts` and `UnorderedReportReadsBack` state what it holds for every order |
| `Roster.UnorderedReportFacts` | Testing/StudentGradeProcessor1.java:146-155 | whatever order the map hands out its students, the unsorted report has as many lines as the sorted one, and the rows of each id are its courses in insertion order |
| `Processor.Student.constructor` | Testing/StudentGradeProcessor.java:29-32 | a new student has the given id and name and no courses |
| `Processor.Student.AddCourse` | Testing/StudentGradeProcessor.java:34-39 | the course is appended to the student's list in place |
| `Processor.GradeProcessor.constructor` | Testing/StudentGradeProcessor.java:80 | the static map starts empty |
| `Processor.GradeProcessor.ReadNameFile` | Testing/StudentGradeProcessor.java:95-107 | the map afterwards and the error are what `ReadNames` gives for the map before and the lines (same code in StudentGradeProcessor1.java:104-115) |
| `Processor.GradeProcessor.ParseNameLine` | Testing/StudentGradeProcessor.java:99-103 | the loop's checks on line `i` give that line's parse |
| `Processor.GradeProcessor.Put` | Testing/StudentGradeProcessor.java:104 | a new `Student` with no courses replaces whatever was under the id |
| `Processor.GradeProcessor.ReadCourseFile` | Testing/StudentGradeProcessor.java:109-133 | the same `Student` objects stay in the map; the new contents, the skipped ids and the error are what `ReadCourses` gives (same code in StudentGradeProcessor1.java:118-141) |
| `Processor.GradeProcessor.ParseCourseLine` | Testing/StudentGradeProcessor.java:113-122 | the split and the four parses of line `i` give that line's parse |
| `Processor.GradeProcessor.CourseFileLine` | Testing/StudentGradeProcessor.java:124-130 | one parsed line takes the step `StepOf` describes, and only that step changes the map |
| `Processor.GradeProcessor.AddCourseTo` | Testing/StudentGradeProcessor.java:130 | `addCourse` on the stored student is `AddCourse` on the map's contents |
| `Processor.GradeProcessor.WriteOutputFile` | Testing/StudentGradeProcessor.java:135-152 | the printed lines are `Report` of the map: header, then rows in ascending id order |
| `Processor.GradeProcessor.WriteOutputFileUnordered` | Testing/StudentGradeProcessor1.java:144-157 | the printed lines are the unsorted report for some enumeration of the map's keys |
| `Processor.GradeProcessor.StudentLines` | Testing/StudentGradeProcessor.java:143-149 | the inner loop prints one line per course of the student, in list order |
| `Viewer.Cells` | Testing/FinalGradesViewer.java:92-96 | the trimmed comma parts of one line; `CellsOfJoin` and `CellsOfRow` show it reads back joined fields |
| `Viewer.TableOf` | Testing/FinalGradesViewer.java:70-102 | the table a file gives: the header's cells as columns, then each further line's cells cut or padded to the column count; `TableOfLines` states this split, `JustifyExamples` shows the cut and padded rows, and `TableOfPrinted`, `ReportReadsBack` and `UnorderedReportReadsBack` show what it is for a written report |
| `Viewer.LoadTableModel` | Testing/FinalGradesViewer.java:70-102 | no lines gives the empty-file error; otherwise the table `TableOf` describes: the header's trimmed comma parts, then one row per line, in file order, holding exactly one cell per column |
| `Viewer.Justify` | Testing/FinalGradesViewer.java:100 | `Vector.setSize(columnCount)` on a row, as the `DefaultTableModel` constructor does it: exactly `width` cells, the row's own cells first and absent (null) cells after the row's end |
| `Viewer.JustifyFits` | Testing/FinalGradesViewer.java:100 | a row of exactly the column count keeps all its cells, every one present |
| `Viewer.JustifyRowsFit` | Testing/FinalGradesViewer.java:100 | when every row has the column count, justifying the rows changes nothing but marking each cell present |
| `Viewer.TableOfLines` | Testing/FinalGradesViewer.java:70-102 | a header line followed by further lines gives the header's cells as columns and the further lines' cells justified to that many columns |
| `Viewer.JustifyExamples` | Testing/FinalGradesViewer.java:89-100 | under the header `a,b`, the line `x,y,z` is cut to `x`, `y`; the empty line is one empty cell and one null; `,,` is two nulls |
| `Viewer.HeaderColumns` | Testing/FinalGradesViewer.java:78-87 | the column names are the header's trimmed comma parts, in order |
| `Viewer.ColumnVector` | Testing/FinalGradesViewer.java:84-87 | the vector holds the array's elements in order |
| `Viewer.TrimInPlace` | Testing/FinalGradesViewer.java:79-81 | each array element is replaced by its trimmed value |
| `Viewer.DataRows` | Testing/FinalGradesViewer.java:89-98 | one row per line after the header, in file order |
| `Viewer.RowOf` | Testing/FinalGradesViewer.java:92-97 | a row is the line's trimmed comma parts |
| `Viewer.TrimPadded` | Testing/FinalGradesViewer.java:94-96 | trimming a clean field, with or without one leading space, gives the field |
| `Viewer.JoinFour` | Testing/StudentGradeProcessor.java:144 | a printed row is its four fields joined by commas, with the padding in front of the last three |
| `Viewer.CellsOfJoin` | Testing/FinalGradesViewer.java:92-96 | the cells of comma-joined parts are the trimmed parts |
| `Viewer.CellsOfFields` | Testing/FinalGradesViewer.java:92-96 | four clean fields printed with either separator read back as those four fields |
| `Viewer.MapFour` | Testing/FinalGradesViewer.java:94-96 | mapping over four elements gives the four images |
| `Viewer.CellsOfRow` | Testing/FinalGradesViewer.java:92-96 | a printed report row reads back as its id, name, code and grade text |
| `Viewer.MapPointwise` | Testing/FinalGradesViewer.java:79-87 | a sequence agreeing with `f` at every index is the map of `f` |
| `Viewer.MapEqual` | Testing/FinalGradesViewer.java:91-98 | two maps that agree element by element are equal |
| `Viewer.RowsReadBack` | Testing/FinalGradesViewer.java:89-98 | printed rows with clean fields read back as their four text cells |
| `Viewer.TableOfPrinted` | Testing/FinalGradesViewer.java:78-100 | a header line of four cells followed by printed rows reads back as the header's cells and the rows' cells, every cell present, because the rows already have the header's width |
| `Viewer.HeaderCells` | Testing/FinalGradesViewer.java:78-81 | both report headers read back as the four column names |
| `Viewer.RowsClean` | Testing/StudentGradeProcessor.java:142-148 | the rows of a well-formed map have clean text fields |
| `Viewer.GradesParseBack` | Testing/StudentGradeProcessor.java:144-148 | each row's grade text parses back to its grade, which lies in [0, 100] |
| `Viewer.ReportReadsBack` | Testing/FinalGradesViewer.java:70-102 | the sorted report reads back as the four column names and one row of written fields per course |
| `Viewer.UnorderedReportReadsBack` | Testing/FinalGradesViewer.java:70-102 | the unsorted report, in any map order, reads back the same way |
| `ReportGenerator.NewRecord` | Testing/Main.java:52-57 | the record keeps id, name and code, and stores the grade rounded to a whole number of tenths within 0.05 |
| `ReportGenerator.NewRecordOfRecord` | Testing/Main.java:56-62 | building a record again from its getters' values gives the same record |
| `ReportGenerator.Tokens` | Testing/Main.java:75 | no token contains a space |
| `ReportGenerator.CollectSucceeds` | Testing/Main.java:74-82 | collecting outcomes succeeds exactly when each does, and then holds each value in order |
| `ReportGenerator.CollectFirstError` | Testing/Main.java:76-78 | the first failing outcome decides the error |
| `ReportGenerator.CollectFailurePersists` | Testing/Main.java:76-78 | once a prefix has failed, the rest changes nothing |
| `ReportGenerator.ParseLine` | Testing/Main.java:75-79 | one line of `parse`: its trimmed space tokens, rejected with those tokens unless `isValid`, else `toModel`; `OneTokenIsNotAName`, `CourseLineRejected` and `BlankLineRejected` state its rejections |
| `ReportGenerator.ParseAll` | Testing/Main.java:71-83 | `parse` over all lines; `ParseAllSucceeds` and `ParseAllFirstError` state what it gives |
| `ReportGenerator.ParseAllSucceeds` | Testing/Main.java:71-83 | parsing succeeds exactly when every line does, and then gives one model per line, in file order |
| `ReportGenerator.ParseAllFirstError` | Testing/Main.java:76-79 | the first line that fails decides the exception, whatever the later lines hold |
| `ReportGenerator.ParseOneLine` | Testing/Main.java:75-79 | the loop body: a line whose tokens fail `isValid` is rejected with those tokens, otherwise `toModel` decides |
| `ReportGenerator.Parse` | Testing/Main.java:71-83 | the loop's result is `ParseAll` of the lines |
| `ReportGenerator.NameIsValid` | Testing/Main.java:92-94 | at least two tokens; `OneTokenIsNotAName` shows a one-token line is rejected |
| `ReportGenerator.NameToModel` | Testing/Main.java:97-99 | the first token as id, the rest joined by spaces as name; `NameLineRoundTrip` shows a written name line reads back |
| `ReportGenerator.NameLineRoundTrip` | Testing/Main.java:92-99 | `id name` with a space-free id reads back as that id and that name, spaces inside the name included |
| `ReportGenerator.OneTokenIsNotAName` | Testing/Main.java:92-94 | a line with no space after trimming is rejected |
| `ReportGenerator.CourseIsValid` | Testing/Main.java:105-107 | exactly six tokens; `CourseLineRejected` shows any other count is rejected |
| `ReportGenerator.CourseToModel` | Testing/Main.java:110-119 | a course of the six tokens; `CourseTokens` states when it succeeds, its values, and which score's error it reports |
| `ReportGenerator.Score` | Testing/Main.java:114-117 | a score token is accepted exactly when it parses, and then gives the parsed value; otherwise the error names the token |
| `ReportGenerator.CourseTokens` | Testing/Main.java:109-119 | six tokens make a course exactly when the last four parse, whatever values they hold (no range check); the course holds the tokens and values; otherwise the first bad score is the error |
| `ReportGenerator.CourseLineRejected` | Testing/Main.java:105-107 | a line without exactly six tokens is rejected before any number is parsed |
| `ReportGenerator.BlankLineRejected` | Testing/Main.java:75-78 | a blank line has one empty token and both parsers reject it |
| `ReportGenerator.SameGradeAsProcessor` | Testing/Main.java:136 | the stored grade equals `computeFinalGrade` of StudentGradeProcessor for the same scores |
| `ReportGenerator.NameMap` | Testing/Main.java:127-130 | the id-to-name map `process` builds; `NameMapKeys` and `NameMapLastWins` state its keys and values |
| `ReportGenerator.NameMapKeys` | Testing/Main.java:127-130 | the map holds exactly the ids of the student list |
| `ReportGenerator.NameMapLastWins` | Testing/Main.java:128-130 | an id maps to the name of the last student with that id |
| `ReportGenerator.Joined` | Testing/Main.java:132-139 | at most one record per course, and only for ids in the map |
| `ReportGenerator.JoinedWithId` | Testing/Main.java:133-139 | the joined records of an id: none when unknown, else one per course of that id, in course order, under its mapped name |
| `ReportGenerator.WithIdAppend` | Testing/Main.java:140 | the records of one id in two runs are those of the first, then those of the second |
| `ReportGenerator.InsertByIdPermutes` | Testing/Main.java:140 | inserting adds exactly the one record |
| `ReportGenerator.InsertByIdSorted` | Testing/Main.java:140 | inserting into records sorted by id keeps them sorted |
| `ReportGenerator.InsertByIdStable` | Testing/Main.java:140 | an inserted record goes after the records of its own id |
| `ReportGenerator.InsertedBelow` | Testing/Main.java:140 | inserting a record below `last` keeps everything at or before `last` |
| `ReportGenerator.SortById` | Testing/Main.java:140 | the stable sort by id; `SortByIdFacts` shows it sorted, a permutation and stable |
| `ReportGenerator.SortByIdFacts` | Testing/Main.java:140 | the sort orders records by id, is a permutation, and keeps the records of each id in input order (stable) |
| `ReportGenerator.Processed` | Testing/Main.java:126-142 | what `process` returns; `ProcessedFacts` states its length, order, ids and per-id records, and `Process` computes it |
| `ReportGenerator.ProcessedFacts` | Testing/Main.java:126-142 | `process` gives at most one record per course, sorted by id, every id a listed student's; the records of each id are its courses in course order under the last listed name, and none for unknown ids |
| `ReportGenerator.Process` | Testing/Main.java:126-142 | the loops and the sort compute `Processed` of the lists |
| `ReportGenerator.RecordLine` | Testing/Main.java:153-157 | one written line; `RecordLineTokens` shows it tokenizes back into its fields and grade |
| `ReportGenerator.PiecesAroundSpace` | Testing/Main.java:153 | text, a space and more text split into the pieces of each |
| `ReportGenerator.SplitOfTrimmed` | Testing/Main.java:75 | a string with nothing to trim splits into all its pieces |
| `ReportGenerator.FieldsLinePieces` | Testing/Main.java:153-157 | the pieces of four space-joined fields |
| `ReportGenerator.FieldsLineTokens` | Testing/Main.java:153-157 | four space-joined fields tokenize back into the id, the name's words, the code and the grade text |
| `ReportGenerator.RecordLineTokens` | Testing/Main.java:153-157 | a written line tokenizes back into its fields, and its grade text parses back to the stored grade |
| `ReportGenerator.Write` | Testing/Main.java:150-160 | exactly one line per record, in list order, `id name code grade`, no header |

## Left out

- The GUIs: `Main.main` and `MainWindow` (Testing/Main.java:1-6, 163-224), the Swing frame of
  `FinalGradesViewer` and `SimpleScreen`. They are dialogs, labels and console messages with no
  logic of their own.
- Both processors' `main` methods (StudentGradeProcessor.java:82-92): they call `readNameFile`,
  `readCourseFile` and `writeOutputFile` in that order and print the first exception's message,
  so no report is written after a failed read. That sequence and its messages are not modelled;
  the three steps are.
- Files: opening, reading, writing and closing them, and their `IOException`s. A file is the
  sequence of its lines, and a written file is the sequence of its printed lines, without the
  line separators.
- The warnings `readCourseFile` prints on the error stream. They become the returned list of
  skipped ids.
- IEEE-754 doubles: scores and grades are exact reals. The binary rounding of `*0.2` and `*0.4`,
  and the saturation of `Math.round` on huge values, are not modelled.
- `Double.parseDouble` accepts only an optional sign, digits and an optional point here.
  Exponents, `Infinity`, `NaN`, hexadecimal floats and the `d`/`f` suffixes are not modelled.
- `%.1f` assumes a locale whose decimal separator is `.`. Characters are Dafny characters, not
  UTF-16 code units.
- The null checks of `Person`, `Course` and `addCourse`: the readers never pass null.
- The `Person` check is made before `new Student`. Since the constructor only throws or stores,
  the effect is the same.
- `readNameFile` and `readCourseFile` are specified over the parse of every line, applied in
  order until the first failure. Parsing is pure and the methods parse one line at a time, so
  this is the source's order.
- `StudentGradeProcessor1.java` has the same code for `Person`, `Student`, `Course` and both
  readers as `StudentGradeProcessor.java`, up to comments and line breaks. It is modelled by the
  same members; only its writer has its own method.
- The `HashMap` iteration order is left open: the unsorted writer picks any remaining key, and
  its contract holds for every enumeration of the keys.
- `List.sort` in `Main.java` is the library's stable sort. It is modelled by the function
  `SortById`, whose result is the only stable sort by id; the library's in-place algorithm is
  not modelled.
- `ArrayList`, `Vector` and `DefaultTableModel` are sequences and a `TableModel` value. A null
  cell of the table is an absent `Option`. The table's later editing methods are not modelled.
- `ReportGenerator.ParseNames` and `ReportGenerator.ParseCourses` are the generic parse applied
  with each parser's `isValid` and `toModel`. Their properties are the generic lemmas
  instantiated, so they have no lemmas of their own.
