# Student records store — a verified Dafny model

The system keeps four collections in memory:

- students, keyed by id;
- subjects, keyed by upper-cased code;
- enrollments, a set of (student id, subject code) pairs;
- records, one per pair, each holding the grades given so far and an attendance count.

Each collection is stored one line per entry in a text file, as `a | b | c` fields. The store offers five operations: add a student, add a subject, enrol a student, add a grade, mark attendance. Each one validates first and refuses with an error before it changes anything. The store also produces a per-student report and a listing of all students.

The model has eleven modules:

- `Wrappers`: `Option`, `Result` and `Outcome` stand in for Python's `None` returns and raised `ValueError`s. `Parsed` is the result of reading one stored line: an entity, a line too short to be one (skipped), or a numeric field Python's `int()`/`float()` would reject (`BadNumber`).
- `Text`: Python's `strip`, `strip(chars)`, `split`, `join`, `startswith` and `upper`. Also `Fields`, the `[p.strip() for p in line.split('|')]` every codec starts from.
- `Numerals`: `str(n)` and `int(text)` for integers.
- `Ordering`: Python's string order, and the ascending sequence `sorted()` gives for a set of strings.
- `Students`, `Subjects`, `Records`: the entities and their line codecs.
  - `Records.Record` is a class, because `add_grade` and `mark_attendance` update it in place. Its value is the datatype `RecordState`.
- `Loading`: the loaders' fold of a parser over the lines of a file, and saving as "write every value". It proves that what is saved reloads as the same collection.
- `Reports`: the student report and the listing, as structured values.
- `Store`: the class `SystemManager`. It has the four collections as fields and one method per operation.
  - Methods that can be refused return `Outcome<Error>` instead of raising.
  - Each method states its whole new state. Its modifies clause names the collections it may change, field by field.
- `Scenarios`: short sessions on a fresh store, checked against the store's contracts.

## Model

| member | source | states |
|---|---|---|
| Store.SystemManager.constructor | models/manager.py:16-20 | a new store holds no students, subjects, enrollments or records |
| Store.SystemManager.AddStudent | models/manager.py:105-110 | refused with DuplicateStudent exactly when the id is taken, and then students is unchanged; otherwise students gains exactly id ↦ Student(id, name, section); no other collection can change |
| Store.SystemManager.AddSubject | models/manager.py:113-118 | the code is upper-cased before both the duplicate check and the insert; refused with DuplicateSubject exactly when the upper-cased code is taken, with subjects unchanged; otherwise exactly that entry is added, under a key with no lowercase letter |
| Store.SystemManager.EnrollStudent | models/manager.py:121-134 | errors in the source's order (NoSuchStudent, then NoSuchSubject for the upper-cased code, then AlreadyEnrolled); on refusal enrollments and records are unchanged; on success the pair is added and the pair has a record, a new empty one unless one existed, which is left as it was |
| Store.SystemManager.AddGrade | models/manager.py:138-148 | refused with NotEnrolled exactly when (id, upper(code)) is not enrolled, and then no record is created or changed; otherwise only the record at that key changes: its existing or fresh value with the grade appended; students, subjects and enrollments are outside its frame |
| Store.SystemManager.MarkAttendance | models/manager.py:151-161 | as AddGrade, with the record's value after one more session, attended or not |
| Store.SystemManager.GradeRecord | models/manager.py:144-148 | get-or-create the record, then append the grade: every other record's value is untouched |
| Store.SystemManager.AttendRecord | models/manager.py:157-161 | get-or-create the record, then count the session: every other record's value is untouched |
| Store.SystemManager.RecordFor | models/manager.py:144-147 | the returned record is the one stored at the key; an existing record is returned unchanged and the map is kept; otherwise a fresh empty record is stored and returned |
| Store.RecordOrFresh | models/manager.py:144-147 | records.get(key) or a fresh Record(sid, code): in a map keeping each record under its own pair, the result belongs to the pair asked for, and it is consistent (0 ≤ present ≤ total) when every stored record is; what the store then holds is stated by the get-or-create ensures of EnrollStudent, AddGrade and MarkAttendance |
| Store.SystemManager.LoadStudents | models/manager.py:31-40 | the loop builds exactly the fold of Student.deserialize over the lines, later lines overwriting earlier ones, and keeps every student stored under its own id |
| Store.SystemManager.LoadSubjects | models/manager.py:42-51 | succeeds exactly when no line has a credit-hours field int() rejects; on success the subjects are the fold over the lines, each stored under its code; otherwise UnreadableLine |
| Store.SystemManager.LoadEnrollments | models/manager.py:53-64 | the enrollments after the loop are the old set plus the pair read from every line with at least two fields |
| Store.SystemManager.LoadRecordLine | models/manager.py:70-76 | one line of the records loop: a record line is stored under its (id, code); a short line changes nothing; a line with an unreadable number fails |
| Store.SystemManager.StoreRecord | models/manager.py:73-76 | a new Record object for the parsed value goes under its key; every other record's value is unchanged |
| Store.SystemManager.LoadRecords | models/manager.py:66-76 | succeeds exactly when no line holds a grade or count the parser rejects; on success the record values are the fold of Record.deserialize over the lines |
| Store.SystemManager.LoadAll | models/manager.py:25-29 | loads the four files in the source's order; succeeds exactly when the subjects and records files are readable; then every collection is the fold of its lines |
| Store.LoadStopsAt | models/manager.py:45-51 | a single unreadable line makes the whole load fail, whatever follows it |
| Store.StudentLineKeeps | models/manager.py:38-40 | a student line never makes the load fail and keeps each student stored under its own id |
| Store.SubjectLineKeeps | models/manager.py:49-51 | a readable subject line keeps each subject stored under its own code |
| Store.SystemManager.StudentReport | models/manager.py:165-200 | refused with NoSuchStudent exactly when the id is unknown; otherwise the loop's entries and snapshot equal ReportOf: one entry per enrolled code in ascending order, and the mean of the averages of the graded entries |
| Store.SystemManager.ListAllStudentsText | models/manager.py:202-209 | the text built by the loop is the listing: "(no students)" for none, otherwise the rows in ascending id order joined by newlines |
| Reports.DetailOf | models/manager.py:183-189 | a record's report shows its grades and counts; the average is N/A exactly when there are no grades, the percentage exactly when no session was held |
| Reports.EntryOf | models/manager.py:180-193 | states nothing itself; that each entry shows the subject exactly when the code is known (UNKNOWN otherwise) and the record's detail exactly when the pair has one is stated by ReportEntries, and its average by EntryOfFaithful |
| Reports.EnrolledCodes | models/manager.py:175 | a code is listed exactly when the student is enrolled in it |
| Reports.Entries | models/manager.py:179-193 | states nothing itself; one entry per enrolled code, each once, in ascending order, is stated by ReportEntries |
| Reports.EntriesNext | models/manager.py:179-193 | one more code adds its entry at the end |
| Reports.GradedAveragesNext | models/manager.py:190-191 | one more entry adds its average to total_grades exactly when its record has a grade |
| Reports.ReportOf | models/manager.py:165-200 | the report of a known student: the entries of the sorted enrolled codes and their overall snapshot; its content is stated by ReportEntries, OverallNoneIff and OverallWithin |
| Reports.GradedAverages | models/manager.py:178-191 | total_grades: the averages of the graded entries in report order; stated by GradedAveragesNext, GradedAveragesEmpty and GradedAveragesWithin |
| Reports.Overall | models/manager.py:195-197 | sum(total_grades)/len(total_grades), or None when it is empty; stated by OverallNoneIff and OverallWithin |
| Reports.ReportEntries | models/manager.py:175-193 | the report lists each enrolled subject exactly once, in strictly ascending code order, and no other, each with its subject and record |
| Reports.GradedAveragesEmpty | models/manager.py:190-191 | total_grades is empty exactly when no entry has a record with a grade |
| Reports.OverallNoneIff | models/manager.py:195-199 | the overall snapshot is N/A exactly when no enrolled subject has a record with a grade |
| Reports.GradedAveragesWithin | models/manager.py:184-191 | every collected average lies between the lowest and the highest grade on the report |
| Reports.OverallWithin | models/manager.py:195-197 | the overall snapshot lies between the lowest and the highest grade on the report |
| Reports.EntryOfFaithful | models/manager.py:183-184 | each entry's average is the average of the grades it shows |
| Reports.StudentRow | models/manager.py:208 | one listing row: id, name and section joined by the separator with spaces |
| Reports.Listing | models/manager.py:202-209 | "(no students)" for none, otherwise the rows of the ascending ids joined by newlines; its lines are stated by ListingLines |
| Reports.Rows | models/manager.py:206-208 | states nothing itself; that the listing's lines are the rows of the students in ascending id order is stated by ListingLines |
| Reports.RowsNext | models/manager.py:206-208 | one more id adds its row at the end |
| Reports.ListingLines | models/manager.py:202-209 | when no field holds a newline, the lines of a non-empty listing are exactly the students' rows, one per student, in ascending id order |
| Ordering.SortedElements | models/manager.py:179 | sorting a set gives the ascending sequence of exactly its elements |
| Ordering.SortedOf | models/manager.py:206 | sorted(keys) is ascending, holds exactly the keys, and has one element per key |
| Ordering.AscendingDetermined | models/manager.py:206 | two ascending sequences with the same elements are equal, so the sorted order is unique |
| Ordering.BelowIrreflexive | models/manager.py:179 | Python's string order is irreflexive |
| Ordering.BelowTransitive | models/manager.py:179 | Python's string order is transitive |
| Ordering.BelowTotal | models/manager.py:179 | Python's string order is total |
| Ordering.MinimumExists | models/manager.py:179 | every non-empty set of strings has a least element |
| Text.UpperNormalizes | models/manager.py:114 | upper() leaves no lowercase letter and is idempotent, so a stored code is its own normal form |
| Text.UpperFixedPoints | models/manager.py:114 | upper() leaves a code alone exactly when it has no lowercase letter |
| Text.Strip | models/student.py:12 | str.strip(): removes Python's whitespace from both ends; stated by TrimTrims and TrimPadded |
| Text.Split | models/student.py:12 | str.split on the separator: the text up to each separator, then the rest; at least one part, none holding the separator (SplitPartsFree), and joining gives the text back (JoinSplit) |
| Text.Upper | models/manager.py:114 | str.upper() on the ASCII letters; stated by UpperNormalizes and UpperFixedPoints |
| Text.Fields | models/student.py:12 | the fields of a line are its separator-delimited parts stripped: none holds a separator or edge whitespace |
| Text.JoinSplit | models/student.py:12 | joining the parts of a split at the same separator gives the line back |
| Text.FieldsOfStripped | models/manager.py:36 | stripping a line before parsing it does not change its fields |
| Text.SeparatedIsNotBlank | models/manager.py:37 | a line with two fields or more is never skipped as blank |
| Numerals.IntToString | models/subject.py:8 | str(n) for an int; its shape is stated by IntTextShape and IntTextFacts |
| Numerals.ParseInt | models/subject.py:5 | int(text): optional sign and decimal digits inside whitespace, None for anything else; stated by ParseIntRoundTrip |
| Numerals.ParseIntRoundTrip | models/subject.py:5 | int(str(n)) == n for every integer n |
| Students.WrittenAsOneLine | models/student.py:7-8 | when no field holds a line break, the student's line is one whole file line, its only line break at its end (its fields are stated by SerializeIsStoredLine) |
| Students.Deserialize | models/student.py:10-15 | no student exactly when the line has fewer than three fields; otherwise the first three fields, stripped |
| Students.SerializeIsStoredLine | models/student.py:7-8 | the line is the three fields joined by the separator with a space on each side, then a newline |
| Students.RoundTrip | models/student.py:7-15 | deserialize(serialize(s)) == s when no field holds the separator or edge whitespace |
| Students.IgnoresExtraFields | models/student.py:12-15 | anything after a third separator is ignored |
| Students.SeparatorInNameSplitsIt | models/student.py:7-15 | a name holding the separator between two words reads back with the first word as name and the second as section: the section is lost |
| Subjects.WrittenAsOneLine | models/subject.py:7-8 | when code and name hold no line break, the subject's line with str(credit_hours) is one whole file line |
| Subjects.Deserialize | models/subject.py:10-15 | no subject exactly when the line has fewer than three fields; int() failure exactly when the third field is no integer numeral |
| Subjects.SerializeIsStoredLine | models/subject.py:7-8 | the line is code, name and str(credit_hours) joined by the separator with a space on each side, then a newline |
| Subjects.RoundTrip | models/subject.py:7-15 | deserialize(serialize(s)) == s for every integer credit hours, when code and name hold no separator or edge whitespace |
| Subjects.IgnoresExtraFields | models/subject.py:12-15 | anything after a third separator is ignored |
| Records.Fresh | models/record.py:2-7 | a new record has the pair's id and code, no grades and attendance 0/0 |
| Records.Record.constructor | models/record.py:2-7 | the record holds exactly the given id, code, grades and counts |
| Records.WithGrade | models/record.py:9-10 | one grade more, at the end; earlier grades, id, code and counts unchanged |
| Records.Record.AddGrade | models/record.py:9-10 | the record's new value is its old value with the grade appended |
| Records.WithAttendance | models/record.py:12-15 | total grows by one, present by one exactly when attended; grades unchanged; 0 ≤ present ≤ total is preserved |
| Records.Record.MarkAttendance | models/record.py:12-15 | the record's new value is its old value after one more session, and 0 ≤ present ≤ total is preserved |
| Records.Mean | models/manager.py:195-197 | None exactly for no values; otherwise the value times the count is the sum |
| Records.MeanWithin | models/manager.py:195-197 | a mean lies between any bounds of its values |
| Records.SumWithin | models/record.py:17-20 | a sum of n values within [lo, hi] lies within [n·lo, n·hi] |
| Records.Average | models/record.py:17-20 | None exactly when there are no grades; otherwise average × count == sum |
| Records.AverageWithin | models/record.py:17-20 | the average lies between the lowest and the highest grade |
| Records.AttendancePercent | models/record.py:22-25 | None exactly when total is 0; otherwise percent × total == 100 × present |
| Records.PercentWithin | models/record.py:22-25 | the percentage lies in [0, 100] when 0 ≤ present ≤ total |
| Records.WrittenAsOneLine | models/record.py:27-29 | when id and code hold no line break, the record's line with its grades and attendance fields is one whole file line |
| Records.FieldsAreOneLine | models/record.py:28-29 | the written grades and attendance fields never hold a line break |
| Records.ParseGrades | models/record.py:42-46 | the grades part: no "grades=" label is no grades, otherwise the text after it stripped of whitespace and brackets is read; its results are stated by Deserialize, Defaults, EmptyGradeList and GradesFieldRoundTrip |
| Records.ParseGradeItems | models/record.py:45-46 | an empty inner text is no grades, otherwise its comma-separated items are read by ParseGradeList |
| Records.ParseAttendance | models/record.py:49-54 | the attendance part: no "attendance=" label is 0/0, otherwise the stripped text after it is read by ParseCounts; stated by Defaults and AttendanceFieldRoundTrip |
| Records.ParseCounts | models/record.py:50-54 | without a '/' the counts are 0/0; otherwise int() of both sides of the first '/' |
| Records.ParseGradeList | models/record.py:45-46 | float() failure exactly when a non-blank item is no integer numeral; the grades read are stated by GradeListItems and BlankItemDropped |
| Records.GradeListItems | models/record.py:46 | a list that reads holds one grade per non-blank item, in order, each the number that item reads as |
| Records.BlankItemDropped | models/record.py:46 | a blank item anywhere in the list is dropped: the list reads as it would without it |
| Records.Deserialize | models/record.py:31-55 | no record exactly when the line has fewer than four fields; a number failure exactly when the grades or the attendance part cannot be read |
| Records.GradeListRoundTrip | models/record.py:28 | the grade items written read back as the same grades |
| Records.GradesFieldRoundTrip | models/record.py:28-29 | the "grades=[…]" field written reads back as the same grades |
| Records.AttendanceFieldRoundTrip | models/record.py:29 | the "attendance=p/t" field written reads back as the same counts |
| Records.RoundTrip | models/record.py:27-55 | deserialize(serialize(r)) recovers id, code, grades and counts when id and code hold no separator or edge whitespace |
| Records.Defaults | models/record.py:41-54 | with neither prefix the record has no grades and 0/0; with no attendance prefix or no '/' the counts are 0/0 |
| Records.EmptyGradeList | models/record.py:42-46 | "grades=[]" and "grades=" both read as no grades |
| Records.IgnoresExtraFields | models/record.py:33-40 | anything after a fourth separator is ignored |
| Loading.LoadLines | models/manager.py:35-40 | the `for line in f` loop of a keyed loader: each line's step in turn, stopping at the first number failure; its meaning is stated by LoadFailsIff, LoadedKeys, LastLineWins and LoadKeeps |
| Loading.LoadLine | models/manager.py:38-40 | states nothing itself; what one line does is stated by LoadFailsIff (a number failure stops the load), LastLineWins (an entity is stored under its key, the last one winning) and LoadKeeps (a key no line yields keeps its value) |
| Loading.LoadFailsIff | models/manager.py:42-51 | a load fails exactly when some line has a number failure |
| Loading.LoadedKeys | models/manager.py:35-40 | a key is loaded exactly when it was there before or some line yields it |
| Loading.LastLineWins | models/manager.py:35-40 | for a repeated key the last line that yields it wins |
| Loading.LoadKeeps | models/manager.py:35-40 | a key no line yields keeps its earlier value |
| Loading.Saved | models/manager.py:84-92 | states nothing itself; that the saved lines load back as the same map is stated by SaveReload |
| Loading.SaveReload | models/manager.py:84-102 | loading what was saved, in any order covering the keys, gives back the same map |
| Loading.StudentEntry | models/manager.py:38-40 | a student line yields the student under its own id and never fails |
| Loading.SubjectEntry | models/manager.py:49-51 | a subject line yields the subject under its own code |
| Loading.RecordEntry | models/manager.py:73-76 | a record line yields the record under its (id, code) |
| Loading.StudentsReload | models/manager.py:84-87 | when no field holds a separator, a line break or edge whitespace, each saved student is one whole line of the file, and the file reloads as the same students |
| Loading.SubjectsReload | models/manager.py:89-92 | when no code or name holds a separator, a line break or edge whitespace, each saved subject is one whole line and the file reloads as the same subjects |
| Loading.RecordsReload | models/manager.py:99-102 | when no id or code holds a separator, a line break or edge whitespace, each saved record is one whole line and the file reloads as the same records |
| Loading.PairOf | models/manager.py:60-64 | a pair exactly for lines with at least two fields, from the first two stripped fields |
| Loading.LoadSet | models/manager.py:57-64 | the enrollments loop: each line that gives a pair adds it; its meaning is stated by LoadSetIff |
| Loading.PairWrittenAsOneLine | models/manager.py:97 | when neither id nor code holds a line break, the enrollment line (the two joined by the separator with spaces, then a newline) is one whole file line |
| Loading.LoadSetIff | models/manager.py:53-64 | a pair is loaded exactly when it was there before or some line yields it |
| Loading.PairRoundTrip | models/manager.py:94-97 | an enrollment line written reads back as the same pair |
| Loading.PairsReload | models/manager.py:94-97 | when no id or code holds a separator, a line break or edge whitespace, each saved pair is one whole line and the enrollments, in any order listing each pair, reload as the same set |
| Scenarios.CodesIgnoreCase | models/manager.py:113-118 | adding "cs101" then "CS101" to a fresh store: the second is a duplicate |
| Scenarios.EnrollmentChecks | models/manager.py:121-131 | enrolling in "math" before it exists fails with NoSuchSubject; after adding "MATH", "math" enrols and "MATH" is then AlreadyEnrolled |

## Left out

- File I/O is not modelled. That covers creating the data directory and files, opening and reading them, and the `_save_*` writers (models/manager.py:10-14, 32-34, 84-102). A loader takes the file's lines as a parameter. Saving is `Loading.Saved`: it serializes each value in a given order.
- Dict insertion order, which decides the order of the saved students, subjects and records, is not modelled. The save/reload lemmas take any order that lists each key once.
- The `sorted()` order of saved enrollments (models/manager.py:96) is not fixed either. `Loading.PairsReload` holds for every order.
- The command-line menu and its helpers (models/manager.py:211-304) are `input`/`print` loops and are left out.
- Report text is not modelled. `StudentReport` returns the report as a structured value. The labels, the `round(…, 2)` rendering, the " cr" credit text and `str(g)` for grades are left out, so `StudentReport` states the content but not the text.
- Grades are integers. The source stores `float(grade)` (models/record.py:10, models/manager.py:148). The model covers the integral grades that the written form `str(int(g))` reads back. Averages and percentages are exact reals, not IEEE floats.
- Records.ParseGradeList: accepts only integer numerals as grade items. Python's `float()` also reads texts like "85.5", "1e3" or "nan". The model treats a line holding one as a number failure.
- Numerals.ParseInt: `int()` is modelled on optional-sign ASCII digits with surrounding whitespace. Underscores between digits and non-ASCII digits, which Python also accepts, read as failures here.
- Text.Upper: upper-cases the ASCII letters only. Python's `str.upper()` also maps other scripts, and some letters, like 'ß', to two characters.
- Store.SystemManager.AddSubject: takes the credit hours as an `int`. In the source, `Subject(code, name, credit_hours)` calls `int(credit_hours)` inside `add_subject` (models/manager.py:117, models/subject.py:5). That happens after the code is upper-cased and checked for duplicates, and before the insert. So a duplicate code with unreadable hours still gives 'Subject code already exists', but a new code with unreadable hours raises `int()`'s `ValueError` and stores nothing. That exception path, and the truncation of a float argument, are not modelled.
- Store.SystemManager.LoadAll: in the source, a `ValueError` from `int()`/`float()` escapes `load_all` and so the constructor. The model returns `Fail(UnreadableLine)` and does not state the partial state the earlier loaders left behind. `Store.SystemManager.constructor` builds the empty store before loading.
- Splitting a file's text into lines is not modelled: the loaders take the lines as given. Each line is stripped and skipped when blank, as in the source (`Loading.StudentEntry`, `SubjectEntry`, `RecordEntry` and `PairOf`); `Text.FieldsOfStripped` and `Text.SeparatedIsNotBlank` show that the strip changes no field and that no line of two fields is skipped.
- A field holding a line break is written as is and cut in two by the file, so it does not reload. The reload lemmas require fields without line breaks (`Text.OneLine`) and prove that each saved text is then one whole file line; what loading such a cut file gives is not stated.
