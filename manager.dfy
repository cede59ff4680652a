/** The in-memory store (class SystemManager in models/manager.py): the
    students by id, the subjects by code, the set of enrolled
    (student id, subject code) pairs, and the records by pair. Every
    operation checks first and changes nothing when a check fails; the
    ValueError it would raise is a Fail outcome here. */
module Store {
  import opened Wrappers
  import opened Text
  import opened Ordering
  import Students
  import Subjects
  import opened Records
  import opened Loading
  import opened Reports

  /** The ValueErrors the operations raise, and the one a load raises when
      int() or float() rejects a stored number. */
  datatype Error =
    | DuplicateStudent  // 'Student ID already exists'
    | DuplicateSubject  // 'Subject code already exists'
    | NoSuchStudent     // 'No such student'
    | NoSuchSubject     // 'No such subject'
    | AlreadyEnrolled   // 'Student already enrolled in subject'
    | NotEnrolled       // 'Student not enrolled in subject'
    | UnreadableLine    // int() or float() on a stored field

  /** records.get(key), or the Record(sid, code) made when there is none.
      Either way, in a map that keeps each record under its own pair, the
      record belongs to the pair asked for, and it is consistent when every
      stored one is. */
  function RecordOrFresh(view: map<Key, RecordState>, key: Key): (s: RecordState)
    ensures (forall k :: k in view ==> KeyOf(view[k]) == k) ==> KeyOf(s) == key
    ensures (forall k :: k in view ==> Consistent(view[k])) ==> Consistent(s)
  {
    if key in view then view[key] else Fresh(key)
  }

  /** Every student is stored under its own id. */
  predicate StudentsKeyed(students: map<string, Students.Student>)
  {
    forall id :: id in students ==> students[id].id == id
  }

  /** Every subject is stored under its own code. */
  predicate SubjectsKeyed(subjects: map<string, Subjects.Subject>)
  {
    forall code :: code in subjects ==> subjects[code].code == code
  }

  /** Every record is stored under its own (student id, subject code) pair. */
  predicate RecordsKeyed(records: map<Key, Record>)
  {
    forall k :: k in records ==> records[k].studentId == k.student && records[k].subjectCode == k.subject
  }

  /** The value of each record in a map of records. */
  function ValuesOf(records: map<Key, Record>): (view: map<Key, RecordState>)
    reads records.Values
    ensures view.Keys == records.Keys
  {
    map k | k in records :: records[k].State()
  }

  class SystemManager {
    var students: map<string, Students.Student>
    var subjects: map<string, Subjects.Subject>
    var enrollments: set<Key>
    var records: map<Key, Record>

    /** Every entry is stored under its own key: a student under its id, a
        subject under its code, a record under its (id, code) pair. */
    predicate Valid()
      reads this
    {
      StudentsKeyed(students) && SubjectsKeyed(subjects) && RecordsKeyed(records)
    }

    /** The four collections, all empty, before anything is loaded. */
    constructor ()
      ensures Valid()
      ensures students == map[] && subjects == map[] && enrollments == {} && records == map[]
    {
      students := map[];
      subjects := map[];
      enrollments := {};
      records := map[];
    }

    // ----- Loading -----

    /** _load_students over the lines of the students file. A student line
        never raises, so this always succeeds. */
    method LoadStudents(lines: seq<string>)
      requires StudentsKeyed(students)
      modifies this`students
      ensures StudentsKeyed(students)
      ensures LoadLines(old(students), lines, StudentEntry) == Some(students)
    {
      for i := 0 to |lines|
        invariant StudentsKeyed(students)
        invariant LoadLines(old(students), lines[..i], StudentEntry) == Some(students)
      {
        LoadNext(old(students), lines, StudentEntry, i, students);
        StudentLineKeeps(students, lines[i]);
        students := LoadLine(students, lines[i], StudentEntry).value;
      }
      assert lines[..|lines|] == lines;
    }

    /** _load_subjects: fails, as int() on the credit hours would raise,
        exactly when some line holds credit hours that do not read. */
    method LoadSubjects(lines: seq<string>) returns (r: Outcome<Error>)
      requires SubjectsKeyed(subjects)
      modifies this`subjects
      ensures SubjectsKeyed(subjects)
      ensures r.Pass? <==> LoadLines(old(subjects), lines, SubjectEntry).Some?
      ensures r.Pass? ==> LoadLines(old(subjects), lines, SubjectEntry) == Some(subjects)
      ensures r.Fail? ==> r.error == UnreadableLine
    {
      for i := 0 to |lines|
        invariant SubjectsKeyed(subjects)
        invariant LoadLines(old(subjects), lines[..i], SubjectEntry) == Some(subjects)
      {
        LoadNext(old(subjects), lines, SubjectEntry, i, subjects);
        var next := LoadLine(subjects, lines[i], SubjectEntry);
        if next.None? {
          LoadStopsAt(old(subjects), lines, SubjectEntry, i);
          return Fail(UnreadableLine);
        }
        SubjectLineKeeps(subjects, lines[i]);
        subjects := next.value;
      }
      assert lines[..|lines|] == lines;
      r := Pass;
    }

    /** _load_enrollments over the lines of the enrollments file: a
        non-blank line with two fields or more adds the pair of its first
        two. */
    method LoadEnrollments(lines: seq<string>)
      modifies this`enrollments
      ensures enrollments == LoadSet(old(enrollments), lines, PairOf)
    {
      for i := 0 to |lines|
        invariant enrollments == LoadSet(old(enrollments), lines[..i], PairOf)
      {
        LoadSetNext(old(enrollments), lines, PairOf, i);
        match PairOf(lines[i])
        case Some(key) =>
          enrollments := enrollments + {key};
        case None =>
      }
      assert lines[..|lines|] == lines;
    }

    /** One line of the records file: a record is stored, as a new Record,
        under its pair; fails when a grade or a count does not read. */
    method LoadRecordLine(line: string) returns (r: Outcome<Error>)
      requires RecordsKeyed(records)
      modifies this`records
      ensures RecordsKeyed(records)
      ensures r.Pass? ==> LoadLine(old(ValuesOf(records)), line, RecordEntry) == Some(ValuesOf(records))
      ensures r.Fail? ==> LoadLine(old(ValuesOf(records)), line, RecordEntry).None? && r.error == UnreadableLine
    {
      r := Pass;
      match RecordEntry(line)
      case BadNumber =>
        r := Fail(UnreadableLine);
      case Short =>
      case Entity((key, s)) =>
        StoreRecord(key, s);
    }

    /** self.records[key] = a new Record holding s. */
    method StoreRecord(key: Key, s: RecordState)
      requires RecordsKeyed(records) && KeyOf(s) == key
      modifies this`records
      ensures RecordsKeyed(records)
      ensures ValuesOf(records) == old(ValuesOf(records))[key := s]
    {
      var made := new Record(s.studentId, s.subjectCode, s.grades, s.present, s.total);
      ValuesOfInsert(records, key, made);
      records := records[key := made];
    }

    /** _load_records: fails exactly when some line holds a grade or an
        attendance count that does not read. */
    method LoadRecords(lines: seq<string>) returns (r: Outcome<Error>)
      requires RecordsKeyed(records)
      modifies this`records
      ensures RecordsKeyed(records)
      ensures r.Pass? <==> LoadLines(old(ValuesOf(records)), lines, RecordEntry).Some?
      ensures r.Pass? ==> LoadLines(old(ValuesOf(records)), lines, RecordEntry) == Some(ValuesOf(records))
      ensures r.Fail? ==> r.error == UnreadableLine
    {
      ghost var start := ValuesOf(records);
      for i := 0 to |lines|
        invariant RecordsKeyed(records)
        invariant LoadLines(start, lines[..i], RecordEntry) == Some(ValuesOf(records))
      {
        LoadNext(start, lines, RecordEntry, i, ValuesOf(records));
        r := LoadRecordLine(lines[i]);
        if r.Fail? {
          LoadStopsAt(start, lines, RecordEntry, i);
          return;
        }
      }
      assert lines[..|lines|] == lines;
      r := Pass;
    }

    /** load_all: the four files in turn; a subject or record line that
        does not read stops the load (in the source the exception escapes
        the constructor). */
    method LoadAll(studentLines: seq<string>, subjectLines: seq<string>, enrollmentLines: seq<string>, recordLines: seq<string>)
      returns (r: Outcome<Error>)
      requires Valid()
      modifies this`students, this`subjects, this`enrollments, this`records
      ensures Valid()
      ensures r.Pass? <==>
        LoadLines(old(subjects), subjectLines, SubjectEntry).Some? &&
        LoadLines(old(ValuesOf(records)), recordLines, RecordEntry).Some?
      ensures r.Pass? ==>
        LoadLines(old(students), studentLines, StudentEntry) == Some(students) &&
        LoadLines(old(subjects), subjectLines, SubjectEntry) == Some(subjects) &&
        enrollments == LoadSet(old(enrollments), enrollmentLines, PairOf) &&
        LoadLines(old(ValuesOf(records)), recordLines, RecordEntry) == Some(ValuesOf(records))
    {
      LoadStudents(studentLines);
      r := LoadSubjects(subjectLines);
      if r.Fail? {
        return;
      }
      LoadEnrollments(enrollmentLines);
      r := LoadRecords(recordLines);
    }

    // ----- Operations -----

    /** add_student: a new id gains exactly its student; a known id fails
        and changes nothing. */
    method AddStudent(sid: string, name: string, section: string) returns (r: Outcome<Error>)
      requires Valid()
      modifies this`students
      ensures Valid()
      ensures r == (if sid in old(students) then Fail(DuplicateStudent) else Pass)
      ensures r.Fail? ==> students == old(students)
      ensures r.Pass? ==> students == old(students)[sid := Students.Student(sid, name, section)]
    {
      if sid in students {
        return Fail(DuplicateStudent);
      }
      students := students[sid := Students.Student(sid, name, section)];
      r := Pass;
    }

    /** add_subject: the code is upper-cased before both the check and the
        store, so the key added has no lowercase letter and codes differing
        only in case collide. */
    method AddSubject(code: string, name: string, creditHours: int) returns (r: Outcome<Error>)
      requires Valid()
      modifies this`subjects
      ensures Valid()
      ensures r == (if Upper(code) in old(subjects) then Fail(DuplicateSubject) else Pass)
      ensures r.Fail? ==> subjects == old(subjects)
      ensures r.Pass? ==> subjects == old(subjects)[Upper(code) := Subjects.Subject(Upper(code), name, creditHours)]
      ensures r.Pass? ==> NoLowercase(Upper(code))
    {
      var key := Upper(code);
      UpperNormalizes(code);
      if key in subjects {
        return Fail(DuplicateSubject);
      }
      subjects := subjects[key := Subjects.Subject(key, name, creditHours)];
      r := Pass;
    }

    /** enroll_student: checks the student, then the upper-cased subject,
        then that the pair is new; a success adds exactly the pair and makes
        sure a record exists for it, leaving an existing record as it was. */
    method EnrollStudent(sid: string, subjectCode: string) returns (r: Outcome<Error>)
      requires Valid()
      modifies this`enrollments, this`records
      ensures Valid()
      ensures r == (
        if sid !in old(students) then Fail(NoSuchStudent)
        else if Upper(subjectCode) !in old(subjects) then Fail(NoSuchSubject)
        else if Key(sid, Upper(subjectCode)) in old(enrollments) then Fail(AlreadyEnrolled)
        else Pass)
      ensures r.Fail? ==> enrollments == old(enrollments) && records == old(records)
      ensures r.Pass? ==> enrollments == old(enrollments) + {Key(sid, Upper(subjectCode))}
      ensures r.Pass? ==> (ValuesOf(records) ==
        old(ValuesOf(records))[Key(sid, Upper(subjectCode)) := RecordOrFresh(old(ValuesOf(records)), Key(sid, Upper(subjectCode)))])
    {
      var code := Upper(subjectCode);
      if sid !in students {
        return Fail(NoSuchStudent);
      }
      if code !in subjects {
        return Fail(NoSuchSubject);
      }
      var key := Key(sid, code);
      if key in enrollments {
        return Fail(AlreadyEnrolled);
      }
      enrollments := enrollments + {key};
      var _ := RecordFor(key);
      r := Pass;
    }

    /** add_grade: only for an enrolled pair; appends the grade to that
        pair's record (made afresh if there is none) and changes nothing
        else. */
    method AddGrade(sid: string, subjectCode: string, grade: int) returns (r: Outcome<Error>)
      requires Valid()
      modifies this`records, records.Values
      ensures Valid()
      ensures r == (if Key(sid, Upper(subjectCode)) in old(enrollments) then Pass else Fail(NotEnrolled))
      ensures r.Fail? ==> records == old(records) && ValuesOf(records) == old(ValuesOf(records))
      ensures r.Pass? ==> (ValuesOf(records) ==
        old(ValuesOf(records))[Key(sid, Upper(subjectCode)) := WithGrade(RecordOrFresh(old(ValuesOf(records)), Key(sid, Upper(subjectCode))), grade)])
    {
      var key := Key(sid, Upper(subjectCode));
      if key !in enrollments {
        return Fail(NotEnrolled);
      }
      GradeRecord(key, grade);
      r := Pass;
    }

    /** rec = records.get(key) or a new Record; rec.add_grade(grade). */
    method GradeRecord(key: Key, grade: int)
      requires Valid()
      modifies this`records, records.Values
      ensures Valid()
      ensures ValuesOf(records) == old(ValuesOf(records))[key := WithGrade(RecordOrFresh(old(ValuesOf(records)), key), grade)]
    {
      ghost var start := ValuesOf(records);
      var rec := RecordFor(key);
      ghost var before := ValuesOf(records);
      rec.AddGrade(grade);
      OthersUntouched(records, before, key, rec);
      Overwrite(start, key, RecordOrFresh(start, key), WithGrade(RecordOrFresh(start, key), grade));
    }

    /** mark_attendance: only for an enrolled pair; counts one more session
        on that pair's record (made afresh if there is none), attended or
        not, and changes nothing else. */
    method MarkAttendance(sid: string, subjectCode: string, present: bool) returns (r: Outcome<Error>)
      requires Valid()
      modifies this`records, records.Values
      ensures Valid()
      ensures r == (if Key(sid, Upper(subjectCode)) in old(enrollments) then Pass else Fail(NotEnrolled))
      ensures r.Fail? ==> records == old(records) && ValuesOf(records) == old(ValuesOf(records))
      ensures r.Pass? ==> (ValuesOf(records) ==
        old(ValuesOf(records))[Key(sid, Upper(subjectCode)) := WithAttendance(RecordOrFresh(old(ValuesOf(records)), Key(sid, Upper(subjectCode))), present)])
    {
      var key := Key(sid, Upper(subjectCode));
      if key !in enrollments {
        return Fail(NotEnrolled);
      }
      AttendRecord(key, present);
      r := Pass;
    }

    /** rec = records.get(key) or a new Record; rec.mark_attendance(present). */
    method AttendRecord(key: Key, present: bool)
      requires Valid()
      modifies this`records, records.Values
      ensures Valid()
      ensures ValuesOf(records) == old(ValuesOf(records))[key := WithAttendance(RecordOrFresh(old(ValuesOf(records)), key), present)]
    {
      ghost var start := ValuesOf(records);
      var rec := RecordFor(key);
      ghost var before := ValuesOf(records);
      rec.MarkAttendance(present);
      OthersUntouched(records, before, key, rec);
      Overwrite(start, key, RecordOrFresh(start, key), WithAttendance(RecordOrFresh(start, key), present));
    }

    /** records.get(key), storing a new Record(sid, code) first when there is
        none. */
    method RecordFor(key: Key) returns (rec: Record)
      requires RecordsKeyed(records)
      modifies this`records
      ensures RecordsKeyed(records)
      ensures key in records && rec == records[key]
      ensures rec.State() == RecordOrFresh(old(ValuesOf(records)), key)
      ensures ValuesOf(records) == old(ValuesOf(records))[key := RecordOrFresh(old(ValuesOf(records)), key)]
      ensures key in old(records) ==> records == old(records)
      ensures key !in old(records) ==> fresh(rec) && records == old(records)[key := rec]
    {
      if key in records {
        rec := records[key];
        ValuesOfInsert(records, key, rec);
        assert records[key := rec] == records;
      } else {
        rec := new Record(key.student, key.subject);
        ValuesOfInsert(records, key, rec);
        records := records[key := rec];
      }
    }

    // ----- Reports -----

    /** get_student_report_text: fails for an unknown id; otherwise one
        entry per enrolled subject, in ascending code order, and the overall
        snapshot taken over the subjects whose record has a grade. */
    method StudentReport(sid: string) returns (r: Result<Report, Error>)
      ensures r.Failure? <==> sid !in students
      ensures r.Failure? ==> r.error == NoSuchStudent
      ensures r.Success? ==> r.value == ReportOf(sid, students[sid], enrollments, subjects, ValuesOf(records))
    {
      if sid !in students {
        return Failure(NoSuchStudent);
      }
      var codes := SortedElements(EnrolledCodes(sid, enrollments));
      var view := ValuesOf(records);
      var entries: seq<Entry> := [];
      var totals: seq<real> := [];
      for i := 0 to |codes|
        invariant entries == Entries(sid, codes[..i], subjects, view)
        invariant totals == GradedAverages(entries)
      {
        var e := EntryOf(sid, codes[i], subjects, view);
        EntriesNext(sid, codes, subjects, view, i);
        GradedAveragesNext(entries, e);
        if Graded(e) {
          totals := totals + [e.detail.value.average.value];
        }
        entries := entries + [e];
      }
      assert codes[..|codes|] == codes;
      assert entries == Entries(sid, codes, subjects, view);
      var overall := if totals == [] then None else Some(Sum(totals) / |totals| as real);
      r := Success(Report(students[sid], entries, overall));
    }

    /** list_all_students_text: "(no students)" when there are none,
        otherwise each student's row, in ascending id order, one per line. */
    method ListAllStudentsText() returns (text: string)
      ensures text == Listing(students)
    {
      if students == map[] {
        return "(no students)";
      }
      var ids := SortedElements(students.Keys);
      assert forall j :: 0 <= j < |ids| ==> ids[j] in students;
      var lines: seq<string> := [];
      for i := 0 to |ids|
        invariant lines == Rows(students, ids[..i])
      {
        RowsNext(students, ids, i);
        lines := lines + [StudentRow(students[ids[i]])];
      }
      assert ids[..|ids|] == ids;
      assert lines == Rows(students, ids);
      text := JoinWith(lines, '\n');
    }
  }

  /** A student line read into a store whose students sit under their own
      ids keeps them so, and never fails. */
  lemma StudentLineKeeps(m: map<string, Students.Student>, line: string)
    requires StudentsKeyed(m)
    ensures LoadLine(m, line, StudentEntry).Some?
    ensures StudentsKeyed(LoadLine(m, line, StudentEntry).value)
  {
  }

  /** The same for a subject line that reads. */
  lemma SubjectLineKeeps(m: map<string, Subjects.Subject>, line: string)
    requires SubjectsKeyed(m) && LoadLine(m, line, SubjectEntry).Some?
    ensures SubjectsKeyed(LoadLine(m, line, SubjectEntry).value)
  {
  }

  /** Storing a record under a key stores its value there. */
  lemma ValuesOfInsert(records: map<Key, Record>, key: Key, rec: Record)
    ensures ValuesOf(records[key := rec]) == ValuesOf(records)[key := rec.State()]
  {
  }

  /** After the record at key changed, the values differ from before only
      at key: records under other keys are other objects. */
  lemma OthersUntouched(records: map<Key, Record>, before: map<Key, RecordState>, key: Key, rec: Record)
    requires RecordsKeyed(records) && key in records && rec == records[key]
    requires forall k :: k in records && k != key ==> k in before && records[k].State() == before[k]
    requires forall k :: k in before ==> k in records
    ensures ValuesOf(records) == before[key := rec.State()]
  {
  }

  /** Storing twice under one key keeps only the second value. */
  lemma Overwrite<K, V>(m: map<K, V>, k: K, a: V, b: V)
    ensures m[k := a][k := b] == m[k := b]
  {
  }

  /** Loading stops at the first unreadable line: once line i of the file
      does not read, the whole file does not load. */
  lemma LoadStopsAt<K, V>(m: map<K, V>, lines: seq<string>, read: string -> Parsed<(K, V)>, i: nat)
    requires i < |lines| && read(lines[i]).BadNumber?
    ensures LoadLines(m, lines, read).None?
  {
    LoadFailsIff(m, lines, read);
    assert Unreadable(lines, i, read);
  }
}
