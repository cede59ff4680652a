/** The content of a student report and of the student listing
    (get_student_report_text and list_all_students_text in
    models/manager.py), as values rather than text. */
module Reports {
  import opened Wrappers
  import opened Text
  import opened Ordering
  import Students
  import Subjects
  import opened Records

  /** What the report shows of one record: the grades, their average, and
      the attendance counts with their percentage. */
  datatype Detail = Detail(grades: seq<int>, average: Option<real>, present: int, total: int, percent: Option<real>)

  function DetailOf(s: RecordState): (d: Detail)
    ensures d.grades == s.grades && d.present == s.present && d.total == s.total
    ensures d.average.None? <==> s.grades == []
    ensures d.percent.None? <==> s.total == 0
  {
    Detail(s.grades, Average(s.grades), s.present, s.total, AttendancePercent(s.present, s.total))
  }

  /** One enrolled subject in the report: its code, the subject when it is
      known (the text shows UNKNOWN otherwise), and the detail of the record
      when there is one (the text shows "(no record)" otherwise). */
  datatype Entry = Entry(code: string, subject: Option<Subjects.Subject>, detail: Option<Detail>)

  /** The report: the student, one entry per enrolled subject, and the
      overall snapshot (the text shows N/A for None). */
  datatype Report = Report(student: Students.Student, entries: seq<Entry>, overall: Option<real>)

  /** The entry of the subject with this code in the report of student sid. */
  function EntryOf(sid: string, code: string, subjects: map<string, Subjects.Subject>, records: map<Key, RecordState>): Entry
  {
    Entry(code,
      if code in subjects then Some(subjects[code]) else None,
      if Key(sid, code) in records then Some(DetailOf(records[Key(sid, code)])) else None)
  }

  /** The codes of the subjects student sid is enrolled in. */
  function EnrolledCodes(sid: string, enrollments: set<Key>): (codes: set<string>)
    ensures forall code :: code in codes <==> Key(sid, code) in enrollments
  {
    set k | k in enrollments && k.student == sid :: k.subject
  }

  /** The entries for these codes, in their order. */
  function Entries(sid: string, codes: seq<string>, subjects: map<string, Subjects.Subject>, records: map<Key, RecordState>): seq<Entry>
  {
    seq(|codes|, i requires 0 <= i < |codes| => EntryOf(sid, codes[i], subjects, records))
  }

  /** The entries of the first i + 1 codes: those of the first i, then one
      more. */
  lemma EntriesNext(sid: string, codes: seq<string>, subjects: map<string, Subjects.Subject>, records: map<Key, RecordState>, i: nat)
    requires i < |codes|
    ensures Entries(sid, codes[..i + 1], subjects, records) ==
      Entries(sid, codes[..i], subjects, records) + [EntryOf(sid, codes[i], subjects, records)]
  {
    assert forall j :: 0 <= j < i ==> codes[..i + 1][j] == codes[..i][j];
  }

  /** The entry has a record with at least one grade. */
  predicate Graded(e: Entry)
  {
    e.detail.Some? && e.detail.value.average.Some?
  }

  /** total_grades: the averages of the graded entries, in report order. */
  function GradedAverages(entries: seq<Entry>): seq<real>
  {
    if entries == [] then []
    else
      var last := entries[|entries| - 1];
      GradedAverages(entries[..|entries| - 1]) + (if Graded(last) then [last.detail.value.average.value] else [])
  }

  /** The report of student sid: its enrolled subjects in ascending code
      order, and the overall snapshot over them. */
  ghost function ReportOf(sid: string, student: Students.Student, enrollments: set<Key>,
                          subjects: map<string, Subjects.Subject>, records: map<Key, RecordState>): Report
  {
    var es := Entries(sid, SortedOf(EnrolledCodes(sid, enrollments)), subjects, records);
    Report(student, es, Overall(es))
  }

  /** The report lists each subject the student is enrolled in exactly once,
      in strictly ascending code order, and no other; each entry shows the
      subject and the record stored for the pair, if any. */
  lemma ReportEntries(sid: string, student: Students.Student, enrollments: set<Key>,
                      subjects: map<string, Subjects.Subject>, records: map<Key, RecordState>)
    ensures var es := ReportOf(sid, student, enrollments, subjects, records).entries;
      |es| == |EnrolledCodes(sid, enrollments)| &&
      (forall i, j :: 0 <= i < j < |es| ==> Below(es[i].code, es[j].code)) &&
      (forall code :: Key(sid, code) in enrollments <==> exists i :: 0 <= i < |es| && es[i].code == code) &&
      (forall i :: 0 <= i < |es| ==> es[i] == EntryOf(sid, es[i].code, subjects, records))
  {
    var codes := SortedOf(EnrolledCodes(sid, enrollments));
    var es := ReportOf(sid, student, enrollments, subjects, records).entries;
    forall code
      ensures Key(sid, code) in enrollments <==> exists i :: 0 <= i < |es| && es[i].code == code
    {
      if code in codes {
        var i :| 0 <= i < |codes| && codes[i] == code;
        assert es[i].code == code;
      }
    }
  }

  /** One entry more adds its average when it is graded. */
  lemma GradedAveragesNext(entries: seq<Entry>, e: Entry)
    ensures GradedAverages(entries + [e]) ==
      GradedAverages(entries) + (if Graded(e) then [e.detail.value.average.value] else [])
  {
    assert (entries + [e])[..|entries|] == entries;
  }

  /** The overall snapshot: the plain mean of the graded entries' averages. */
  function Overall(entries: seq<Entry>): Option<real>
  {
    Mean(GradedAverages(entries))
  }

  /** The averages collected are those of the graded entries: there are
      none exactly when no entry is graded. */
  lemma {:induction false} GradedAveragesEmpty(entries: seq<Entry>)
    ensures GradedAverages(entries) == [] <==> forall i :: 0 <= i < |entries| ==> !Graded(entries[i])
  {
    if entries != [] {
      var init := entries[..|entries| - 1];
      GradedAveragesEmpty(init);
      assert forall i :: 0 <= i < |init| ==> init[i] == entries[i];
    }
  }

  /** The overall snapshot is N/A exactly when no enrolled subject has a
      record with a grade. */
  lemma OverallNoneIff(entries: seq<Entry>)
    ensures Overall(entries).None? <==> forall i :: 0 <= i < |entries| ==> !Graded(entries[i])
  {
    GradedAveragesEmpty(entries);
  }

  /** Each entry's average is the average of its grades, as the report
      computes it. */
  predicate Faithful(e: Entry)
  {
    e.detail.Some? ==> e.detail.value.average == Average(e.detail.value.grades)
  }

  /** Every grade of every entry lies in [lo, hi]. */
  predicate GradesWithin(entries: seq<Entry>, lo: int, hi: int)
  {
    forall i, j :: 0 <= i < |entries| && entries[i].detail.Some? && 0 <= j < |entries[i].detail.value.grades| ==>
      lo <= entries[i].detail.value.grades[j] <= hi
  }

  lemma {:induction false} GradedAveragesWithin(entries: seq<Entry>, lo: int, hi: int)
    requires forall i :: 0 <= i < |entries| ==> Faithful(entries[i])
    requires GradesWithin(entries, lo, hi)
    ensures AllWithin(GradedAverages(entries), lo as real, hi as real)
  {
    if entries != [] {
      var n := |entries| - 1;
      var init := entries[..n];
      assert forall i :: 0 <= i < n ==> init[i] == entries[i];
      GradedAveragesWithin(init, lo, hi);
      var last := entries[n];
      if Graded(last) {
        var d := last.detail.value;
        assert forall j :: 0 <= j < |d.grades| ==> lo <= d.grades[j] <= hi;
        AverageWithin(d.grades, lo, hi);
      }
    }
  }

  /** The overall snapshot lies between the lowest and the highest grade on
      the report. */
  lemma OverallWithin(entries: seq<Entry>, lo: int, hi: int)
    requires forall i :: 0 <= i < |entries| ==> Faithful(entries[i])
    requires GradesWithin(entries, lo, hi)
    requires Overall(entries).Some?
    ensures lo as real <= Overall(entries).value <= hi as real
  {
    GradedAveragesWithin(entries, lo, hi);
    MeanWithin(GradedAverages(entries), lo as real, hi as real);
  }

  /** A report entry built from the store is faithful. */
  lemma EntryOfFaithful(sid: string, code: string, subjects: map<string, Subjects.Subject>, records: map<Key, RecordState>)
    ensures Faithful(EntryOf(sid, code, subjects, records))
  {
  }

  // ----- The student listing -----

  /** One line of the listing: "id | name | section", without a newline. */
  function StudentRow(s: Students.Student): string
  {
    s.id + " | " + s.name + " | " + s.section
  }

  /** The listing's rows, in the order of the ids given. */
  function Rows(students: map<string, Students.Student>, ids: seq<string>): seq<string>
    requires forall i :: 0 <= i < |ids| ==> ids[i] in students
  {
    seq(|ids|, i requires 0 <= i < |ids| => StudentRow(students[ids[i]]))
  }

  /** The rows of the first i + 1 ids: those of the first i, then one more. */
  lemma RowsNext(students: map<string, Students.Student>, ids: seq<string>, i: nat)
    requires i < |ids| && forall j :: 0 <= j < |ids| ==> ids[j] in students
    ensures Rows(students, ids[..i + 1]) == Rows(students, ids[..i]) + [StudentRow(students[ids[i]])]
  {
    assert forall j :: 0 <= j < i ==> ids[..i + 1][j] == ids[..i][j];
  }

  /** The listing text: "(no students)" for none, otherwise one row per
      student, in ascending id order, joined by newlines. */
  ghost function Listing(students: map<string, Students.Student>): string
  {
    if students == map[] then "(no students)"
    else JoinWith(Rows(students, SortedOf(students.Keys)), '\n')
  }

  /** When no field holds a newline, the lines of a non-empty listing are the
      students' rows, one per student, in ascending id order. */
  lemma ListingLines(students: map<string, Students.Student>)
    requires students != map[]
    requires forall id :: id in students ==>
      '\n' !in students[id].id && '\n' !in students[id].name && '\n' !in students[id].section
    ensures var ids := SortedOf(students.Keys);
      Ascending(ids) && |ids| == |students| &&
      Split(Listing(students), '\n') == Rows(students, ids)
  {
    var ids := SortedOf(students.Keys);
    var rows := Rows(students, ids);
    forall i | 0 <= i < |rows|
      ensures '\n' !in rows[i]
    {
      var s := students[ids[i]];
      assert rows[i] == s.id + " | " + s.name + " | " + s.section;
    }
    assert |ids| >= 1 by {
      var id :| id in students;
      assert id in ids;
    }
    SplitJoin(rows, '\n');
  }
}
