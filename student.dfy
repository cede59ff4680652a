/** A student and its line in the students file (models/student.py). */
module Students {
  import opened Wrappers
  import opened Text

  /** A student; its id is its key in the store's student mapping. */
  datatype Student = Student(id: string, name: string, section: string)

  /** The students whose line reads back as themselves: every field bare. */
  predicate BareStudent(s: Student)
  {
    Bare(s.id) && Bare(s.name) && Bare(s.section)
  }

  /** Student.serialize: the three fields joined by " | ", then a newline. */
  function Serialize(s: Student): string
  {
    s.id + " | " + s.name + " | " + s.section + "\n"
  }

  /** Student.deserialize: a line with fewer than three '|'-separated fields
      is no student; otherwise the first three fields, stripped. */
  function Deserialize(line: string): (r: Option<Student>)
    ensures r.None? <==> |Split(line, FieldSep)| < 3
    ensures r.Some? ==> BareStudent(r.value)
  {
    var fs := Fields(line);
    if |fs| < 3 then None else Some(Student(fs[0], fs[1], fs[2]))
  }

  /** A student whose fields hold no line break is written as one whole line
      of the file. */
  lemma WrittenAsOneLine(s: Student)
    requires OneLine(s.id) && OneLine(s.name) && OneLine(s.section)
    ensures FileLine(Serialize(s))
  {
    EndedLine(s.id + " | " + s.name + " | " + s.section);
  }

  /** The written line is the stored-line form of the three fields. */
  lemma SerializeIsStoredLine(s: Student)
    ensures Serialize(s) == StoredLine([s.id, s.name, s.section])
  {
    var ps := Padded([s.id, s.name, s.section]);
    assert ps[0] == "" + s.id + " " == s.id + " ";
    assert ps[1] == " " + s.name + " ";
    assert ps[2] == " " + s.section + "\n";
    assert ps[1..][1..] == [ps[2]];
    assert JoinWith(ps[1..], FieldSep) == ps[1] + [FieldSep] + ps[2];
  }

  /** Reading back a written student gives the same student, whenever no
      field holds a '|' or has whitespace at its ends. */
  lemma RoundTrip(s: Student)
    requires BareStudent(s)
    ensures Deserialize(Serialize(s)) == Some(s)
  {
    SerializeIsStoredLine(s);
    FieldsOfStoredLine([s.id, s.name, s.section]);
  }

  /** Only the first three fields matter: anything after a further separator
      is ignored. */
  lemma IgnoresExtraFields(line: string, extra: string)
    requires |Split(line, FieldSep)| >= 3
    ensures Deserialize(line + [FieldSep] + extra) == Deserialize(line)
  {
    FieldsOfExtended(line, extra);
  }

  /** The round trip needs bare fields: a name written as two words around
      " | " reads back as two fields, so the line yields the name's halves as
      name and section, and the section is lost. */
  lemma SeparatorInNameSplitsIt(id: string, first: string, last: string, section: string)
    requires Bare(id) && Bare(first) && Bare(last) && Bare(section)
    ensures Deserialize(Serialize(Student(id, first + " | " + last, section))) == Some(Student(id, first, last))
  {
    var line := Serialize(Student(id, first + " | " + last, section));
    FieldsOfFour(id, first, last, section);
    assert Fields(line)[..3] == [id, first, last];
  }

  /** The line so written holds the four fields. */
  lemma FieldsOfFour(id: string, first: string, last: string, section: string)
    requires Bare(id) && Bare(first) && Bare(last) && Bare(section)
    ensures Fields(Serialize(Student(id, first + " | " + last, section))) == [id, first, last, section]
  {
    var fs := [id, first, last, section];
    StoredLineOfFour(id, first, last, section);
    var x := id + " | ";
    assert x + (first + " | " + last) == x + first + " | " + last;
    assert Serialize(Student(id, first + " | " + last, section)) == StoredLine(fs);
    assert forall i :: 0 <= i < |fs| ==> Bare(fs[i]);
    FieldsOfStoredLine(fs);
  }
}
