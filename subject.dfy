/** A subject and its line in the subjects file (models/subject.py). */
module Subjects {
  import opened Wrappers
  import opened Text
  import opened Numerals

  /** A subject; the constructor converts credit hours with int(), so they
      are always an integer. */
  datatype Subject = Subject(code: string, name: string, creditHours: int)

  predicate BareSubject(s: Subject)
  {
    Bare(s.code) && Bare(s.name)
  }

  /** Subject.serialize: code, name and str(credit_hours) joined by " | ",
      then a newline. */
  function Serialize(s: Subject): string
  {
    s.code + " | " + s.name + " | " + IntToString(s.creditHours) + "\n"
  }

  /** Subject.deserialize: fewer than three fields is no subject; otherwise
      the first three stripped fields, the third read with int(), which
      raises on anything but an integer numeral. */
  function Deserialize(line: string): (r: Parsed<Subject>)
    ensures r.Short? <==> |Split(line, FieldSep)| < 3
    ensures r.BadNumber? <==> |Split(line, FieldSep)| >= 3 && ParseInt(Fields(line)[2]).None?
    ensures r.Entity? ==> BareSubject(r.value)
  {
    var fs := Fields(line);
    if |fs| < 3 then Short
    else match ParseInt(fs[2])
      case None => BadNumber
      case Some(n) => Entity(Subject(fs[0], fs[1], n))
  }

  /** A subject whose code and name hold no line break is written as one
      whole line of the file. */
  lemma WrittenAsOneLine(s: Subject)
    requires OneLine(s.code) && OneLine(s.name)
    ensures FileLine(Serialize(s))
  {
    IntTextAvoids(s.creditHours, '\n');
    IntTextAvoids(s.creditHours, '\r');
    EndedLine(s.code + " | " + s.name + " | " + IntToString(s.creditHours));
  }

  /** The written line is the stored-line form of the three fields. */
  lemma SerializeIsStoredLine(s: Subject)
    ensures Serialize(s) == StoredLine([s.code, s.name, IntToString(s.creditHours)])
  {
    var ps := Padded([s.code, s.name, IntToString(s.creditHours)]);
    assert ps[0] == "" + s.code + " " == s.code + " ";
    assert ps[1] == " " + s.name + " ";
    assert ps[2] == " " + IntToString(s.creditHours) + "\n";
    assert ps[1..][1..] == [ps[2]];
    assert JoinWith(ps[1..], FieldSep) == ps[1] + [FieldSep] + ps[2];
  }

  /** Reading back a written subject gives the same subject, for any credit
      hours, whenever code and name hold no '|' and no edge whitespace. */
  lemma RoundTrip(s: Subject)
    requires BareSubject(s)
    ensures Deserialize(Serialize(s)) == Entity(s)
  {
    IntTextIsBare(s.creditHours);
    SerializeIsStoredLine(s);
    FieldsOfStoredLine([s.code, s.name, IntToString(s.creditHours)]);
    ParseIntRoundTrip(s.creditHours);
  }

  /** Only the first three fields matter. */
  lemma IgnoresExtraFields(line: string, extra: string)
    requires |Split(line, FieldSep)| >= 3
    ensures Deserialize(line + [FieldSep] + extra) == Deserialize(line)
  {
    FieldsOfExtended(line, extra);
  }
}
