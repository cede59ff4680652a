/** A student's record in one subject (models/record.py): the grades given
    so far and the attendance count, the numbers computed from them, and the
    record's line in the records file. */
module Records {
  import opened Wrappers
  import opened Text
  import opened Numerals

  /** The key of an enrollment and of a record: (student id, subject code). */
  datatype Key = Key(student: string, subject: string)

  /** The value of a record. Grades are the integral grades the stored text
      form writes as str(int(g)); attendance counts are Python ints. */
  datatype RecordState = RecordState(studentId: string, subjectCode: string, grades: seq<int>, present: int, total: int)

  function KeyOf(s: RecordState): Key
  {
    Key(s.studentId, s.subjectCode)
  }

  /** What Record(student_id, subject_code) holds: no grades, attendance 0/0. */
  function Fresh(k: Key): (s: RecordState)
    ensures KeyOf(s) == k && s.grades == [] && s.present == 0 && s.total == 0
  {
    RecordState(k.student, k.subject, [], 0, 0)
  }

  /** At most as many sessions attended as held, and neither negative. */
  predicate Consistent(s: RecordState)
  {
    0 <= s.present <= s.total
  }

  /** The value after add_grade(g): g appended, everything else as before. */
  function WithGrade(s: RecordState, g: int): (t: RecordState)
    ensures |t.grades| == |s.grades| + 1 && t.grades[..|s.grades|] == s.grades && t.grades[|s.grades|] == g
    ensures KeyOf(t) == KeyOf(s) && t.present == s.present && t.total == s.total
  {
    s.(grades := s.grades + [g])
  }

  /** The value after mark_attendance(attended): one more session, attended
      or not; it keeps a consistent record consistent. */
  function WithAttendance(s: RecordState, attended: bool): (t: RecordState)
    ensures Consistent(s) ==> Consistent(t)
    ensures t.present - s.present == (if attended then 1 else 0) && t.total - s.total == 1
    ensures KeyOf(t) == KeyOf(s) && t.grades == s.grades
  {
    s.(present := if attended then s.present + 1 else s.present, total := s.total + 1)
  }

  /** The Record object: its id and code never change once built, its grades
      and counts do. */
  class Record {
    const studentId: string
    const subjectCode: string
    var grades: seq<int>
    var present: int
    var total: int

    function State(): RecordState
      reads this
    {
      RecordState(studentId, subjectCode, grades, present, total)
    }

    /** Record(student_id, subject_code, grades=None, attendance_present=0,
        attendance_total=0). */
    constructor (studentId: string, subjectCode: string, grades: seq<int> := [], present: int := 0, total: int := 0)
      ensures State() == RecordState(studentId, subjectCode, grades, present, total)
    {
      this.studentId := studentId;
      this.subjectCode := subjectCode;
      this.grades := grades;
      this.present := present;
      this.total := total;
    }

    method AddGrade(g: int)
      modifies this
      ensures State() == WithGrade(old(State()), g)
    {
      grades := grades + [g];
    }

    method MarkAttendance(attended: bool)
      modifies this
      ensures State() == WithAttendance(old(State()), attended)
      ensures Consistent(old(State())) ==> Consistent(State())
    {
      total := total + 1;
      if attended {
        present := present + 1;
      }
    }
  }

  // ----- Numbers computed from a record -----

  /** Python's sum() of a list of numbers, exactly. */
  function Sum(xs: seq<real>): real
  {
    if xs == [] then 0.0 else Sum(xs[..|xs| - 1]) + xs[|xs| - 1]
  }

  /** sum(xs)/len(xs), or None for an empty list. */
  function Mean(xs: seq<real>): (r: Option<real>)
    ensures r.None? <==> xs == []
    ensures r.Some? ==> r.value * |xs| as real == Sum(xs)
  {
    if xs == [] then None else Some(Sum(xs) / |xs| as real)
  }

  predicate AllWithin(xs: seq<real>, lo: real, hi: real)
  {
    forall i :: 0 <= i < |xs| ==> lo <= xs[i] <= hi
  }

  lemma {:induction false} SumWithin(xs: seq<real>, lo: real, hi: real)
    requires AllWithin(xs, lo, hi)
    ensures lo * |xs| as real <= Sum(xs) <= hi * |xs| as real
  {
    if xs != [] {
      var init := xs[..|xs| - 1];
      assert AllWithin(init, lo, hi) by {
        forall i | 0 <= i < |init| ensures lo <= init[i] <= hi {
          assert init[i] == xs[i];
        }
      }
      SumWithin(init, lo, hi);
      assert lo <= xs[|xs| - 1] <= hi;
    }
  }

  /** A mean lies between the least and the greatest of the numbers. */
  lemma MeanWithin(xs: seq<real>, lo: real, hi: real)
    requires xs != [] && AllWithin(xs, lo, hi)
    ensures lo <= Mean(xs).value <= hi
  {
    SumWithin(xs, lo, hi);
    var n := |xs| as real;
    var m := Mean(xs).value;
    assert m * n == Sum(xs);
    assert (m - lo) * n >= 0.0 && (hi - m) * n >= 0.0;
  }

  function Reals(gs: seq<int>): (xs: seq<real>)
    ensures |xs| == |gs| && forall i :: 0 <= i < |gs| ==> xs[i] == gs[i] as real
  {
    seq(|gs|, i requires 0 <= i < |gs| => gs[i] as real)
  }

  /** Record.average(): None when there are no grades, otherwise the mean,
      which lies between the lowest and the highest grade. */
  function Average(grades: seq<int>): (r: Option<real>)
    ensures r.None? <==> grades == []
    ensures r.Some? ==> r.value * |grades| as real == Sum(Reals(grades))
  {
    Mean(Reals(grades))
  }

  lemma AverageWithin(grades: seq<int>, lo: int, hi: int)
    requires grades != []
    requires forall i :: 0 <= i < |grades| ==> lo <= grades[i] <= hi
    ensures lo as real <= Average(grades).value <= hi as real
  {
    MeanWithin(Reals(grades), lo as real, hi as real);
  }

  /** Record.attendance_percent(): None when no session was held, otherwise
      (present / total) * 100 with true division. */
  function AttendancePercent(present: int, total: int): (r: Option<real>)
    ensures r.None? <==> total == 0
    ensures r.Some? ==> r.value * total as real == 100.0 * present as real
  {
    if total == 0 then None else Some((present as real / total as real) * 100.0)
  }

  /** For consistent counts with at least one session, the percentage is
      between 0 and 100. */
  lemma PercentWithin(present: int, total: int)
    requires 0 <= present <= total && total != 0
    ensures 0.0 <= AttendancePercent(present, total).value <= 100.0
  {
    var p := AttendancePercent(present, total).value;
    var t := total as real;
    assert p * t == 100.0 * present as real;
    assert p * t >= 0.0 && (100.0 - p) * t >= 0.0;
  }

  // ----- The record's line -----

  const GradesLabel: string := "grades="
  const AttendanceLabel: string := "attendance="
  const Brackets: set<char> := {'[', ']'}

  function GradeTexts(grades: seq<int>): (ts: seq<string>)
    ensures |ts| == |grades|
  {
    seq(|grades|, i requires 0 <= i < |grades| => IntToString(grades[i]))
  }

  /** The text between the brackets: each grade as str(int(g)), joined by
      commas. */
  function GradesText(grades: seq<int>): string
  {
    JoinWith(GradeTexts(grades), ',')
  }

  /** The grades field as written: "grades=[" + the list + "]". */
  function GradesField(grades: seq<int>): string
  {
    GradesLabel + "[" + GradesText(grades) + "]"
  }

  /** The attendance field as written: "attendance=" + present + "/" + total. */
  function AttendanceField(present: int, total: int): string
  {
    AttendanceLabel + IntToString(present) + "/" + IntToString(total)
  }

  /** Record.serialize. */
  function Serialize(s: RecordState): string
  {
    s.studentId + " | " + s.subjectCode + " | " + GradesField(s.grades) + " | "
      + AttendanceField(s.present, s.total) + "\n"
  }

  /** A record whose id and code hold no line break is written as one whole
      line of the file. */
  lemma WrittenAsOneLine(s: RecordState)
    requires OneLine(s.studentId) && OneLine(s.subjectCode)
    ensures FileLine(Serialize(s))
  {
    FieldsAreOneLine(s);
    EndedLine(s.studentId + " | " + s.subjectCode + " | " + GradesField(s.grades) + " | "
      + AttendanceField(s.present, s.total));
  }

  /** The written grades and attendance fields hold no line break. */
  lemma FieldsAreOneLine(s: RecordState)
    ensures OneLine(GradesField(s.grades)) && OneLine(AttendanceField(s.present, s.total))
  {
    var ts := GradeTexts(s.grades);
    forall i | 0 <= i < |ts|
      ensures '\n' !in ts[i] && '\r' !in ts[i]
    {
      IntTextAvoids(s.grades[i], '\n');
      IntTextAvoids(s.grades[i], '\r');
    }
    JoinWithAvoids(ts, ',', '\n');
    JoinWithAvoids(ts, ',', '\r');
    IntTextAvoids(s.present, '\n');
    IntTextAvoids(s.present, '\r');
    IntTextAvoids(s.total, '\n');
    IntTextAvoids(s.total, '\r');
  }

  /** A grade item float() rejects: not blank, and no numeral. */
  predicate BadItem(t: string)
  {
    Strip(t) != "" && ParseInt(t).None?
  }

  /** [float(x.strip()) for x in tokens if x.strip()]: blank tokens are
      skipped, and any other token that is not a numeral makes the whole
      list unreadable. */
  function ParseGradeList(tokens: seq<string>): (r: Option<seq<int>>)
    ensures r.None? <==> exists i :: 0 <= i < |tokens| && BadItem(tokens[i])
    ensures r.Some? ==> |r.value| <= |tokens|
    decreases |tokens|
  {
    if tokens == [] then Some([])
    else
      var rest := ParseGradeList(tokens[1..]);
      assert forall i :: 1 <= i < |tokens| ==> tokens[i] == tokens[1..][i - 1];
      if Strip(tokens[0]) == "" then rest
      else match ParseInt(tokens[0])
        case None => None
        case Some(g) =>
          if rest.None? then None else Some([g] + rest.value)
  }

  /** The grades field: without the "grades=" label there are no grades;
      otherwise the text after it, stripped of whitespace and then of
      brackets, is the list. */
  function ParseGrades(part: string): Option<seq<int>>
  {
    if StartsWith(part, GradesLabel) then ParseGradeItems(Trim(Strip(part[|GradesLabel|..]), Brackets))
    else Some([])
  }

  /** The text between the brackets: empty is no grades, otherwise a
      comma-separated list. */
  function ParseGradeItems(inner: string): Option<seq<int>>
  {
    if inner == "" then Some([]) else ParseGradeList(Split(inner, ','))
  }

  /** The attendance field: without the "attendance=" label attendance is
      0/0; otherwise the counts are read from the stripped text after it. */
  function ParseAttendance(part: string): Option<(int, int)>
  {
    if StartsWith(part, AttendanceLabel) then ParseCounts(Strip(part[|AttendanceLabel|..]))
    else Some((0, 0))
  }

  /** The text after "attendance=": without a '/' it is 0/0; otherwise both
      sides of the first '/' must be integers. */
  function ParseCounts(att: string): Option<(int, int)>
  {
    if '/' in att then
      var i := IndexOf(att, '/');
      match (ParseInt(att[..i]), ParseInt(att[i + 1..]))
      case (Some(p), Some(t)) => Some((p, t))
      case _ => None
    else Some((0, 0))
  }

  /** Record.deserialize: fewer than four fields is no record; an unreadable
      grade or attendance count is a raised ValueError. */
  function Deserialize(line: string): (r: Parsed<RecordState>)
    ensures r.Short? <==> |Split(line, FieldSep)| < 4
    ensures r.BadNumber? <==>
      |Split(line, FieldSep)| >= 4 && (ParseGrades(Fields(line)[2]).None? || ParseAttendance(Fields(line)[3]).None?)
    ensures r.Entity? ==> Bare(r.value.studentId) && Bare(r.value.subjectCode)
  {
    var fs := Fields(line);
    if |fs| < 4 then Short
    else match (ParseGrades(fs[2]), ParseAttendance(fs[3]))
      case (Some(gs), Some((p, t))) => Entity(RecordState(fs[0], fs[1], gs, p, t))
      case _ => BadNumber
  }

  /** The numerals between the brackets hold no separator, and the list
      neither starts nor ends with a bracket. */
  lemma GradesTextShape(grades: seq<int>)
    ensures FieldSep !in GradesText(grades)
    ensures Trimmed(GradesText(grades), Brackets)
    ensures GradesText(grades) == [] <==> grades == []
  {
    var ts := GradeTexts(grades);
    forall i | 0 <= i < |ts|
      ensures FieldSep !in ts[i] && ',' !in ts[i] && ts[i] != []
      ensures ts[i][0] !in Brackets && ts[i][|ts[i]| - 1] !in Brackets
    {
      IntTextAvoids(grades[i], FieldSep);
      IntTextAvoids(grades[i], ',');
      IntTextShape(grades[i]);
    }
    JoinWithAvoids(ts, ',', FieldSep);
    if grades != [] {
      JoinWithEnds(ts, ',');
    }
  }

  /** A list of tokens each of which reads as a number reads as those numbers. */
  lemma {:induction false} ParseReadableTokens(tokens: seq<string>, grades: seq<int>)
    requires |tokens| == |grades|
    requires forall i :: 0 <= i < |tokens| ==> Strip(tokens[i]) != "" && ParseInt(tokens[i]) == Some(grades[i])
    ensures ParseGradeList(tokens) == Some(grades)
  {
    if tokens != [] {
      ParseReadableTokens(tokens[1..], grades[1..]);
      assert [grades[0]] + grades[1..] == grades;
    }
  }

  /** The tokens a grade list keeps: the non-blank ones, in order. */
  function NonBlank(tokens: seq<string>): seq<string>
  {
    if tokens == [] then []
    else (if Strip(tokens[0]) == "" then [] else [tokens[0]]) + NonBlank(tokens[1..])
  }

  /** A list that reads holds one grade per non-blank token, in order, each
      the number that token reads as. */
  lemma {:induction false} GradeListItems(tokens: seq<string>)
    requires ParseGradeList(tokens).Some?
    ensures |ParseGradeList(tokens).value| == |NonBlank(tokens)|
    ensures forall i :: 0 <= i < |NonBlank(tokens)| ==>
      ParseInt(NonBlank(tokens)[i]) == Some(ParseGradeList(tokens).value[i])
  {
    if tokens != [] {
      var rest := tokens[1..];
      assert ParseGradeList(rest).Some?;
      GradeListItems(rest);
      if Strip(tokens[0]) == "" {
        assert NonBlank(tokens) == NonBlank(rest);
        assert ParseGradeList(tokens) == ParseGradeList(rest);
      } else {
        var g := ParseInt(tokens[0]).value;
        var gs := ParseGradeList(rest).value;
        var kept := NonBlank(rest);
        assert ParseGradeList(tokens).value == [g] + gs;
        assert NonBlank(tokens) == [tokens[0]] + kept;
        forall i | 0 <= i < |NonBlank(tokens)|
          ensures ParseInt(NonBlank(tokens)[i]) == Some(ParseGradeList(tokens).value[i])
        {
          if i > 0 {
            assert NonBlank(tokens)[i] == kept[i - 1];
            assert ParseGradeList(tokens).value[i] == gs[i - 1];
          }
        }
      }
    }
  }

  /** A blank item anywhere in the list is dropped: "grades=[90,,85]" reads
      as [90, 85]. */
  lemma {:induction false} BlankItemDropped(xs: seq<string>, t: string, ys: seq<string>)
    requires Strip(t) == ""
    ensures ParseGradeList(xs + [t] + ys) == ParseGradeList(xs + ys)
  {
    if xs == [] {
      assert xs + [t] + ys == [t] + ys && ([t] + ys)[1..] == ys;
      assert xs + ys == ys;
    } else {
      var a := xs + [t] + ys;
      var b := xs + ys;
      assert a[0] == xs[0] && a[1..] == xs[1..] + [t] + ys;
      assert b[0] == xs[0] && b[1..] == xs[1..] + ys;
      BlankItemDropped(xs[1..], t, ys);
    }
  }

  lemma GradeListRoundTrip(grades: seq<int>)
    ensures ParseGradeList(GradeTexts(grades)) == Some(grades)
  {
    var ts := GradeTexts(grades);
    forall i | 0 <= i < |ts|
      ensures Strip(ts[i]) != "" && ParseInt(ts[i]) == Some(grades[i])
    {
      ParseIntRoundTrip(grades[i]);
    }
    ParseReadableTokens(ts, grades);
  }

  /** After its label, the grades field is read from the rest, stripped of
      whitespace and then of brackets. */
  lemma GradesLabelled(rest: string)
    ensures ParseGrades(GradesLabel + rest) == ParseGradeItems(Trim(Strip(rest), Brackets))
  {
    var part := GradesLabel + rest;
    assert part[..|GradesLabel|] == GradesLabel;
    assert part[|GradesLabel|..] == rest;
  }

  /** Brackets around a list that neither starts nor ends with one are
      exactly what the two strips remove. */
  lemma Unbracket(gs: string)
    requires Trimmed(gs, Brackets)
    ensures Trim(Strip("[" + gs + "]"), Brackets) == gs
  {
    var bracketed := "[" + gs + "]";
    assert bracketed[0] == '[' && bracketed[|bracketed| - 1] == ']';
    TrimmedIsFixed(bracketed, Whitespace);
    assert AllIn("[", Brackets) && AllIn("]", Brackets);
    TrimPadded("[", gs, "]", Brackets);
  }

  /** A comma-joined list of comma-free tokens reads as the tokens do. */
  lemma JoinedItemsRead(tokens: seq<string>, grades: seq<int>)
    requires forall i :: 0 <= i < |tokens| ==> ',' !in tokens[i]
    requires ParseGradeList(tokens) == Some(grades)
    ensures ParseGradeItems(JoinWith(tokens, ',')) == Some(grades)
  {
    if tokens != [] {
      SplitJoin(tokens, ',');
    }
  }

  /** A labelled, bracketed, comma-joined list of comma-free tokens reads as
      the tokens do. */
  lemma ListFieldReads(f: string, gs: string, tokens: seq<string>, grades: seq<int>)
    requires f == GradesLabel + ("[" + gs + "]")
    requires gs == JoinWith(tokens, ',') && Trimmed(gs, Brackets)
    requires forall i :: 0 <= i < |tokens| ==> ',' !in tokens[i]
    requires ParseGradeList(tokens) == Some(grades)
    ensures ParseGrades(f) == Some(grades)
  {
    JoinedItemsRead(tokens, grades);
    Unbracket(gs);
    GradesLabelled("[" + gs + "]");
  }

  lemma GradeTextsHaveNoComma(grades: seq<int>)
    ensures forall i :: 0 <= i < |grades| ==> ',' !in GradeTexts(grades)[i]
  {
    forall i | 0 <= i < |grades| ensures ',' !in GradeTexts(grades)[i] {
      IntTextFacts(grades[i]);
    }
  }

  lemma GradesFieldForm(grades: seq<int>)
    ensures GradesField(grades) == GradesLabel + ("[" + GradesText(grades) + "]")
  {
  }

  /** Reading the written grades field gives the grades back. */
  lemma GradesFieldRoundTrip(grades: seq<int>)
    ensures ParseGrades(GradesField(grades)) == Some(grades)
  {
    var gs := GradesText(grades);
    GradeTextsHaveNoComma(grades);
    GradesTextShape(grades);
    GradeListRoundTrip(grades);
    GradesFieldForm(grades);
    ListFieldReads(GradesField(grades), gs, GradeTexts(grades), grades);
  }

  /** The text after "attendance=": already stripped, and its first '/' is
      the one written between the two counts. */
  lemma CountsText(p: string, t: string)
    requires p != [] && t != [] && '/' !in p
    requires p[0] !in Whitespace && t[|t| - 1] !in Whitespace
    ensures var att := p + "/" + t;
      Strip(att) == att && '/' in att && IndexOf(att, '/') == |p| &&
      att[..|p|] == p && att[|p| + 1..] == t
  {
    var att := p + "/" + t;
    assert att[0] == p[0] && att[|att| - 1] == t[|t| - 1];
    TrimmedIsFixed(att, Whitespace);
    assert att[|p|] == '/';
    var i := IndexOf(att, '/');
  }

  /** After its label, the attendance field is read from the stripped rest. */
  lemma AttendanceLabelled(rest: string)
    ensures ParseAttendance(AttendanceLabel + rest) == ParseCounts(Strip(rest))
  {
    var part := AttendanceLabel + rest;
    assert part[..|AttendanceLabel|] == AttendanceLabel;
    assert part[|AttendanceLabel|..] == rest;
  }

  /** Counts written around a '/' whose two sides read as numbers read as
      those numbers. */
  lemma CountsRead(p: string, t: string, present: int, total: int)
    requires p != [] && t != [] && '/' !in p
    requires p[0] !in Whitespace && t[|t| - 1] !in Whitespace
    requires ParseInt(p) == Some(present) && ParseInt(t) == Some(total)
    ensures ParseCounts(Strip(p + "/" + t)) == Some((present, total))
  {
    var att := p + "/" + t;
    CountsText(p, t);
    CountsAt(att, p, t, present, total);
  }

  lemma CountsAt(att: string, p: string, t: string, present: int, total: int)
    requires '/' in att && IndexOf(att, '/') == |p| && att[..|p|] == p && att[|p| + 1..] == t
    requires ParseInt(p) == Some(present) && ParseInt(t) == Some(total)
    ensures ParseCounts(att) == Some((present, total))
  {
  }

  /** A labelled field holding two numerals around a '/' reads as their
      values. */
  lemma CountsFieldReads(f: string, p: string, t: string, present: int, total: int)
    requires f == AttendanceLabel + (p + "/" + t)
    requires p != [] && t != [] && '/' !in p
    requires p[0] !in Whitespace && t[|t| - 1] !in Whitespace
    requires ParseInt(p) == Some(present) && ParseInt(t) == Some(total)
    ensures ParseAttendance(f) == Some((present, total))
  {
    CountsRead(p, t, present, total);
    AttendanceLabelled(p + "/" + t);
  }

  /** Reading the written attendance field gives both counts back. */
  lemma AttendanceFieldRoundTrip(present: int, total: int)
    ensures ParseAttendance(AttendanceField(present, total)) == Some((present, total))
  {
    var p := IntToString(present);
    var t := IntToString(total);
    IntTextFacts(present);
    IntTextFacts(total);
    CountsFieldReads(AttendanceField(present, total), p, t, present, total);
  }

  /** A stored line of four bare fields whose last two read as grades and
      counts reads as the record they make up. */
  lemma RecordLineReads(line: string, s: RecordState, g: string, a: string)
    requires line == StoredLine([s.studentId, s.subjectCode, g, a])
    requires Bare(s.studentId) && Bare(s.subjectCode) && Bare(g) && Bare(a)
    requires ParseGrades(g) == Some(s.grades) && ParseAttendance(a) == Some((s.present, s.total))
    ensures Deserialize(line) == Entity(s)
  {
    FieldsOfStoredLine([s.studentId, s.subjectCode, g, a]);
    ReadsFromFields(line, s, g, a);
  }

  /** A line whose fields are the id, the code and two readable parts reads
      as the record they make up. */
  lemma ReadsFromFields(line: string, s: RecordState, g: string, a: string)
    requires Fields(line) == [s.studentId, s.subjectCode, g, a]
    requires ParseGrades(g) == Some(s.grades) && ParseAttendance(a) == Some((s.present, s.total))
    ensures Deserialize(line) == Entity(s)
  {
  }

  /** A field with non-blank, separator-free ends around separator-free
      text is bare. */
  lemma BareBetween(pre: string, mid: string, post: string)
    requires pre != [] && post != []
    requires FieldSep !in pre && FieldSep !in mid && FieldSep !in post
    requires pre[0] !in Whitespace && post[|post| - 1] !in Whitespace
    ensures Bare(pre + mid + post)
  {
    var f := pre + mid + post;
    assert f[0] == pre[0] && f[|f| - 1] == post[|post| - 1];
    forall c | c in f ensures c != FieldSep {
      assert c in pre || c in mid || c in post;
    }
  }

  /** Two separator-free texts with non-blank outer ends make a bare
      field. */
  lemma BareJoin(pre: string, post: string)
    requires pre != [] && post != []
    requires FieldSep !in pre && FieldSep !in post
    requires pre[0] !in Whitespace && post[|post| - 1] !in Whitespace
    ensures Bare(pre + post)
  {
    var f := pre + post;
    assert f[0] == pre[0] && f[|f| - 1] == post[|post| - 1];
    forall c | c in f ensures c != FieldSep {
      assert c in pre || c in post;
    }
  }

  /** The written grades and attendance fields are bare. */
  lemma FieldsAreBare(s: RecordState)
    ensures Bare(GradesField(s.grades)) && Bare(AttendanceField(s.present, s.total))
  {
    GradesFieldBare(s.grades);
    AttendanceFieldBare(s.present, s.total);
  }

  lemma GradesFieldBare(grades: seq<int>)
    ensures Bare(GradesField(grades))
  {
    GradesTextShape(grades);
    BareBetween(GradesLabel + "[", GradesText(grades), "]");
  }

  lemma AttendanceFieldBare(present: int, total: int)
    ensures Bare(AttendanceField(present, total))
  {
    var p := IntToString(present);
    var t := IntToString(total);
    IntTextAvoids(present, FieldSep);
    IntTextIsBare(total);
    var pre := AttendanceLabel + p + "/";
    assert FieldSep !in pre;
    assert pre[0] == 'a' && !IsSpace('a');
    assert t != [] && t[|t| - 1] !in Whitespace;
    BareJoin(pre, t);
  }

  /** Reading back a written record gives the same record, whenever the id
      and the code hold no '|' and have no whitespace at their ends. */
  lemma RoundTrip(s: RecordState)
    requires Bare(s.studentId) && Bare(s.subjectCode)
    ensures Deserialize(Serialize(s)) == Entity(s)
  {
    var g := GradesField(s.grades);
    var a := AttendanceField(s.present, s.total);
    FieldsAreBare(s);
    StoredLineOfFour(s.studentId, s.subjectCode, g, a);
    GradesFieldRoundTrip(s.grades);
    AttendanceFieldRoundTrip(s.present, s.total);
    RecordLineReads(Serialize(s), s, g, a);
  }

  /** The parser's tolerance: a grades field without its label gives no
      grades, and an attendance field without its label or without a '/'
      gives 0/0, instead of an unreadable line. */
  lemma Defaults(line: string)
    requires |Split(line, FieldSep)| >= 4
    ensures var fs := Fields(line); var r := Deserialize(line);
      (!StartsWith(fs[2], GradesLabel) && !StartsWith(fs[3], AttendanceLabel) ==>
        r == Entity(RecordState(fs[0], fs[1], [], 0, 0))) &&
      (!StartsWith(fs[3], AttendanceLabel) || '/' !in Strip(fs[3][|AttendanceLabel|..]) ==>
        r.BadNumber? || (r.value.present == 0 && r.value.total == 0))
  {
    var fs := Fields(line);
    PartDefaults(fs[2], fs[3]);
  }

  /** The defaults of the two parsed parts on their own. */
  lemma PartDefaults(g: string, a: string)
    ensures !StartsWith(g, GradesLabel) ==> ParseGrades(g) == Some([])
    ensures !StartsWith(a, AttendanceLabel) || '/' !in Strip(a[|AttendanceLabel|..]) ==>
      ParseAttendance(a) == Some((0, 0))
  {
  }

  /** An empty bracket list, or an empty grades field, is no grades. */
  lemma EmptyGradeList()
    ensures ParseGrades("grades=[]") == Some([])
    ensures ParseGrades("grades=") == Some([])
  {
    assert StartsWith("grades=[]", GradesLabel);
    assert "grades=[]"[|GradesLabel|..] == "[]";
    TrimmedIsFixed("[]", Whitespace);
    assert AllIn("[]", Brackets);
    TrimPadded("[]", "", "", Brackets);
    assert "[]" + "" + "" == "[]";
    LabelAloneIsNoGrades();
  }

  /** The label with nothing after it is no grades. */
  lemma LabelAloneIsNoGrades()
    ensures ParseGrades("grades=") == Some([])
  {
    assert StartsWith("grades=", GradesLabel);
    assert "grades="[|GradesLabel|..] == "";
  }

  /** Only the first four fields matter. */
  lemma IgnoresExtraFields(line: string, extra: string)
    requires |Split(line, FieldSep)| >= 4
    ensures Deserialize(line + [FieldSep] + extra) == Deserialize(line)
  {
    FieldsOfExtended(line, extra);
  }
}
