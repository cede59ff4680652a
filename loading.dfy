/** How the store reads its four files back (the _load_* methods of
    models/manager.py): every line is stripped, blank lines are skipped, the
    rest go through the entity's deserialize, and each entity read is stored
    under its key, a later line replacing an earlier one. Saving writes one
    serialized line per stored value. */
module Loading {
  import opened Wrappers
  import opened Text
  import Students
  import Subjects
  import Records

  // ----- One keyed file -----

  /** One line of a keyed file, as read by the entity's entry function: a
      line that is no entity (blank, or too few fields) changes nothing, an
      entity is stored under its key, and a number that int() or float()
      rejects is an error (the exception escapes the loader). */
  function LoadLine<K, V>(m: map<K, V>, line: string, read: string -> Parsed<(K, V)>): Option<map<K, V>>
  {
    match read(line)
    case Entity((k, v)) => Some(m[k := v])
    case Short => Some(m)
    case BadNumber => None
  }

  /** The lines of a keyed file, read in order into m. */
  function LoadLines<K, V>(m: map<K, V>, lines: seq<string>, read: string -> Parsed<(K, V)>): Option<map<K, V>>
  {
    if lines == [] then Some(m)
    else match LoadLines(m, lines[..|lines| - 1], read)
      case None => None
      case Some(m') => LoadLine(m', lines[|lines| - 1], read)
  }

  /** Loading one line more: the lines so far, then line i. */
  lemma LoadNext<K, V>(m: map<K, V>, lines: seq<string>, read: string -> Parsed<(K, V)>, i: nat, sofar: map<K, V>)
    requires i < |lines| && LoadLines(m, lines[..i], read) == Some(sofar)
    ensures LoadLines(m, lines[..i + 1], read) == LoadLine(sofar, lines[i], read)
  {
    assert lines[..i + 1][..i] == lines[..i];
  }

  /** Line i holds a number that does not read. */
  predicate Unreadable<K, V>(lines: seq<string>, i: int, read: string -> Parsed<(K, V)>)
    requires 0 <= i < |lines|
  {
    read(lines[i]).BadNumber?
  }

  /** Line i holds an entity with key k. */
  predicate Yields<K(==), V>(lines: seq<string>, i: int, k: K, read: string -> Parsed<(K, V)>)
    requires 0 <= i < |lines|
  {
    read(lines[i]).Entity? && read(lines[i]).value.0 == k
  }

  /** Loading fails exactly when some line holds an unreadable number. */
  lemma {:induction false} LoadFailsIff<K, V>(m: map<K, V>, lines: seq<string>, read: string -> Parsed<(K, V)>)
    ensures LoadLines(m, lines, read).None? <==> exists i :: 0 <= i < |lines| && Unreadable(lines, i, read)
  {
    if lines != [] {
      var n := |lines| - 1;
      var init := lines[..n];
      LoadFailsIff(m, init, read);
      var before := LoadLines(m, init, read);
      if LoadLines(m, lines, read).None? {
        if before.None? {
          var i :| 0 <= i < n && Unreadable(init, i, read);
          assert init[i] == lines[i];
          assert Unreadable(lines, i, read);
        } else {
          assert Unreadable(lines, n, read);
        }
      } else {
        forall i | 0 <= i < |lines|
          ensures !Unreadable(lines, i, read)
        {
          if i < n {
            assert init[i] == lines[i];
            assert !Unreadable(init, i, read);
          }
        }
      }
    }
  }

  /** After loading, a key is present exactly when it was present before or
      some line holds an entity with that key. */
  lemma {:induction false} LoadedKeys<K, V>(m: map<K, V>, lines: seq<string>, read: string -> Parsed<(K, V)>, k: K)
    requires LoadLines(m, lines, read).Some?
    ensures k in LoadLines(m, lines, read).value <==>
      k in m || exists i :: 0 <= i < |lines| && Yields(lines, i, k, read)
  {
    if lines != [] {
      var n := |lines| - 1;
      var init := lines[..n];
      LoadedKeys(m, init, read, k);
      var before := LoadLines(m, init, read).value;
      var after := LoadLines(m, lines, read).value;
      assert k in after <==> k in before || Yields(lines, n, k, read);
      if exists i :: 0 <= i < n && Yields(init, i, k, read) {
        var i :| 0 <= i < n && Yields(init, i, k, read);
        assert init[i] == lines[i];
        assert Yields(lines, i, k, read);
      }
      if exists i :: 0 <= i < |lines| && Yields(lines, i, k, read) {
        var i :| 0 <= i < |lines| && Yields(lines, i, k, read);
        if i < n {
          assert init[i] == lines[i];
          assert Yields(init, i, k, read);
        }
      }
    }
  }

  /** For a repeated key the last line holding it wins. */
  lemma {:induction false} LastLineWins<K, V>(m: map<K, V>, lines: seq<string>, read: string -> Parsed<(K, V)>, i: nat, k: K)
    requires LoadLines(m, lines, read).Some?
    requires i < |lines| && Yields(lines, i, k, read)
    requires forall j :: i < j < |lines| ==> !Yields(lines, j, k, read)
    ensures k in LoadLines(m, lines, read).value
    ensures LoadLines(m, lines, read).value[k] == read(lines[i]).value.1
  {
    var n := |lines| - 1;
    var init := lines[..n];
    if i < n {
      assert init[i] == lines[i];
      forall j | i < j < n
        ensures !Yields(init, j, k, read)
      {
        assert init[j] == lines[j];
        assert !Yields(lines, j, k, read);
      }
      LastLineWins(m, init, read, i, k);
      assert !Yields(lines, n, k, read);
    }
  }

  /** A key that no line holds keeps the value it had before loading. */
  lemma {:induction false} LoadKeeps<K, V>(m: map<K, V>, lines: seq<string>, read: string -> Parsed<(K, V)>, k: K)
    requires LoadLines(m, lines, read).Some?
    requires k in m && forall j :: 0 <= j < |lines| ==> !Yields(lines, j, k, read)
    ensures k in LoadLines(m, lines, read).value && LoadLines(m, lines, read).value[k] == m[k]
  {
    if lines != [] {
      var n := |lines| - 1;
      var init := lines[..n];
      forall j | 0 <= j < n
        ensures !Yields(init, j, k, read)
      {
        assert init[j] == lines[j];
        assert !Yields(lines, j, k, read);
      }
      LoadKeeps(m, init, read, k);
      assert !Yields(lines, n, k, read);
    }
  }

  // ----- Saving and reading back -----

  /** What a save writes: one line per key of the order, each the value's
      serialized line. */
  function Saved<K, V>(m: map<K, V>, order: seq<K>, write: V -> string): seq<string>
    requires forall i :: 0 <= i < |order| ==> order[i] in m
  {
    seq(|order|, i requires 0 <= i < |order| => write(m[order[i]]))
  }

  /** The order lists every key of the map, and nothing else. */
  predicate Covers<K, V>(order: seq<K>, m: map<K, V>)
  {
    (forall i :: 0 <= i < |order| ==> order[i] in m) && forall k :: k in m ==> k in order
  }

  /** Every value's written line reads back as its own key and value. */
  predicate ReadsBack<K(==), V(==)>(m: map<K, V>, write: V -> string, read: string -> Parsed<(K, V)>)
  {
    forall k :: k in m ==> read(write(m[k])) == Entity((k, m[k]))
  }

  /** The part of m whose keys the sequence lists. */
  function Restrict<K, V>(m: map<K, V>, ks: seq<K>): (r: map<K, V>)
    ensures forall k :: k in r ==> k in m && k in ks && r[k] == m[k]
    ensures forall k :: k in m && k in ks ==> k in r
  {
    map k | k in m && k in ks :: m[k]
  }

  lemma {:induction false} SavedPrefixReloads<K, V>(m: map<K, V>, order: seq<K>, write: V -> string, read: string -> Parsed<(K, V)>, n: nat)
    requires Covers(order, m) && ReadsBack(m, write, read) && n <= |order|
    ensures LoadLines(map[], Saved(m, order[..n], write), read) == Some(Restrict(m, order[..n]))
  {
    if n > 0 {
      var k := order[n - 1];
      var lines := Saved(m, order[..n], write);
      SavedGrows(m, order, write, n);
      SavedPrefixReloads(m, order, write, read, n - 1);
      RestrictGrows(m, order, n);
      assert LoadLine(Restrict(m, order[..n - 1]), write(m[k]), read) == Some(Restrict(m, order[..n - 1])[k := m[k]]);
    }
  }

  lemma SavedGrows<K, V>(m: map<K, V>, order: seq<K>, write: V -> string, n: nat)
    requires Covers(order, m) && 0 < n <= |order|
    ensures var lines := Saved(m, order[..n], write);
      lines[..n - 1] == Saved(m, order[..n - 1], write) && lines[n - 1] == write(m[order[n - 1]])
  {
  }

  lemma RestrictGrows<K, V>(m: map<K, V>, order: seq<K>, n: nat)
    requires Covers(order, m) && 0 < n <= |order|
    ensures Restrict(m, order[..n]) == Restrict(m, order[..n - 1])[order[n - 1] := m[order[n - 1]]]
  {
    assert order[..n] == order[..n - 1] + [order[n - 1]];
  }

  /** Saving a map in any order that covers its keys and loading the result
      into an empty map gives the map back, when each value's line reads back
      as itself. */
  lemma SaveReload<K, V>(m: map<K, V>, order: seq<K>, write: V -> string, read: string -> Parsed<(K, V)>)
    requires Covers(order, m) && ReadsBack(m, write, read)
    ensures LoadLines(map[], Saved(m, order, write), read) == Some(m)
  {
    SavedPrefixReloads(m, order, write, read, |order|);
    assert order[..|order|] == order;
    RestrictCovering(m, order);
  }

  lemma RestrictCovering<K, V>(m: map<K, V>, order: seq<K>)
    requires Covers(order, m)
    ensures Restrict(m, order) == m
  {
  }

  // ----- The three keyed files -----

  /** _load_students: the line is stripped, a blank line is skipped, and a
      student is stored under its id; a student line never makes loading
      fail. */
  function StudentEntry(line: string): (r: Parsed<(string, Students.Student)>)
    ensures !r.BadNumber?
    ensures r.Short? <==> |Split(line, FieldSep)| < 3
    ensures r.Entity? ==> r.value.1.id == r.value.0 && Students.BareStudent(r.value.1)
  {
    var t := Strip(line);
    FieldsOfStripped(line);
    if t == "" then Short
    else match Students.Deserialize(t)
      case None => Short
      case Some(s) => Entity((s.id, s))
  }

  /** _load_subjects: a subject is stored under its code. */
  function SubjectEntry(line: string): (r: Parsed<(string, Subjects.Subject)>)
    ensures r.Short? <==> |Split(line, FieldSep)| < 3
    ensures r.Entity? ==> r.value.1.code == r.value.0 && Subjects.BareSubject(r.value.1)
  {
    var t := Strip(line);
    FieldsOfStripped(line);
    if t == "" then Short
    else match Subjects.Deserialize(t)
      case Entity(s) => Entity((s.code, s))
      case Short => Short
      case BadNumber => BadNumber
  }

  /** _load_records: a record is stored under (student id, subject code). */
  function RecordEntry(line: string): (r: Parsed<(Records.Key, Records.RecordState)>)
    ensures r.Short? <==> |Split(line, FieldSep)| < 4
    ensures r.Entity? ==> Records.KeyOf(r.value.1) == r.value.0
  {
    var t := Strip(line);
    FieldsOfStripped(line);
    if t == "" then Short
    else match Records.Deserialize(t)
      case Entity(s) => Entity((Records.KeyOf(s), s))
      case Short => Short
      case BadNumber => BadNumber
  }

  /** A line that deserializes to an entity is loaded as that entity under
      its key: stripping it first changes none of its fields. */
  lemma StudentLineLoads(line: string, s: Students.Student)
    requires Students.Deserialize(line) == Some(s)
    ensures StudentEntry(line) == Entity((s.id, s))
  {
    FieldsOfStripped(line);
    SeparatedIsNotBlank(line);
  }

  lemma SubjectLineLoads(line: string, s: Subjects.Subject)
    requires Subjects.Deserialize(line) == Entity(s)
    ensures SubjectEntry(line) == Entity((s.code, s))
  {
    FieldsOfStripped(line);
    SeparatedIsNotBlank(line);
  }

  lemma RecordLineLoads(line: string, s: Records.RecordState)
    requires Records.Deserialize(line) == Entity(s)
    ensures RecordEntry(line) == Entity((Records.KeyOf(s), s))
  {
    FieldsOfStripped(line);
    SeparatedIsNotBlank(line);
  }

  /** A written student line reads back as the student under its id. */
  lemma StudentLineReadsBack(s: Students.Student)
    requires Students.BareStudent(s)
    ensures StudentEntry(Students.Serialize(s)) == Entity((s.id, s))
  {
    Students.RoundTrip(s);
    StudentLineLoads(Students.Serialize(s), s);
  }

  lemma SubjectLineReadsBack(s: Subjects.Subject)
    requires Subjects.BareSubject(s)
    ensures SubjectEntry(Subjects.Serialize(s)) == Entity((s.code, s))
  {
    Subjects.RoundTrip(s);
    SubjectLineLoads(Subjects.Serialize(s), s);
  }

  lemma RecordLineReadsBack(s: Records.RecordState)
    requires Bare(s.studentId) && Bare(s.subjectCode)
    ensures RecordEntry(Records.Serialize(s)) == Entity((Records.KeyOf(s), s))
  {
    Records.RoundTrip(s);
    RecordLineLoads(Records.Serialize(s), s);
  }

  /** The students file written from a student map keyed by id, in any order,
      is one file line per student and loads back as the same map, when no
      field holds a '|', a line break or edge whitespace. */
  lemma StudentsReload(m: map<string, Students.Student>, order: seq<string>)
    requires Covers(order, m)
    requires forall k :: k in m ==> m[k].id == k && Students.BareStudent(m[k])
    requires forall k :: k in m ==> OneLine(m[k].id) && OneLine(m[k].name) && OneLine(m[k].section)
    ensures forall i :: 0 <= i < |order| ==> FileLine(Saved(m, order, Students.Serialize)[i])
    ensures LoadLines(map[], Saved(m, order, Students.Serialize), StudentEntry) == Some(m)
  {
    forall k | k in m
      ensures StudentEntry(Students.Serialize(m[k])) == Entity((k, m[k]))
      ensures FileLine(Students.Serialize(m[k]))
    {
      StudentLineReadsBack(m[k]);
      Students.WrittenAsOneLine(m[k]);
    }
    SaveReload(m, order, Students.Serialize, StudentEntry);
  }

  /** The same for the subjects file, when no code or name holds a line
      break. */
  lemma SubjectsReload(m: map<string, Subjects.Subject>, order: seq<string>)
    requires Covers(order, m)
    requires forall k :: k in m ==> m[k].code == k && Subjects.BareSubject(m[k])
    requires forall k :: k in m ==> OneLine(m[k].code) && OneLine(m[k].name)
    ensures forall i :: 0 <= i < |order| ==> FileLine(Saved(m, order, Subjects.Serialize)[i])
    ensures LoadLines(map[], Saved(m, order, Subjects.Serialize), SubjectEntry) == Some(m)
  {
    forall k | k in m
      ensures SubjectEntry(Subjects.Serialize(m[k])) == Entity((k, m[k]))
      ensures FileLine(Subjects.Serialize(m[k]))
    {
      SubjectLineReadsBack(m[k]);
      Subjects.WrittenAsOneLine(m[k]);
    }
    SaveReload(m, order, Subjects.Serialize, SubjectEntry);
  }

  /** The same for the records file, when no id or code holds a line
      break. */
  lemma RecordsReload(m: map<Records.Key, Records.RecordState>, order: seq<Records.Key>)
    requires Covers(order, m)
    requires forall k :: k in m ==> Records.KeyOf(m[k]) == k && Bare(k.student) && Bare(k.subject)
    requires forall k :: k in m ==> OneLine(k.student) && OneLine(k.subject)
    ensures forall i :: 0 <= i < |order| ==> FileLine(Saved(m, order, Records.Serialize)[i])
    ensures LoadLines(map[], Saved(m, order, Records.Serialize), RecordEntry) == Some(m)
  {
    forall k | k in m
      ensures RecordEntry(Records.Serialize(m[k])) == Entity((k, m[k]))
      ensures FileLine(Records.Serialize(m[k]))
    {
      RecordLineReadsBack(m[k]);
      Records.WrittenAsOneLine(m[k]);
    }
    SaveReload(m, order, Records.Serialize, RecordEntry);
  }

  // ----- The enrollments file -----

  /** _load_enrollments on one line: a non-blank line with at least two
      fields is the pair of its first two stripped fields. */
  function PairOf(line: string): (r: Option<Records.Key>)
    ensures r.Some? <==> |Split(line, FieldSep)| >= 2
    ensures r.Some? ==> Bare(r.value.student) && Bare(r.value.subject)
  {
    var t := Strip(line);
    FieldsOfStripped(line);
    if t == "" then None
    else
      var fs := Fields(t);
      if |fs| >= 2 then Some(Records.Key(fs[0], fs[1])) else None
  }

  /** A set read from a file: each line that gives an element adds it. */
  function LoadSet<K>(e: set<K>, lines: seq<string>, pick: string -> Option<K>): set<K>
  {
    if lines == [] then e
    else
      var e' := LoadSet(e, lines[..|lines| - 1], pick);
      match pick(lines[|lines| - 1])
      case Some(k) => e' + {k}
      case None => e'
  }

  /** Reading one line more into the set. */
  lemma LoadSetNext<K>(e: set<K>, lines: seq<string>, pick: string -> Option<K>, i: nat)
    requires i < |lines|
    ensures LoadSet(e, lines[..i + 1], pick) ==
      LoadSet(e, lines[..i], pick) + (if pick(lines[i]).Some? then {pick(lines[i]).value} else {})
  {
    assert lines[..i + 1][..i] == lines[..i];
  }

  /** The loaded set holds what was there before and what the lines give,
      and nothing else. */
  lemma {:induction false} LoadSetIff<K>(e: set<K>, lines: seq<string>, pick: string -> Option<K>, k: K)
    ensures k in LoadSet(e, lines, pick) <==> k in e || exists i :: 0 <= i < |lines| && pick(lines[i]) == Some(k)
  {
    if lines != [] {
      var n := |lines| - 1;
      var init := lines[..n];
      LoadSetIff(e, init, pick, k);
      assert k in LoadSet(e, lines, pick) <==> k in LoadSet(e, init, pick) || pick(lines[n]) == Some(k);
      if exists i :: 0 <= i < n && pick(init[i]) == Some(k) {
        var i :| 0 <= i < n && pick(init[i]) == Some(k);
        assert lines[i] == init[i];
      }
      if exists i :: 0 <= i < |lines| && pick(lines[i]) == Some(k) {
        var i :| 0 <= i < |lines| && pick(lines[i]) == Some(k);
        if i < n {
          assert init[i] == lines[i];
        }
      }
    }
  }

  /** _save_enrollments writes a pair as "sid | code" and a newline. */
  function PairLine(k: Records.Key): string
  {
    k.student + " | " + k.subject + "\n"
  }

  /** A pair whose sides hold no line break is written as one whole line of
      the file. */
  lemma PairWrittenAsOneLine(k: Records.Key)
    requires OneLine(k.student) && OneLine(k.subject)
    ensures FileLine(PairLine(k))
  {
    EndedLine(k.student + " | " + k.subject);
  }

  /** A written pair reads back as itself when both sides are bare. */
  lemma PairRoundTrip(k: Records.Key)
    requires Bare(k.student) && Bare(k.subject)
    ensures PairOf(PairLine(k)) == Some(k)
  {
    var line := PairLine(k);
    StoredLineOfTwo(k.student, k.subject);
    FieldsOfStoredLine([k.student, k.subject]);
    FieldsOfStripped(line);
    SeparatedIsNotBlank(line);
  }

  /** The enrollments file written in any order that lists every pair is
      one file line per pair and loads back as the same set of pairs, when
      no id or code holds a line break. */
  lemma PairsReload(e: set<Records.Key>, order: seq<Records.Key>)
    requires forall k :: k in order <==> k in e
    requires forall k :: k in e ==> Bare(k.student) && Bare(k.subject)
    requires forall k :: k in e ==> OneLine(k.student) && OneLine(k.subject)
    ensures forall i :: 0 <= i < |order| ==> FileLine(PairLine(order[i]))
    ensures LoadSet({}, seq(|order|, i requires 0 <= i < |order| => PairLine(order[i])), PairOf) == e
  {
    var lines := seq(|order|, i requires 0 <= i < |order| => PairLine(order[i]));
    forall i | 0 <= i < |order|
      ensures FileLine(PairLine(order[i]))
    {
      PairWrittenAsOneLine(order[i]);
    }
    forall k
      ensures k in LoadSet({}, lines, PairOf) <==> k in e
    {
      LoadSetIff({}, lines, PairOf, k);
      if k in e {
        var i :| 0 <= i < |order| && order[i] == k;
        PairRoundTrip(k);
        assert PairOf(lines[i]) == Some(k);
      }
      if exists i :: 0 <= i < |lines| && PairOf(lines[i]) == Some(k) {
        var i :| 0 <= i < |lines| && PairOf(lines[i]) == Some(k);
        PairRoundTrip(order[i]);
      }
    }
  }
}
