/** Short sessions with a fresh store, each ending in the outcomes the
    store's contracts fix for it. */
module Scenarios {
  import opened Wrappers
  import opened Text
  import opened Store

  /** Subject codes ignore case: "cs101" is stored as "CS101", so adding
      "CS101" afterwards is a duplicate. */
  method CodesIgnoreCase() returns (first: Outcome<Error>, second: Outcome<Error>)
    ensures first == Pass && second == Fail(DuplicateSubject)
  {
    var m := new SystemManager();
    first := m.AddSubject("cs101", "Programming", 3);
    assert Upper("cs101") == "CS101";
    assert Upper("CS101") == "CS101";
    second := m.AddSubject("CS101", "Programming II", 4);
  }

  /** Enrolment checks the student first, then the subject; the code is
      matched without regard to case, and a second enrolment in the same
      subject is refused. */
  method EnrollmentChecks() returns (noSubject: Outcome<Error>, first: Outcome<Error>, again: Outcome<Error>)
    ensures noSubject == Fail(NoSuchSubject) && first == Pass && again == Fail(AlreadyEnrolled)
  {
    var m := new SystemManager();
    var added := m.AddStudent("7", "Sara", "B");
    assert Upper("math") == "MATH";
    noSubject := m.EnrollStudent("7", "math");
    assert Upper("MATH") == "MATH";
    var made := m.AddSubject("MATH", "Calculus", 3);
    first := m.EnrollStudent("7", "math");
    again := m.EnrollStudent("7", "MATH");
  }
}
