/** The grade analysis the service runs on one request: validate every
    student's marks, derive total, percentage and grade per student, pick the
    topper and compute the class average. */
module Analysis {
  import opened Grading
  import opened Rounding

  /** One student as submitted: a name and the marks per subject. */
  datatype Student = Student(name: string, marks: seq<int>)

  /** One student as reported. */
  datatype StudentResult = StudentResult(
    name: string,
    marks: seq<int>,
    total: int,
    percentage: real,
    grade: Grade)

  /** The whole reply of a successful analysis. */
  datatype Report = Report(
    students: seq<StudentResult>,
    topper: StudentResult,
    classAverage: real)

  /** Why an analysis produced no report: a student with a mark outside
      [0, 100] (the first in input order), or no students at all, so that
      no topper exists. */
  datatype AnalysisError = InvalidMarks(name: string) | NoStudents

  datatype Result<T> = Ok(value: T) | Err(error: AnalysisError)

  /** The message of the client error for a student with invalid marks. */
  function InvalidMarksMessage(name: string): (msg: string)
    ensures |msg| >= |name| && msg[|msg| - |name|..] == name
    ensures msg[..|msg| - |name|] == "Invalid marks for "
  {
    "Invalid marks for " + name
  }

  // ---------------------------------------------------------------------
  // Per-student arithmetic

  predicate MarkInRange(mark: int)
  {
    !(mark > 100 || mark < 0)
  }

  /** The validation test: is some mark above 100 or below 0? */
  predicate HasInvalidMark(marks: seq<int>)
  {
    exists j :: 0 <= j < |marks| && !MarkInRange(marks[j])
  }

  /** Sum of the marks, as Python's sum does it (0 for no marks). */
  function Sum(marks: seq<int>): (total: int)
  {
    if marks == [] then 0 else marks[0] + Sum(marks[1..])
  }

  /** Each mark in [0, 100] bounds the total by 0 and 100 per mark. */
  lemma {:induction false} SumBounds(marks: seq<int>)
    requires !HasInvalidMark(marks)
    ensures 0 <= Sum(marks) <= 100 * |marks|
  {
    if marks != [] {
      assert MarkInRange(marks[0]);
      assert !HasInvalidMark(marks[1..]) by {
        forall j | 0 <= j < |marks[1..]|
          ensures MarkInRange(marks[1..][j])
        {
          assert marks[1..][j] == marks[j + 1];
        }
      }
      SumBounds(marks[1..]);
    }
  }

  /** The percentage of a total out of 500. */
  function Percentage(total: int): (p: real)
    ensures 5.0 * p == total as real
  {
    (total as real / 500.0) * 100.0
  }

  /** A percentage of an integer total is a multiple of 0.2, so it already
      has at most two decimal places. */
  lemma PercentageIsCents(total: int)
    ensures IsCents(Percentage(total))
  {
    assert Percentage(total) * 100.0 == (20 * total) as real;
  }

  /** With five valid marks the total is in [0, 500] and the percentage in
      [0, 100]. The service does not check the number of marks; with more
      than five the percentage can exceed 100. */
  lemma FiveMarksBounds(marks: seq<int>)
    requires |marks| == 5 && !HasInvalidMark(marks)
    ensures 0 <= Sum(marks) <= 500
    ensures 0.0 <= Percentage(Sum(marks)) <= 100.0
  {
    SumBounds(marks);
  }

  /** The record derived for one student: the reported percentage is rounded
      to two decimals, the grade is taken from the unrounded one. */
  function Analyzed(s: Student): (r: StudentResult)
    ensures r.name == s.name && r.marks == s.marks
    ensures r.total == Sum(s.marks)
    ensures r.percentage == Percentage(r.total)
    ensures r.grade == CalculateGrade(r.percentage)
  {
    var total := Sum(s.marks);
    var percentage := Percentage(total);
    PercentageIsCents(total);
    Round2OfCents(percentage);
    StudentResult(s.name, s.marks, total, Round2(percentage), CalculateGrade(percentage))
  }

  // ---------------------------------------------------------------------
  // Specification of the whole analysis

  /** Where validation stops: every student is valid, or the index of the
      first student with an invalid mark. */
  datatype FirstBad = AllValid | At(index: nat)

  /** Index of the first student with an invalid mark, if any. */
  function FirstInvalid(students: seq<Student>): (k: FirstBad)
    ensures k.At? ==> k.index < |students| && HasInvalidMark(students[k.index].marks)
    ensures k.At? ==> forall j :: 0 <= j < k.index ==> !HasInvalidMark(students[j].marks)
    ensures k.AllValid? ==> forall j :: 0 <= j < |students| ==> !HasInvalidMark(students[j].marks)
  {
    if students == [] then AllValid
    else if HasInvalidMark(students[0].marks) then At(0)
    else match FirstInvalid(students[1..])
      case AllValid => AllValid
      case At(k) => At(k + 1)
  }

  /** The derived records, one per student, in input order. */
  function Results(students: seq<Student>): seq<StudentResult>
  {
    seq(|students|, j requires 0 <= j < |students| => Analyzed(students[j]))
  }

  /** The unrounded percentages, one per student, in input order. */
  function Percentages(students: seq<Student>): seq<real>
  {
    seq(|students|, j requires 0 <= j < |students| => Percentage(Sum(students[j].marks)))
  }

  /** What one analysis request answers. */
  function Analyze(students: seq<Student>): (r: Result<Report>)
  {
    match FirstInvalid(students)
    case At(k) => Err(InvalidMarks(students[k].name))
    case AllValid =>
      if |students| == 0 then Err(NoStudents)
      else
        var rs := Results(students);
        Ok(Report(rs, Topper(rs), ClassAverage(Percentages(students))))
  }

  // ---------------------------------------------------------------------
  // Topper

  /** The index Python's max with a percentage key returns: it scans left to
      right and replaces its candidate only by a strictly greater one, so
      the FIRST record with the greatest percentage wins. */
  function TopperIndex(rs: seq<StudentResult>): (k: nat)
    requires |rs| > 0
    ensures k < |rs|
    ensures forall j :: 0 <= j < |rs| ==> rs[j].percentage <= rs[k].percentage
    ensures forall j :: 0 <= j < k ==> rs[j].percentage < rs[k].percentage
  {
    if |rs| == 1 then 0
    else
      var prefix := rs[..|rs| - 1];
      var k := TopperIndex(prefix);
      assert forall j :: 0 <= j < |prefix| ==> prefix[j] == rs[j];
      if rs[|rs| - 1].percentage > rs[k].percentage then |rs| - 1 else k
  }

  function Topper(rs: seq<StudentResult>): (topper: StudentResult)
    requires |rs| > 0
  {
    rs[TopperIndex(rs)]
  }

  /** Being maximal and earlier than every other maximal record pins the
      topper down: no other index has both properties. */
  lemma TopperIndexUnique(rs: seq<StudentResult>, k: nat)
    requires k < |rs|
    requires forall j :: 0 <= j < |rs| ==> rs[j].percentage <= rs[k].percentage
    requires forall j :: 0 <= j < k ==> rs[j].percentage < rs[k].percentage
    ensures TopperIndex(rs) == k
  {
  }

  // ---------------------------------------------------------------------
  // Class average

  function SumReal(ps: seq<real>): (total: real)
  {
    if ps == [] then 0.0 else ps[0] + SumReal(ps[1..])
  }

  /** The arithmetic mean of the percentages, rounded to two decimals; 0 when
      there are none. */
  function ClassAverage(ps: seq<real>): (average: real)
  {
    if ps == [] then 0.0 else Round2(SumReal(ps) / |ps| as real)
  }

  function Min(ps: seq<real>): (m: real)
    requires |ps| > 0
    ensures exists j :: 0 <= j < |ps| && ps[j] == m
    ensures forall j :: 0 <= j < |ps| ==> m <= ps[j]
  {
    if |ps| == 1 then ps[0]
    else
      var rest := Min(ps[1..]);
      assert forall j :: 1 <= j < |ps| ==> ps[1..][j - 1] == ps[j];
      if ps[0] <= rest then ps[0] else rest
  }

  function Max(ps: seq<real>): (m: real)
    requires |ps| > 0
    ensures exists j :: 0 <= j < |ps| && ps[j] == m
    ensures forall j :: 0 <= j < |ps| ==> ps[j] <= m
  {
    if |ps| == 1 then ps[0]
    else
      var rest := Max(ps[1..]);
      assert forall j :: 1 <= j < |ps| ==> ps[1..][j - 1] == ps[j];
      if ps[0] >= rest then ps[0] else rest
  }

  /** Bounds on every element bound the sum by the count times the bound. */
  lemma {:induction false} SumRealBounds(ps: seq<real>, lo: real, hi: real)
    requires forall j :: 0 <= j < |ps| ==> lo <= ps[j] <= hi
    ensures |ps| as real * lo <= SumReal(ps) <= |ps| as real * hi
  {
    if ps != [] {
      assert forall j :: 0 <= j < |ps[1..]| ==> ps[1..][j] == ps[j + 1];
      SumRealBounds(ps[1..], lo, hi);
    }
  }

  /** Bounds on every percentage bound their exact mean. */
  lemma MeanWithin(ps: seq<real>, lo: real, hi: real)
    requires |ps| > 0
    requires forall j :: 0 <= j < |ps| ==> lo <= ps[j] <= hi
    ensures lo <= SumReal(ps) / |ps| as real <= hi
  {
    SumRealBounds(ps, lo, hi);
    QuotientBetween(SumReal(ps), |ps| as real, lo, hi);
  }

  /** The exact mean lies between the smallest and the largest percentage. */
  lemma MeanBetween(ps: seq<real>)
    requires |ps| > 0
    ensures Min(ps) <= SumReal(ps) / |ps| as real <= Max(ps)
  {
    MeanWithin(ps, Min(ps), Max(ps));
  }

  /** Dividing n * lo <= s <= n * hi by a positive n. */
  lemma QuotientBetween(s: real, n: real, lo: real, hi: real)
    requires n > 0.0 && n * lo <= s <= n * hi
    ensures lo <= s / n <= hi
  {
  }

  /** When every percentage has at most two decimals, rounding does not push
      the class average outside [Min, Max]. */
  lemma ClassAverageBetween(ps: seq<real>)
    requires |ps| > 0
    requires forall j :: 0 <= j < |ps| ==> IsCents(ps[j])
    ensures Min(ps) <= ClassAverage(ps) <= Max(ps)
  {
    MeanBetween(ps);
    Round2Between(Min(ps), SumReal(ps) / |ps| as real, Max(ps));
  }

  // ---------------------------------------------------------------------
  // The analysis as the service runs it

  /** The request handler's loop: it validates and derives one student at a
      time, appending to the list of records and the list of unrounded
      percentages, and stops at the first student with an invalid mark. */
  method AnalyzeStudents(students: seq<Student>) returns (r: Result<Report>)
    ensures r == Analyze(students)
  {
    var analyzed: seq<StudentResult> := [];
    var totalPercentages: seq<real> := [];
    var i := 0;
    while i < |students|
      invariant 0 <= i <= |students|
      invariant forall j :: 0 <= j < i ==> !HasInvalidMark(students[j].marks)
      invariant analyzed == Results(students[..i])
      invariant totalPercentages == Percentages(students[..i])
    {
      var student := students[i];
      if HasInvalidMark(student.marks) {
        assert FirstInvalid(students) == At(i);
        return Err(InvalidMarks(student.name));
      }
      var total := Sum(student.marks);
      var percentage := Percentage(total);
      var grade := CalculateGrade(percentage);
      analyzed := analyzed + [StudentResult(student.name, student.marks, total, Round2(percentage), grade)];
      totalPercentages := totalPercentages + [percentage];
      i := i + 1;
    }
    assert students[..i] == students;
    if |analyzed| == 0 {
      return Err(NoStudents);
    }
    var topper := Topper(analyzed);
    var classAverage := if |totalPercentages| > 0
      then Round2(SumReal(totalPercentages) / |totalPercentages| as real)
      else 0.0;
    return Ok(Report(analyzed, topper, classAverage));
  }

  // ---------------------------------------------------------------------
  // Properties of the analysis

  /** The first student with an invalid mark is named in the error, and in
      the error text the client receives, and no report is produced at all. */
  lemma RejectsFirstInvalid(students: seq<Student>, k: nat)
    requires k < |students| && HasInvalidMark(students[k].marks)
    requires forall j :: 0 <= j < k ==> !HasInvalidMark(students[j].marks)
    ensures Analyze(students) == Err(InvalidMarks(students[k].name))
    ensures var msg := InvalidMarksMessage(Analyze(students).error.name);
      |msg| >= |students[k].name| && msg[|msg| - |students[k].name|..] == students[k].name
  {
  }

  /** An empty request has no topper, so it is an error rather than a
      report with an invented topper. */
  lemma RejectsEmpty()
    ensures Analyze([]) == Err(NoStudents)
  {
  }

  /** A report is produced exactly when there is a student and no mark is out
      of range. */
  lemma SucceedsIff(students: seq<Student>)
    ensures Analyze(students).Ok? <==>
      |students| > 0 && forall j :: 0 <= j < |students| ==> !HasInvalidMark(students[j].marks)
  {
    var f := FirstInvalid(students);
    if f.At? {
      assert HasInvalidMark(students[f.index].marks);
    }
  }

  /** A successful report keeps the students' order, names and marks, and
      each record holds its student's total, percentage and grade. */
  lemma ReportRecords(students: seq<Student>)
    requires Analyze(students).Ok?
    ensures var rs := Analyze(students).value.students;
      |rs| == |students| &&
      forall j :: 0 <= j < |students| ==>
        rs[j].name == students[j].name && rs[j].marks == students[j].marks &&
        rs[j].total == Sum(students[j].marks) &&
        5.0 * rs[j].percentage == rs[j].total as real &&
        rs[j].grade == CalculateGrade(rs[j].percentage)
  {
  }

  /** The topper of a successful report is one of its records, no record has
      a greater percentage, and every record before it has a smaller one. */
  lemma ReportTopper(students: seq<Student>)
    requires Analyze(students).Ok?
    ensures var rep := Analyze(students).value;
      exists k :: 0 <= k < |rep.students| && rep.topper == rep.students[k] &&
        (forall j :: 0 <= j < |rep.students| ==> rep.students[j].percentage <= rep.topper.percentage) &&
        (forall j :: 0 <= j < k ==> rep.students[j].percentage < rep.topper.percentage)
  {
  }

  /** The class average of a successful report is the rounded mean of the
      percentages, and lies between the lowest and highest percentage. */
  lemma ReportClassAverage(students: seq<Student>)
    requires Analyze(students).Ok?
    ensures var ps := Percentages(students); var avg := Analyze(students).value.classAverage;
      |ps| > 0 && avg == Round2(SumReal(ps) / |ps| as real) && Min(ps) <= avg <= Max(ps)
  {
    var ps := Percentages(students);
    forall j | 0 <= j < |ps|
      ensures IsCents(ps[j])
    {
      PercentageIsCents(Sum(students[j].marks));
    }
    ClassAverageBetween(ps);
  }

  /** The three percentages 70, 95, 95: the first student reaching 95 tops. */
  lemma TopperTieGoesToFirst(x: StudentResult, y: StudentResult, z: StudentResult)
    requires x.percentage == 70.0 && y.percentage == 95.0 && z.percentage == 95.0
    ensures TopperIndex([x, y, z]) == 1
  {
  }
}
