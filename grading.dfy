/** Letter grades and the fixed percentage thresholds that assign them. */
module Grading {

  /** The five letters a student can receive, best first. */
  datatype Grade = A | B | C | D | Fail

  /** Position of a grade on the scale: Fail is 0, A is 4 (higher is better). */
  function Rank(g: Grade): nat
  {
    match g
    case A => 4
    case B => 3
    case C => 2
    case D => 1
    case Fail => 0
  }

  /** The text the service reports for a grade. */
  function Letter(g: Grade): string
  {
    match g
    case A => "A"
    case B => "B"
    case C => "C"
    case D => "D"
    case Fail => "Fail"
  }

  /** Thresholds are checked from the top down; every boundary is inclusive,
      so exactly 90 is an A and exactly 60 is a D. Each letter owns one
      half-open band of the percentage line. */
  function CalculateGrade(percentage: real): (g: Grade)
    ensures g == A <==> 90.0 <= percentage
    ensures g == B <==> 80.0 <= percentage < 90.0
    ensures g == C <==> 70.0 <= percentage < 80.0
    ensures g == D <==> 60.0 <= percentage < 70.0
    ensures g == Fail <==> percentage < 60.0
  {
    if percentage >= 90.0 then A
    else if percentage >= 80.0 then B
    else if percentage >= 70.0 then C
    else if percentage >= 60.0 then D
    else Fail
  }

  /** A higher percentage never yields a worse letter. */
  lemma GradeMonotone(p: real, q: real)
    requires p <= q
    ensures Rank(CalculateGrade(p)) <= Rank(CalculateGrade(q))
  {
  }

  /** Distinct grades are reported as distinct texts. */
  lemma LetterInjective(g: Grade, h: Grade)
    requires Letter(g) == Letter(h)
    ensures g == h
  {
  }
}
