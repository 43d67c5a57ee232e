# Student result analysis — a Dafny model

This project models how a small grade-analysis web service computes its results. The service takes a list of students, each with a name and a list of marks. For each student it:

- checks that every mark lies in [0, 100];
- adds the marks up to a total;
- computes the percentage as `total / 500 * 100`;
- assigns a letter grade (A, B, C, D or Fail) from fixed thresholds.

It then picks the topper, the first student with the highest reported percentage, and computes the class average, the mean of the percentages rounded to two decimals. The first student with a mark out of range aborts the whole request with the error "Invalid marks for <name>".

The model has three modules:

- `Grading` (`grading.dfy`): the letter grades and `calculate_grade`.
- `Rounding` (`rounding.dfy`): Python's `round(x, 2)` on exact reals. It rounds to the nearest hundredth, and an exact half goes to the even neighbour.
- `Analysis` (`analysis.dfy`): the per-student records, the topper, the class average and the whole request. The request is written twice:
  - `AnalyzeStudents` is the handler's loop. It builds the list of records and the list of unrounded percentages step by step, and returns at the first invalid student.
  - `Analyze` is the pure function that specifies it. The lemmas state the service's promises about `Analyze`.

Marks are integers. So a percentage is exactly `total / 5`, and `round(percentage, 2)` leaves it unchanged (`PercentageIsCents`, `Round2OfCents`). The grade is computed from the unrounded percentage and the topper is chosen on the rounded one. Because rounding changes nothing here, the two agree: `Analyzed` states that the reported grade is the grade of the reported percentage.

Two behaviours of the code shape the model:

- The code does not count the marks. A student is expected to have five marks, matching the five subject columns `Sub1`..`Sub5` of the PDF report's table (Report.py:107), but any number is accepted and summed, so with more than five the percentage can exceed 100. The model accepts any number of marks, and the bounds for five marks are a separate lemma (`FiveMarksBounds`).
- On an empty student list the code's `max` raises before the class average is computed, and the web framework answers with a server error (HTTP 500) instead of a report. The model returns the error `NoStudents`. It never invents a topper. `ClassAverage` itself still returns 0 for an empty list, as the expression in the code does.

Some functions compute without stating anything. Their properties are stated by the lemmas in the table below:

- `Analysis.Analyze` (Report.py:38-70) specifies the whole request.
- `Analysis.HasInvalidMark` (Report.py:49) is the validation test.
- `Analysis.Sum` (Report.py:52) adds the marks.
- `Analysis.Topper` (Report.py:67) selects the topper.
- `Analysis.ClassAverage` (Report.py:70) computes the class average.

## Model

| member | source | states |
|---|---|---|
| `Grading.CalculateGrade` | Report.py:14-24 | Each letter owns exactly one band, with inclusive lower bounds: A iff p >= 90, B iff 80 <= p < 90, C iff 70 <= p < 80, D iff 60 <= p < 70, Fail iff p < 60. |
| `Grading.GradeMonotone` | Report.py:14-24 | A higher percentage never yields a worse letter. |
| `Grading.LetterInjective` | Report.py:15-24 | The five reported letter strings are pairwise distinct. |
| `Rounding.RoundedCents` | Report.py:60 | `round(x, 2)` in hundredths: an integer within half a hundredth of 100x, and even on an exact half. |
| `Rounding.Round2` | Report.py:60 | The rounded value has at most two decimals and lies within 0.005 of its input. |
| `Rounding.Round2OfCents` | Report.py:60 | A value that already has at most two decimals is left unchanged by rounding. |
| `Rounding.Round2Monotone` | Report.py:70 | Rounding preserves order: x <= y implies Round2(x) <= Round2(y). |
| `Rounding.Round2Between` | Report.py:70 | A value between two two-decimal bounds is still between them after rounding. |
| `Analysis.InvalidMarksMessage` | Report.py:50 | The error text is "Invalid marks for " followed by the student's name. |
| `Analysis.SumBounds` | Report.py:49-52 | When no mark is out of range, the total lies in [0, 100 * number of marks]. |
| `Analysis.Percentage` | Report.py:53 | The percentage of a total out of 500 is exactly total / 5. |
| `Analysis.PercentageIsCents` | Report.py:53-60 | A percentage of an integer total has at most two decimals, so rounding it to two decimals changes nothing. |
| `Analysis.FiveMarksBounds` | Report.py:49-53 | For five valid marks the total is in [0, 500] and the percentage in [0, 100]. |
| `Analysis.Analyzed` | Report.py:52-62 | A student's record keeps the name and marks, has the sum of the marks as its total and total / 5 as its percentage; its grade is the grade of that percentage. |
| `Analysis.FirstInvalid` | Report.py:44-50 | Finds the first student in input order with a mark above 100 or below 0 (every earlier student is valid), or reports that every student is valid. |
| `Analysis.TopperIndex` | Report.py:67 | max with a percentage key returns a record no other record beats; every record before it has a strictly smaller percentage, so ties go to the first. |
| `Analysis.TopperIndexUnique` | Report.py:67 | At most one index is maximal and earlier than every other maximal one, so the topper is fully determined. |
| `Analysis.TopperTieGoesToFirst` | Report.py:67 | For percentages 70, 95, 95 the topper is the second record, the first to reach 95. |
| `Analysis.MeanWithin` | Report.py:70 | Bounds on every percentage also bound their exact mean. |
| `Analysis.MeanBetween` | Report.py:70 | The exact mean of a non-empty list lies between its minimum and its maximum. |
| `Analysis.ClassAverageBetween` | Report.py:70 | When every percentage has at most two decimals, the rounded class average still lies between the minimum and the maximum percentage. |
| `Analysis.AnalyzeStudents` | Report.py:38-70 | The handler's loop with its early return produces exactly what `Analyze` specifies, error cases included. |
| `Analysis.RejectsFirstInvalid` | Report.py:44-50 | If student k is the first with an invalid mark, the result is the error naming student k and carries no report. The error text "Invalid marks for <name>" ends with that student's name. |
| `Analysis.RejectsEmpty` | Report.py:67 | An empty student list gives the `NoStudents` error and no topper. |
| `Analysis.SucceedsIff` | Report.py:44-67 | A report is produced if and only if there is at least one student and no mark is out of range. |
| `Analysis.ReportRecords` | Report.py:44-62 | A report has one record per student, in input order. Each record keeps its student's name and marks, has the sum of the marks as total, total / 5 as percentage and that percentage's grade. |
| `Analysis.ReportTopper` | Report.py:67 | The topper is one of the report's records. No record has a greater percentage, and every record before it has a smaller one. |
| `Analysis.ReportClassAverage` | Report.py:64-70 | The class average is the rounded mean of the unrounded percentages and lies between the lowest and the highest percentage. |

## Left out

- HTTP routing, the CORS preflight (`OPTIONS`) replies, the landing page, JSON decoding and encoding, and status codes (Report.py:1-11, 27-36, 72-76, 79-83, 141-142). These are web-framework plumbing. An `InvalidMarks` error stands for the 400 reply and `NoStudents` for the exception `max` raises.
- The PDF report (Report.py:85-138). It is document layout in a third-party library whose code is not part of this model. The current date it prints depends on the clock.
- Missing or wrongly typed JSON fields. They are runtime failures of dictionary access, not logic of the service.
- Non-integer marks. JSON numbers may be fractional; the model takes integer marks only.
- Floating point. Percentages and the class average are exact reals. For integer totals between 0 and 500 the rounded percentage and the grade are the same in floating point. The class average can differ from the float result in the last digit, because float division and summation round at each step.
- `Analysis.ClassAverage`: it states nothing by itself. Its properties are stated by `ClassAverageBetween` and `ReportClassAverage`.
