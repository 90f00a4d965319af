/** Grade and pass derivation of `StudentResult.save` (academic/models.py).

    The source computes `percentage = marks_obtained / max_marks * 100` in floating
    point; here every comparison `percentage >= t` is decided exactly by
    cross-multiplication, keeping the direction of the inequality right for a
    negative `max_marks` (the field does not forbid one). */
module Grading {
  import opened Common

  /** The GRADE_CHOICES domain; `Blank` is the empty default of the field and
      `AB` (absent) is a choice that the save logic never assigns. */
  datatype Grade = Blank | O | APlus | A | BPlus | B | C | P | F | AB

  /** Position of a computed grade on the scale, F lowest, O highest. */
  function Rank(g: Grade): nat {
    match g
    case O => 7
    case APlus => 6
    case A => 5
    case BPlus => 4
    case B => 3
    case C => 2
    case P => 1
    case _ => 0
  }

  /** `marks / maxMarks * 100 >= t`, decided without division. */
  predicate PercentAtLeast(marks: int, maxMarks: int, t: int)
    requires maxMarks != 0
  {
    if maxMarks > 0 then 100 * marks >= t * maxMarks else 100 * marks <= t * maxMarks
  }

  /** The first-match threshold chain. The last test compares the percentage with
      `passMarks`, which is a raw mark count, as the source does. */
  function GradeFor(marks: int, maxMarks: int, passMarks: int): (g: Grade)
    requires maxMarks != 0
    ensures g != Blank && g != AB
    ensures PercentAtLeast(marks, maxMarks, 50) ==> Rank(g) >= Rank(C)
    ensures !PercentAtLeast(marks, maxMarks, 50) ==> g == P || g == F
  {
    if PercentAtLeast(marks, maxMarks, 90) then O
    else if PercentAtLeast(marks, maxMarks, 80) then APlus
    else if PercentAtLeast(marks, maxMarks, 70) then A
    else if PercentAtLeast(marks, maxMarks, 60) then BPlus
    else if PercentAtLeast(marks, maxMarks, 55) then B
    else if PercentAtLeast(marks, maxMarks, 50) then C
    else if PercentAtLeast(marks, maxMarks, passMarks) then P
    else F
  }

  /** A stored result row (the fields that `save` reads or writes). */
  datatype StudentResult = StudentResult(
    marks: Option<int>,
    grade: Grade,
    isPass: bool,
    remarks: string,
    enteredBy: Option<UserId>)

  /** A row as `StudentResult(...)` builds it before the first save. */
  const NewResult := StudentResult(None, Blank, false, "", None)

  datatype SaveResult = Saved(row: StudentResult) | ZeroDivision

  /** `StudentResult.save`: with marks present, derive grade and pass flag from the
      subject's `max_marks` and `pass_marks`; a zero `max_marks` raises. */
  function Save(r: StudentResult, maxMarks: int, passMarks: int): (s: SaveResult)
    ensures r.marks.None? ==> s == Saved(r)
    ensures s.ZeroDivision? <==> r.marks.Some? && maxMarks == 0
    ensures s.Saved? ==> s.row.marks == r.marks && s.row.remarks == r.remarks && s.row.enteredBy == r.enteredBy
    ensures s.Saved? && r.marks.Some? ==> (s.row.isPass <==> r.marks.value >= passMarks)
    ensures s.Saved? && r.marks.Some? ==> s.row.grade == GradeFor(r.marks.value, maxMarks, passMarks)
  {
    match r.marks
    case None => Saved(r)
    case Some(m) =>
      if maxMarks == 0 then ZeroDivision
      else Saved(r.(isPass := m >= passMarks, grade := GradeFor(m, maxMarks, passMarks)))
  }

  /** Saving again with unchanged inputs changes nothing. */
  lemma SaveIdempotent(r: StudentResult, maxMarks: int, passMarks: int)
    requires Save(r, maxMarks, passMarks).Saved?
    ensures Save(Save(r, maxMarks, passMarks).row, maxMarks, passMarks) == Save(r, maxMarks, passMarks)
  {
  }

  /** The pass flag depends on the raw marks only, never on `max_marks`. */
  lemma PassIgnoresMaxMarks(r: StudentResult, max1: int, max2: int, passMarks: int)
    requires r.marks.Some? && max1 != 0 && max2 != 0
    ensures Save(r, max1, passMarks).row.isPass == Save(r, max2, passMarks).row.isPass
  {
  }

  /** Each grade from C up is given exactly on its percentage band. */
  lemma GradeBands(marks: int, maxMarks: int, passMarks: int)
    requires maxMarks > 0
    ensures GradeFor(marks, maxMarks, passMarks) == O <==> 100 * marks >= 90 * maxMarks
    ensures GradeFor(marks, maxMarks, passMarks) == APlus <==> 90 * maxMarks > 100 * marks >= 80 * maxMarks
    ensures GradeFor(marks, maxMarks, passMarks) == A <==> 80 * maxMarks > 100 * marks >= 70 * maxMarks
    ensures GradeFor(marks, maxMarks, passMarks) == BPlus <==> 70 * maxMarks > 100 * marks >= 60 * maxMarks
    ensures GradeFor(marks, maxMarks, passMarks) == B <==> 60 * maxMarks > 100 * marks >= 55 * maxMarks
    ensures GradeFor(marks, maxMarks, passMarks) == C <==> 55 * maxMarks > 100 * marks >= 50 * maxMarks
  {
  }

  /** Below 50 percent the grade is P exactly when the percentage reaches the raw
      `pass_marks`, and F otherwise. */
  lemma LowBand(marks: int, maxMarks: int, passMarks: int)
    requires maxMarks > 0 && 100 * marks < 50 * maxMarks
    ensures GradeFor(marks, maxMarks, passMarks) == P <==> 100 * marks >= passMarks * maxMarks
    ensures GradeFor(marks, maxMarks, passMarks) == F <==> 100 * marks < passMarks * maxMarks
  {
  }

  /** For a positive maximum, grade is monotone in the marks. */
  lemma GradeMonotone(m1: int, m2: int, maxMarks: int, passMarks: int)
    requires maxMarks > 0 && m1 <= m2
    ensures Rank(GradeFor(m1, maxMarks, passMarks)) <= Rank(GradeFor(m2, maxMarks, passMarks))
  {
    assert 100 * m1 <= 100 * m2;
  }

  /** The grade and the pass flag agree when the maximum is 100: then percentage
      and marks coincide. */
  lemma AgreeOutOfHundred(marks: int, passMarks: int)
    requires passMarks <= 50
    ensures var g := GradeFor(marks, 100, passMarks);
            (g != F <==> marks >= passMarks)
  {
  }

  /** 85 out of 100 with pass mark 40: A+ and a pass. */
  lemma ExampleEightyFive()
    ensures Save(NewResult.(marks := Some(85)), 100, 40)
         == Saved(NewResult.(marks := Some(85), grade := APlus, isPass := true))
  {
  }

  /** 60 out of 200 with pass mark 40 passes, yet is graded F (30 percent is below
      the raw 40). */
  lemma ExamplePassButF()
    ensures var s := Save(NewResult.(marks := Some(60)), 200, 40);
            s.Saved? && s.row.isPass && s.row.grade == F
  {
  }

  /** 45 out of 50 with pass mark 46 is graded O, yet does not pass. */
  lemma ExampleOButFail()
    ensures var s := Save(NewResult.(marks := Some(45)), 50, 46);
            s.Saved? && !s.row.isPass && s.row.grade == O
  {
  }
}
