/** Mark detection: the fill ratio of every grid cell, the marked/unmarked
    decision, and the classification of each question row as blank, a single
    letter or ambiguous. Counting the ink inside a cell's bounding box is an
    array operation outside the model; its result arrives as a PixelCount. */
module Marks {
  import opened Common
  import opened OmrConfig
  import opened Grid

  /** The ink inside one cell's bounding box: the number of set pixels and the
      number of pixels the box covers once clipped to the image. */
  datatype PixelCount = PixelCount(marked: nat, total: nat)

  /** The share of the box that is ink; a box with no pixels has ratio 0. */
  function FillRatio(p: PixelCount): (r: real)
    ensures 0.0 <= r
    ensures p.total == 0 ==> r == 0.0
    ensures p.total > 0 ==> r * (p.total as real) == p.marked as real
    ensures p.marked <= p.total ==> r <= 1.0
  {
    if p.total > 0 then p.marked as real / p.total as real else 0.0
  }

  /** A cell counts as marked when its fill ratio strictly exceeds the
      configured threshold. */
  predicate IsMarked(c: Config, p: PixelCount)
  {
    FillRatio(p) > c.correctMarkThreshold
  }

  /** One boolean per cell of every row, in row and column order. */
  function DetectMarkedAnswers(c: Config, rows: seq<seq<Region>>, measure: Region -> PixelCount)
    : (marks: seq<seq<bool>>)
    ensures |marks| == |rows|
    ensures forall i :: 0 <= i < |rows| ==> |marks[i]| == |rows[i]|
    ensures forall i, j :: 0 <= i < |rows| && 0 <= j < |rows[i]| ==>
              (marks[i][j] <==> FillRatio(measure(rows[i][j])) > c.correctMarkThreshold)
  {
    seq(|rows|, i requires 0 <= i < |rows| =>
      seq(|rows[i]|, j requires 0 <= j < |rows[i]| => IsMarked(c, measure(rows[i][j]))))
  }

  /** With a non-negative threshold, a cell is marked exactly when its box has
      pixels and its ink exceeds threshold times the box size; in particular a
      box with no pixels is never marked. */
  lemma MarkedIffEnoughInk(c: Config, p: PixelCount)
    requires c.correctMarkThreshold >= 0.0
    ensures IsMarked(c, p) <==> p.total > 0 && p.marked as real > c.correctMarkThreshold * p.total as real
  {
    if p.total > 0 {
      var r := FillRatio(p);
      var t := p.total as real;
      if r > c.correctMarkThreshold {
        assert r * t > c.correctMarkThreshold * t;
      } else {
        assert r * t <= c.correctMarkThreshold * t;
      }
    }
  }

  // ---------------------------------------------------------------------------
  // Classification of one row

  /** The number of marked cells in a row. */
  function MarkCount(marks: seq<bool>): (n: nat)
    ensures n == multiset(marks)[true]
    ensures n <= |marks|
    ensures n == 0 <==> true !in marks
    decreases |marks|
  {
    if |marks| == 0 then 0
    else
      assert marks == marks[..|marks| - 1] + [marks[|marks| - 1]];
      assert multiset(marks) == multiset(marks[..|marks| - 1]) + multiset{marks[|marks| - 1]};
      MarkCount(marks[..|marks| - 1]) + if marks[|marks| - 1] then 1 else 0
  }

  /** The index of the first marked cell (list.index(True)). */
  function FirstMarked(marks: seq<bool>): (j: nat)
    requires true in marks
    ensures j < |marks| && marks[j]
    ensures forall k :: 0 <= k < j ==> !marks[k]
    decreases |marks|
  {
    if marks[0] then 0 else 1 + FirstMarked(marks[1..])
  }

  /** Two different marked cells make the count at least 2. */
  lemma {:induction false} TwoMarksCountTwice(marks: seq<bool>, j: nat, k: nat)
    requires j < k < |marks| && marks[j] && marks[k]
    ensures MarkCount(marks) >= 2
    decreases |marks|
  {
    var n := |marks|;
    var front := marks[..n - 1];
    if k < n - 1 {
      TwoMarksCountTwice(front, j, k);
    } else {
      assert front[j];
      assert MarkCount(front) > 0;
    }
  }

  /** A count of two or more comes from two different marked cells. */
  lemma {:induction false} CountTwiceHasTwoMarks(marks: seq<bool>)
    requires MarkCount(marks) >= 2
    ensures exists j, k :: 0 <= j < k < |marks| && marks[j] && marks[k]
    decreases |marks|
  {
    var n := |marks|;
    var front := marks[..n - 1];
    if MarkCount(front) >= 2 {
      CountTwiceHasTwoMarks(front);
      var j, k :| 0 <= j < k < |front| && front[j] && front[k];
      assert marks[j] && marks[k];
    } else {
      var j := FirstMarked(front);
      assert marks[j] && marks[n - 1];
    }
  }

  /** The mark count counts the marked cells: it is 1 exactly when one cell
      and no other is marked, and at least 2 exactly when two different
      cells are. */
  lemma MarkCountCases(marks: seq<bool>)
    ensures MarkCount(marks) == 1 <==>
              exists j :: 0 <= j < |marks| && marks[j] && forall k :: 0 <= k < |marks| && marks[k] ==> k == j
    ensures MarkCount(marks) >= 2 <==> exists j, k :: 0 <= j < k < |marks| && marks[j] && marks[k]
  {
    if MarkCount(marks) >= 2 {
      CountTwiceHasTwoMarks(marks);
    }
    if exists j, k :: 0 <= j < k < |marks| && marks[j] && marks[k] {
      var j, k :| 0 <= j < k < |marks| && marks[j] && marks[k];
      TwoMarksCountTwice(marks, j, k);
    }
    if MarkCount(marks) == 1 {
      var j := FirstMarked(marks);
      forall k | 0 <= k < |marks| && marks[k]
        ensures k == j
      {
        SingleMarkIsFirst(marks, k);
      }
    }
    if exists j :: 0 <= j < |marks| && marks[j] && forall k :: 0 <= k < |marks| && marks[k] ==> k == j {
      var j :| 0 <= j < |marks| && marks[j] && forall k :: 0 <= k < |marks| && marks[k] ==> k == j;
      assert marks[j];
    }
  }

  /** With exactly one mark, the marked cell is unique. */
  lemma SingleMarkIsFirst(marks: seq<bool>, j: nat)
    requires MarkCount(marks) == 1 && j < |marks| && marks[j]
    ensures FirstMarked(marks) == j
  {
    var f := FirstMarked(marks);
    if f < j {
      TwoMarksCountTwice(marks, f, j);
    }
  }

  /** The message of the exception chr raises outside the code-point range. */
  const ChrRangeError: string := "chr() arg not in range(0x110000)"

  /** The letter of option `j`: chr(ord('A') + j). Dafny characters exclude the
      surrogate code points, so those indices fail like the ones past the
      Unicode range. */
  function OptionLetter(j: nat): (r: Result<char>)
    ensures r.Success? ==> r.value as int == 'A' as int + j
    ensures r.Failure? ==> r.error == ChrRangeError
    ensures 'A' as int + j < 0xD800 ==> r.Success?
    ensures 0xE000 <= 'A' as int + j <= 0x10FFFF ==> r.Success?
    ensures 'A' as int + j > 0x10FFFF ==> r.Failure?
  {
    var code := 'A' as int + j;
    if code < 0xD800 || 0xE000 <= code <= 0x10FFFF then Success(code as char)
    else Failure(ChrRangeError)
  }

  /** The sentinel answer of a row with several marks. */
  const Ambiguous: string := "MULTIPLE"

  /** The fixed confidences of the three outcomes. */
  const BlankConfidence: real := 0.0
  const SingleConfidence: real := 0.9
  const AmbiguousConfidence: real := 0.3

  /** A row's answer and the confidence attached to it. */
  datatype Classification = Classification(answer: string, confidence: real)

  /** No mark: blank answer with confidence 0; one mark: that option's letter
      with confidence 0.9; two or more: the ambiguous sentinel with
      confidence 0.3. */
  function Classify(marks: seq<bool>): (r: Result<Classification>)
    ensures MarkCount(marks) == 0 ==> r == Success(Classification("", BlankConfidence))
    ensures MarkCount(marks) >= 2 ==> r == Success(Classification(Ambiguous, AmbiguousConfidence))
    ensures MarkCount(marks) == 1 ==>
              forall j :: 0 <= j < |marks| && marks[j] ==>
                && (r.Success? <==> OptionLetter(j).Success?)
                && (r.Success? ==> r.value == Classification([OptionLetter(j).value], SingleConfidence))
    ensures r.Failure? ==> r.error == ChrRangeError
  {
    var count := MarkCount(marks);
    if count == 0 then Success(Classification("", BlankConfidence))
    else if count == 1 then
      var j := FirstMarked(marks);
      assert forall k :: 0 <= k < |marks| && marks[k] ==> k == j by {
        forall k | 0 <= k < |marks| && marks[k]
          ensures k == j
        {
          SingleMarkIsFirst(marks, k);
        }
      }
      match OptionLetter(j)
      case Success(letter) => Success(Classification([letter], SingleConfidence))
      case Failure(e) => Failure(e)
    else Success(Classification(Ambiguous, AmbiguousConfidence))
  }

  /** The answer alone tells which outcome a row had: a blank answer means no
      mark, the sentinel means two or more, and anything else is the single
      marked option's letter. */
  lemma AnswerRevealsMarkCount(marks: seq<bool>)
    requires Classify(marks).Success?
    ensures Classify(marks).value.answer == "" <==> MarkCount(marks) == 0
    ensures Classify(marks).value.answer == Ambiguous <==> MarkCount(marks) >= 2
    ensures |Classify(marks).value.answer| == 1 <==> MarkCount(marks) == 1
  {
    if MarkCount(marks) == 1 {
      var j := FirstMarked(marks);
      assert |Classify(marks).value.answer| == 1;
    }
  }

  // ---------------------------------------------------------------------------
  // Classification of a whole sheet

  /** The answers and confidences of a sheet, one of each per row. */
  datatype Classified = Classified(answers: seq<string>, confidences: seq<real>)

  /** Classifies every row in order; the first row whose letter cannot be
      formed aborts the sheet. */
  function ClassifyRows(rows: seq<seq<bool>>): (r: Result<Classified>)
    ensures r.Success? <==> forall i :: 0 <= i < |rows| ==> Classify(rows[i]).Success?
    ensures r.Success? ==>
              && |r.value.answers| == |rows|
              && |r.value.confidences| == |rows|
              && forall i :: 0 <= i < |rows| ==>
                   Classification(r.value.answers[i], r.value.confidences[i]) == Classify(rows[i]).value
    ensures r.Failure? ==> r.error == ChrRangeError
    decreases |rows|
  {
    if |rows| == 0 then Success(Classified([], []))
    else
      match Classify(rows[0])
      case Failure(e) => Failure(e)
      case Success(first) =>
        match ClassifyRows(rows[1..])
        case Failure(e) => Failure(e)
        case Success(rest) =>
          Success(Classified([first.answer] + rest.answers, [first.confidence] + rest.confidences))
  }
}
