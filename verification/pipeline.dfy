/** Processing one sheet end to end: image, grid, marks, classification,
    score and identifier, with every failure turned into an error record. */
module Pipeline {
  import opened Common
  import opened OmrConfig
  import opened Grid
  import opened Marks
  import opened Scoring
  import opened StudentId
  import opened Sheets

  /** What the image-processing library makes of a decoded sheet: its
      external contours and, for any bounding box, the ink it contains. */
  datatype Image = Image(contours: seq<Region>, measure: Region -> PixelCount)

  /** The message raised when the image file cannot be decoded. */
  function CouldNotLoad(path: string): string
  {
    "Could not load image: " + path
  }

  /** The answers and confidences a sheet yields, or the message of the
      exception that stops it: an undecodable image, too few regions, or an
      option letter out of range. */
  function Recognise(c: Config, path: string, image: Option<Image>): (r: Result<Classified>)
    ensures image.None? ==> r == Failure(CouldNotLoad(path))
    ensures image.Some? && ExpectedGrid(c, image.value.contours).Failure? ==>
              r == Failure(ExpectedGrid(c, image.value.contours).error)
    ensures image.Some? && ExpectedGrid(c, image.value.contours).Success? ==>
              var rows := ExpectedGrid(c, image.value.contours).value.rows;
              && (r.Success? <==> forall i :: 0 <= i < |rows| ==>
                                    Classify(DetectMarkedAnswers(c, rows, image.value.measure)[i]).Success?)
              && (r.Success? ==> |r.value.answers| == |rows| && |r.value.confidences| == |rows|)
              && (r.Failure? ==> r.error == ChrRangeError)
  {
    match image
    case None => Failure(CouldNotLoad(path))
    case Some(img) =>
      match ExpectedGrid(c, img.contours)
      case Failure(e) => Failure(e)
      case Success(grid) => ClassifyRows(DetectMarkedAnswers(c, grid.rows, img.measure))
  }

  /** A confidence the classifier can attach to a row. */
  predicate IsClassifierConfidence(x: real)
  {
    x == BlankConfidence || x == SingleConfidence || x == AmbiguousConfidence
  }

  /** The recogniser's process_answer_sheet, with the image decoder and the
      contour library supplied as `image`. */
  method ProcessAnswerSheet(c: Config, key: seq<string>, path: string, image: Option<Image>)
    returns (sheet: AnswerSheet)
    ensures sheet.totalQuestions == |key|
    ensures |sheet.errors| <= 1
    ensures Recognise(c, path, image).Failure? ==>
              sheet == FailedSheet(|key|, Recognise(c, path, image).error)
    ensures image.None? ==> sheet == FailedSheet(|key|, CouldNotLoad(path))
    ensures Recognise(c, path, image).Success? ==>
              && sheet.errors == []
              && sheet.studentId == ExtractStudentId(path)
              && sheet.answers == Recognise(c, path, image).value.answers
              && sheet.confidences == Recognise(c, path, image).value.confidences
              && Tally(sheet.score, sheet.correct, sheet.incorrect, sheet.blank)
                   == ExpectedTally(Recogniser, sheet.answers, key)
    ensures sheet.errors == [] ==>
              && |sheet.answers| == |sheet.confidences|
              && (forall i :: 0 <= i < |sheet.confidences| ==> IsClassifierConfidence(sheet.confidences[i]))
              && 0.0 <= sheet.score <= 100.0
              && (|key| > 0 ==> sheet.correct + sheet.incorrect + sheet.blank == Min(|sheet.answers|, |key|))
              && (|key| == 0 ==> sheet.blank == |sheet.answers|)
  {
    if image.None? {
      return FailedSheet(|key|, CouldNotLoad(path));
    }
    var img := image.value;
    var grid := DetectAnswerGrid(c, img.contours);
    if grid.Failure? {
      return FailedSheet(|key|, grid.error);
    }
    var marks := DetectMarkedAnswers(c, grid.value.rows, img.measure);
    var classified := ClassifyRows(marks);
    if classified.Failure? {
      return FailedSheet(|key|, classified.error);
    }
    var answers := classified.value.answers;
    var confidences := classified.value.confidences;
    ClassifiedConfidences(marks);
    var t := RecogniserCalculateScore(answers, key);
    var studentId := RecogniserExtractStudentId(path);
    sheet := AnswerSheet(studentId, answers, t.score, |key|, t.correct, t.incorrect, t.blank, confidences, []);
  }

  /** Every confidence of a classified sheet is one of the three fixed values. */
  lemma ClassifiedConfidences(marks: seq<seq<bool>>)
    requires ClassifyRows(marks).Success?
    ensures forall i :: 0 <= i < |ClassifyRows(marks).value.confidences| ==>
              IsClassifierConfidence(ClassifyRows(marks).value.confidences[i])
  {
    var cl := ClassifyRows(marks).value;
    forall i | 0 <= i < |cl.confidences|
      ensures IsClassifierConfidence(cl.confidences[i])
    {
      var row := marks[i];
      if MarkCount(row) == 1 {
        var j := FirstMarked(row);
        assert Classify(row).value.confidence == SingleConfidence;
      }
    }
  }

  /** A successfully processed sheet has one answer per detected row. */
  lemma OneAnswerPerRow(c: Config, path: string, img: Image)
    ensures Recognise(c, path, Some(img)).Success? ==>
              && ExpectedGrid(c, img.contours).Success?
              && |Recognise(c, path, Some(img)).value.answers| == |ExpectedGrid(c, img.contours).value.rows|
  {
  }
}
