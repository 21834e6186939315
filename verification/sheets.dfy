/** The per-sheet result record both front ends exchange with the report
    aggregator (the AnswerSheet data class). */
module Sheets {

  /** One processed sheet. `answers` holds a letter, "" for blank or the
      ambiguous sentinel per question; `confidences` one value per question;
      `errors` the processing messages (empty on success). */
  datatype AnswerSheet = AnswerSheet(
    studentId: string,
    answers: seq<string>,
    score: real,
    totalQuestions: nat,
    correct: nat,
    incorrect: nat,
    blank: nat,
    confidences: seq<real>,
    errors: seq<string>)

  /** The identifier recorded for a sheet that could not be processed. */
  const UnknownStudent: string := "UNKNOWN"

  /** The prefix of every recorded processing message. */
  const ErrorPrefix: string := "Processing error: "

  /** The record of a sheet whose processing raised `message`: unknown student,
      no answers or confidences, zero score and tallies, and that one message. */
  function FailedSheet(totalQuestions: nat, message: string): (s: AnswerSheet)
    ensures s.studentId == UnknownStudent && s.errors == [ErrorPrefix + message]
    ensures s.answers == [] && s.confidences == []
    ensures s.score == 0.0 && s.correct == 0 && s.incorrect == 0 && s.blank == 0
    ensures s.totalQuestions == totalQuestions
  {
    AnswerSheet(UnknownStudent, [], 0.0, totalQuestions, 0, 0, 0, [], [ErrorPrefix + message])
  }
}
