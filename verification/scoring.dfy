/** Scoring a sheet's answers against the answer key. The repository has two
    scorers: the recogniser's, which never credits the ambiguous sentinel,
    and the demo scorer behind the graphical front ends, which has no such
    case and compares every non-blank answer with the key. */
module Scoring {
  import opened Common
  import Marks

  /** Which of the two scorers is meant. */
  datatype Scorer = Recogniser | Demo

  /** The verdict on one question. */
  datatype Judgement = Correct | Incorrect | Blank

  /** Case-insensitive equality of an answer and a key entry. */
  predicate SameLetter(answer: string, expected: string)
  {
    Upper(answer) == Upper(expected)
  }

  /** The verdict on one answer, checked in the order the scorer checks. */
  function Judge(scorer: Scorer, answer: string, expected: string): (j: Judgement)
    ensures j == Blank <==> answer == ""
    ensures j == Correct ==> SameLetter(answer, expected)
    ensures scorer == Demo ==> (j == Correct <==> answer != "" && SameLetter(answer, expected))
    ensures scorer == Recogniser ==>
              (j == Correct <==> answer != "" && answer != Marks.Ambiguous && SameLetter(answer, expected))
  {
    if answer == "" then Blank
    else if scorer == Recogniser && answer == Marks.Ambiguous then Incorrect
    else if SameLetter(answer, expected) then Correct
    else Incorrect
  }

  /** The verdicts on the questions both the answers and the key cover:
      answers past the end of the key are never looked at. */
  function Judgements(scorer: Scorer, answers: seq<string>, key: seq<string>): (js: seq<Judgement>)
    ensures |js| == Min(|answers|, |key|)
    ensures forall i :: 0 <= i < |js| ==> js[i] == Judge(scorer, answers[i], key[i])
  {
    seq(Min(|answers|, |key|), i requires 0 <= i < Min(|answers|, |key|) => Judge(scorer, answers[i], key[i]))
  }

  /** The scorer's result: a percentage and the three tallies. */
  datatype Tally = Tally(score: real, correct: nat, incorrect: nat, blank: nat)

  /** The declarative tally: with an empty key every answer counts as blank and
      the score is 0; otherwise each tally counts its verdict and the score is
      the share of the key answered correctly, as a percentage. */
  function ExpectedTally(scorer: Scorer, answers: seq<string>, key: seq<string>): Tally
  {
    if |key| == 0 then Tally(0.0, 0, 0, |answers|)
    else
      var js := Judgements(scorer, answers, key);
      var correct := multiset(js)[Correct];
      Tally(Percentage(correct, |key|), correct, multiset(js)[Incorrect], multiset(js)[Blank])
  }

  /** The three verdict counts of a sequence of verdicts add up to its length. */
  lemma {:induction false} VerdictCountsAddUp(js: seq<Judgement>)
    ensures multiset(js)[Correct] + multiset(js)[Incorrect] + multiset(js)[Blank] == |js|
    decreases |js|
  {
    if |js| > 0 {
      var front := js[..|js| - 1];
      VerdictCountsAddUp(front);
      assert js == front + [js[|js| - 1]];
      assert multiset(js) == multiset(front) + multiset{js[|js| - 1]};
      match js[|js| - 1]
      case Correct =>
      case Incorrect =>
      case Blank =>
    }
  }

  /** Every question the key and the answers share is counted exactly once,
      and the score is the share of the key answered correctly: scaled back
      by the key's length it gives the correct count times 100, so it lies
      between 0 and 100. */
  lemma TallyAccountsForEveryQuestion(scorer: Scorer, answers: seq<string>, key: seq<string>)
    ensures var t := ExpectedTally(scorer, answers, key);
            && (|key| == 0 ==> t == Tally(0.0, 0, 0, |answers|))
            && (|key| > 0 ==> t.correct + t.incorrect + t.blank == Min(|answers|, |key|))
            && (|key| > 0 ==> IsPercentageOf(t.score, t.correct, |key|))
            && 0.0 <= t.score <= 100.0
            && t.correct <= |key|
  {
    if |key| > 0 {
      var js := Judgements(scorer, answers, key);
      VerdictCountsAddUp(js);
    }
  }

  /** Answers past the end of a non-empty key change nothing: the tally of a
      sheet that already covers the key is the tally of any longer sheet. (With
      an empty key every answer counts as blank, so there they do count.) */
  lemma ExtraAnswersIgnored(scorer: Scorer, answers: seq<string>, extra: seq<string>, key: seq<string>)
    requires 0 < |key| <= |answers|
    ensures ExpectedTally(scorer, answers + extra, key) == ExpectedTally(scorer, answers, key)
  {
    assert Judgements(scorer, answers + extra, key) == Judgements(scorer, answers, key);
  }

  /** Extending the verdicts by one adds one to that verdict's count. */
  lemma CountsSnoc(js: seq<Judgement>, i: nat)
    requires i < |js|
    ensures multiset(js[..i + 1])[Correct] == multiset(js[..i])[Correct] + if js[i] == Correct then 1 else 0
    ensures multiset(js[..i + 1])[Incorrect] == multiset(js[..i])[Incorrect] + if js[i] == Incorrect then 1 else 0
    ensures multiset(js[..i + 1])[Blank] == multiset(js[..i])[Blank] + if js[i] == Blank then 1 else 0
  {
    assert js[..i + 1] == js[..i] + [js[i]];
  }

  /** The recogniser never credits the ambiguous sentinel, whatever the key
      holds at that position. */
  lemma AmbiguousNeverCorrect(answers: seq<string>, key: seq<string>, i: nat)
    requires i < |answers| && i < |key| && answers[i] == Marks.Ambiguous
    ensures Judgements(Recogniser, answers, key)[i] == Incorrect
  {
  }

  // ---------------------------------------------------------------------------
  // The two scoring loops as the source writes them

  /** The recogniser's calculate_score. */
  method RecogniserCalculateScore(answers: seq<string>, key: seq<string>) returns (t: Tally)
    ensures t == ExpectedTally(Recogniser, answers, key)
    ensures |key| == 0 ==> t == Tally(0.0, 0, 0, |answers|)
    ensures |key| > 0 ==> t.correct + t.incorrect + t.blank == Min(|answers|, |key|)
    ensures |key| > 0 ==> IsPercentageOf(t.score, t.correct, |key|)
    ensures 0.0 <= t.score <= 100.0
  {
    if |key| == 0 {
      return Tally(0.0, 0, 0, |answers|);
    }
    ghost var js := Judgements(Recogniser, answers, key);
    var correct, incorrect, blank := 0, 0, 0;
    var i := 0;
    while i < |answers|
      invariant 0 <= i <= |answers| && i <= |key|
      invariant correct == multiset(js[..i])[Correct]
      invariant incorrect == multiset(js[..i])[Incorrect]
      invariant blank == multiset(js[..i])[Blank]
    {
      if i >= |key| {
        break;
      }
      var answer := answers[i];
      CountsSnoc(js, i);
      assert js[i] == Judge(Recogniser, answer, key[i]);
      if answer == "" {
        blank := blank + 1;
      } else if answer == Marks.Ambiguous {
        incorrect := incorrect + 1;
      } else if Upper(answer) == Upper(key[i]) {
        correct := correct + 1;
      } else {
        incorrect := incorrect + 1;
      }
      i := i + 1;
    }
    assert js[..i] == js;
    t := Tally(Percentage(correct, |key|), correct, incorrect, blank);
    TallyAccountsForEveryQuestion(Recogniser, answers, key);
  }

  /** The demo scorer's calculate_score: no case for the ambiguous sentinel. */
  method DemoCalculateScore(answers: seq<string>, key: seq<string>) returns (t: Tally)
    ensures t == ExpectedTally(Demo, answers, key)
    ensures |key| == 0 ==> t == Tally(0.0, 0, 0, |answers|)
    ensures |key| > 0 ==> t.correct + t.incorrect + t.blank == Min(|answers|, |key|)
    ensures |key| > 0 ==> IsPercentageOf(t.score, t.correct, |key|)
    ensures 0.0 <= t.score <= 100.0
  {
    if |key| == 0 {
      return Tally(0.0, 0, 0, |answers|);
    }
    ghost var js := Judgements(Demo, answers, key);
    var correct, incorrect, blank := 0, 0, 0;
    var i := 0;
    while i < |answers|
      invariant 0 <= i <= |answers| && i <= |key|
      invariant correct == multiset(js[..i])[Correct]
      invariant incorrect == multiset(js[..i])[Incorrect]
      invariant blank == multiset(js[..i])[Blank]
    {
      if i >= |key| {
        break;
      }
      var answer := answers[i];
      CountsSnoc(js, i);
      assert js[i] == Judge(Demo, answer, key[i]);
      if answer == "" {
        blank := blank + 1;
      } else if Upper(answer) == Upper(key[i]) {
        correct := correct + 1;
      } else {
        incorrect := incorrect + 1;
      }
      i := i + 1;
    }
    assert js[..i] == js;
    t := Tally(Percentage(correct, |key|), correct, incorrect, blank);
    TallyAccountsForEveryQuestion(Demo, answers, key);
  }

  // ---------------------------------------------------------------------------
  // Where the two scorers differ

  /** A position where the scorers disagree: the answer is the ambiguous
      sentinel and the key entry, ignoring case, is the sentinel too. */
  predicate Diverges(answers: seq<string>, key: seq<string>, i: int)
  {
    0 <= i < |answers| && 0 <= i < |key| && answers[i] == Marks.Ambiguous && SameLetter(answers[i], key[i])
  }

  /** Per question the demo verdict is the recogniser's, except at a
      diverging position, where the demo credits what the recogniser marks
      incorrect. */
  lemma VerdictsAgreeOffDivergence(answers: seq<string>, key: seq<string>, i: nat)
    requires i < |answers| && i < |key|
    ensures Diverges(answers, key, i) ==>
              Judge(Recogniser, answers[i], key[i]) == Incorrect && Judge(Demo, answers[i], key[i]) == Correct
    ensures !Diverges(answers, key, i) ==> Judge(Recogniser, answers[i], key[i]) == Judge(Demo, answers[i], key[i])
  {
  }

  /** Demo verdicts dominate recogniser verdicts position by position, so the
      demo credits at least as many answers, and strictly more as soon as one
      position diverges. */
  lemma {:induction false} DemoCreditsAtLeastAsMany(a: seq<Judgement>, b: seq<Judgement>)
    requires |a| == |b|
    requires forall i :: 0 <= i < |a| ==> a[i] == b[i] || (a[i] == Incorrect && b[i] == Correct)
    ensures multiset(a)[Correct] <= multiset(b)[Correct]
    ensures (exists i :: 0 <= i < |a| && a[i] != b[i]) ==> multiset(a)[Correct] < multiset(b)[Correct]
    decreases |a|
  {
    if |a| > 0 {
      var n := |a|;
      DemoCreditsAtLeastAsMany(a[..n - 1], b[..n - 1]);
      assert a == a[..n - 1] + [a[n - 1]];
      assert b == b[..n - 1] + [b[n - 1]];
      if exists i :: 0 <= i < |a| && a[i] != b[i] {
        var i :| 0 <= i < |a| && a[i] != b[i];
        if i < n - 1 {
          assert a[..n - 1][i] != b[..n - 1][i];
        }
      }
    }
  }

  /** The two scorers give the same result exactly when no position diverges;
      when one does, the demo scorer reports more correct answers. */
  lemma ScorersDisagreeOnlyOnAmbiguousKey(answers: seq<string>, key: seq<string>)
    ensures (ExpectedTally(Recogniser, answers, key) == ExpectedTally(Demo, answers, key))
              <==> !(exists i :: Diverges(answers, key, i))
    ensures (exists i :: Diverges(answers, key, i)) ==>
              ExpectedTally(Recogniser, answers, key).correct < ExpectedTally(Demo, answers, key).correct
  {
    var a := Judgements(Recogniser, answers, key);
    var b := Judgements(Demo, answers, key);
    forall i | 0 <= i < |a|
      ensures a[i] == b[i] || (a[i] == Incorrect && b[i] == Correct)
      ensures a[i] != b[i] <==> Diverges(answers, key, i)
    {
      VerdictsAgreeOffDivergence(answers, key, i);
    }
    if exists i :: Diverges(answers, key, i) {
      var i :| Diverges(answers, key, i);
      assert a[i] != b[i];
      DemoCreditsAtLeastAsMany(a, b);
    } else {
      assert a == b;
    }
  }

  // ---------------------------------------------------------------------------
  // Worked examples

  /** A fully correct sheet scores 100. */
  lemma AllCorrectScoresHundred()
    ensures ExpectedTally(Recogniser, ["A", "B", "C", "D"], ["A", "B", "C", "D"]) == Tally(100.0, 4, 0, 0)
  {
    var js := Judgements(Recogniser, ["A", "B", "C", "D"], ["A", "B", "C", "D"]);
    assert js == [Correct, Correct, Correct, Correct];
  }

  /** Two right, one wrong and one blank out of four scores 50. */
  lemma MixedSheetScoresFifty()
    ensures ExpectedTally(Recogniser, ["A", "B", "X", ""], ["A", "B", "C", "D"]) == Tally(50.0, 2, 1, 1)
  {
    var js := Judgements(Recogniser, ["A", "B", "X", ""], ["A", "B", "C", "D"]);
    assert Upper("X")[0] != Upper("C")[0];
    assert js == [Correct, Correct, Incorrect, Blank];
  }

  /** A lower-case answer matches an upper-case key entry. */
  lemma CaseIsIgnored()
    ensures ExpectedTally(Demo, ["b"], ["B"]) == Tally(100.0, 1, 0, 0)
  {
    assert Upper("b") == Upper("B");
    assert Judgements(Demo, ["b"], ["B"]) == [Correct];
  }
}
