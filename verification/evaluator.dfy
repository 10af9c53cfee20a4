/**
  The evaluation routine of main.py (`evaluate_system`): every labelled test
  case is classified, its outcome is tallied in a confusion matrix with
  phishing as the positive class, and the accuracy is computed at the end.
 */
module Evaluator {
  import opened Classifier

  /** A labelled email: the four inputs of `main` and whether it is phishing. */
  datatype TestCase = TestCase(link: string, attachments: seq<string>, body: string, subject: string, isPhishing: bool)

  /** The four cells of the confusion matrix. */
  datatype Outcome = TruePositive | FalsePositive | TrueNegative | FalseNegative

  /** The counters `TP, FP, TN, FN`. */
  datatype Tally = Tally(tp: nat, fp: nat, tn: nat, fn: nat)

  /** The classifier `evaluate_system` calls: `main(link, attachments, body, subject)`. */
  type MainFunction = (string, seq<string>, string, string) -> bool

  /** `main` of main.py under a given blocklist and set of language tools. */
  function MainUnder(cfg: Config): (main: MainFunction)
    ensures forall link, attachments, body, subject ::
      main(link, attachments, body, subject) == Main(cfg, link, attachments, body, subject)
  {
    (link, attachments, body, subject) => Main(cfg, link, attachments, body, subject)
  }

  /** What `evaluate_system` returns: the four counters and the accuracy. */
  datatype Report = Report(tally: Tally, accuracy: real)

  /** The result of an evaluation; an empty dataset raises a division by zero in main.py. */
  datatype Evaluation = Evaluated(report: Report) | ZeroDivisionError

  /** `not main(link, attachments, body, subject)`: the classifier calls the case suspicious. */
  predicate Flagged(main: MainFunction, c: TestCase)
  {
    !main(c.link, c.attachments, c.body, c.subject)
  }

  /** The `if`/`elif` chain of `evaluate_system`: each pair of booleans lands in exactly one cell. */
  function OutcomeOf(flagged: bool, isPhishing: bool): (o: Outcome)
    ensures o == TruePositive <==> flagged && isPhishing
    ensures o == FalsePositive <==> flagged && !isPhishing
    ensures o == TrueNegative <==> !flagged && !isPhishing
    ensures o == FalseNegative <==> !flagged && isPhishing
  {
    if flagged && isPhishing then TruePositive
    else if flagged && !isPhishing then FalsePositive
    else if !flagged && !isPhishing then TrueNegative
    else FalseNegative
  }

  /** The cell a test case falls into. */
  function CaseOutcome(main: MainFunction, c: TestCase): Outcome
  {
    OutcomeOf(Flagged(main, c), c.isPhishing)
  }

  /** How many of `cases` fall into cell `o`. */
  function Count(main: MainFunction, cases: seq<TestCase>, o: Outcome): (n: nat)
    ensures n <= |cases|
  {
    if |cases| == 0 then 0
    else
      Count(main, cases[..|cases| - 1], o) + (if CaseOutcome(main, cases[|cases| - 1]) == o then 1 else 0)
  }

  /** The sum of the four counters. */
  function Total(t: Tally): nat
  {
    t.tp + t.fp + t.tn + t.fn
  }

  /** `(TP + TN) / (TP + FP + TN + FN)`: the share of cases classified correctly. */
  function Accuracy(t: Tally): (a: real)
    requires Total(t) > 0
    ensures 0.0 <= a <= 1.0
    ensures a == 1.0 <==> t.fp == 0 && t.fn == 0
    ensures a == 0.0 <==> t.tp == 0 && t.tn == 0
  {
    RatioFacts((t.tp + t.tn) as real, Total(t) as real);
    (t.tp + t.tn) as real / Total(t) as real
  }

  /** A share of a positive whole lies in `[0, 1]`, is one only for the whole and zero only for nothing. */
  lemma RatioFacts(part: real, whole: real)
    requires 0.0 <= part <= whole && whole > 0.0
    ensures 0.0 <= part / whole <= 1.0
    ensures part / whole == 1.0 <==> part == whole
    ensures part / whole == 0.0 <==> part == 0.0
  {
    assert whole / whole == 1.0;
    assert part / whole <= whole / whole;
  }

  /** A cell is empty exactly when no case falls into it, and full exactly when every case does. */
  lemma {:induction false} CountExtremes(main: MainFunction, cases: seq<TestCase>, o: Outcome)
    ensures Count(main, cases, o) == 0 <==> forall i | 0 <= i < |cases| :: CaseOutcome(main, cases[i]) != o
    ensures Count(main, cases, o) == |cases| <==> forall i | 0 <= i < |cases| :: CaseOutcome(main, cases[i]) == o
  {
    if |cases| > 0 {
      var front := cases[..|cases| - 1];
      CountExtremes(main, front, o);
      assert forall i | 0 <= i < |front| :: front[i] == cases[i];
    }
  }

  /** The counts of the four cells add up to the number of cases: every case is counted once. */
  lemma {:induction false} CountsCoverEveryCase(main: MainFunction, cases: seq<TestCase>)
    ensures Count(main, cases, TruePositive) + Count(main, cases, FalsePositive)
          + Count(main, cases, TrueNegative) + Count(main, cases, FalseNegative) == |cases|
  {
    if |cases| > 0 {
      CountsCoverEveryCase(main, cases[..|cases| - 1]);
    }
  }

  /** The counters over `cases`, one count per cell. */
  function TallyOf(main: MainFunction, cases: seq<TestCase>): Tally
  {
    Tally(Count(main, cases, TruePositive), Count(main, cases, FalsePositive),
          Count(main, cases, TrueNegative), Count(main, cases, FalseNegative))
  }

  /** One more case in cell `o`. */
  function Bump(t: Tally, o: Outcome): Tally
  {
    match o
    case TruePositive => t.(tp := t.tp + 1)
    case FalsePositive => t.(fp := t.fp + 1)
    case TrueNegative => t.(tn := t.tn + 1)
    case FalseNegative => t.(fn := t.fn + 1)
  }

  /** `evaluate_system(test_cases)`. */
  method EvaluateSystem(main: MainFunction, cases: seq<TestCase>) returns (r: Evaluation)
    ensures r.ZeroDivisionError? <==> |cases| == 0
    ensures r.Evaluated? ==> r.report.tally == Tally(Count(main, cases, TruePositive), Count(main, cases, FalsePositive),
                                                     Count(main, cases, TrueNegative), Count(main, cases, FalseNegative))
    ensures r.Evaluated? ==> Total(r.report.tally) == |cases|
    ensures r.Evaluated? ==> r.report.accuracy == Accuracy(r.report.tally)
  {
    var t := Tally(0, 0, 0, 0);
    for i := 0 to |cases|
      invariant t == TallyOf(main, cases[..i])
    {
      var c := cases[i];
      var result := Flagged(main, c);
      CountStep(main, cases, i);
      if result && c.isPhishing {
        t := t.(tp := t.tp + 1);
      } else if result && !c.isPhishing {
        t := t.(fp := t.fp + 1);
      } else if !result && !c.isPhishing {
        t := t.(tn := t.tn + 1);
      } else if !result && c.isPhishing {
        t := t.(fn := t.fn + 1);
      }
    }
    assert cases[..|cases|] == cases;
    CountsCoverEveryCase(main, cases);
    var total := t.tp + t.fp + t.tn + t.fn;
    if total == 0 {
      return ZeroDivisionError;
    }
    r := Evaluated(Report(t, Accuracy(t)));
  }

  /** Counting one more case adds one to its own cell and nothing elsewhere. */
  lemma CountStep(main: MainFunction, cases: seq<TestCase>, i: nat)
    requires i < |cases|
    ensures TallyOf(main, cases[..i + 1]) == Bump(TallyOf(main, cases[..i]), CaseOutcome(main, cases[i]))
  {
    assert cases[..i + 1][..i] == cases[..i];
  }

  /** When the classifier flags every phishing case, no case is a false negative. */
  lemma {:induction false} NoMissedPhishingNoFalseNegatives(main: MainFunction, cases: seq<TestCase>)
    requires forall i | 0 <= i < |cases| :: cases[i].isPhishing ==> Flagged(main, cases[i])
    ensures Count(main, cases, FalseNegative) == 0
  {
    if |cases| > 0 {
      NoMissedPhishingNoFalseNegatives(main, cases[..|cases| - 1]);
    }
  }
}
