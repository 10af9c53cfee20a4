/**
  The grammar check of main.py (`has_grammar_errors`). The spelling corrector
  and the word tokenizer belong to an external library; they are the two
  uninterpreted functions of an `Nlp` value. What is modelled is the counting
  rule: the original and corrected word lists are zipped, so words are compared
  by position and the longer list's tail is ignored.
 */
module Grammar {

  /** The external language tools: `TextBlob(t).words` and `TextBlob(t).correct()`. */
  datatype Nlp = Nlp(words: string -> seq<string>, correct: string -> string)

  /** The default `threshold` of `has_grammar_errors`. */
  const DefaultThreshold: int := 5

  /** The positions, up to the shorter length, where the two word lists differ. */
  function DiffPositions(words: seq<string>, corrected: seq<string>): set<nat>
  {
    set i: nat | i < |words| && i < |corrected| && words[i] != corrected[i]
  }

  /** `sum(1 for w, c in zip(words, corrected) if w != c)`. */
  function CountDiffs(words: seq<string>, corrected: seq<string>): (n: nat)
    ensures n <= |words| && n <= |corrected|
    ensures n == 0 <==> forall i | 0 <= i < |words| && i < |corrected| :: words[i] == corrected[i]
  {
    if |words| == 0 || |corrected| == 0 then 0
    else
      var rest := CountDiffs(words[1..], corrected[1..]);
      assert forall i | 1 <= i < |words| && i < |corrected| ::
        words[i] == words[1..][i - 1] && corrected[i] == corrected[1..][i - 1];
      (if words[0] != corrected[0] then 1 else 0) + rest
  }

  /** Every position moved one to the right. */
  function Shift(s: set<nat>): set<nat>
  {
    set i | i in s :: i + 1
  }

  lemma InShift(s: set<nat>, j: nat)
    ensures j in Shift(s) <==> j > 0 && j - 1 in s
  {
    if j > 0 && j - 1 in s {
      assert j == (j - 1) + 1;
    }
  }

  /** Shifting a set of positions by one keeps its size. */
  lemma {:induction false} ShiftKeepsSize(s: set<nat>)
    ensures |Shift(s)| == |s|
    decreases |s|
  {
    if s != {} {
      var x :| x in s;
      var rest := s - {x};
      ShiftKeepsSize(rest);
      InShift(rest, x + 1);
      assert Shift(s) == Shift(rest) + {x + 1} by {
        forall j: nat ensures j in Shift(s) <==> j in Shift(rest) + {x + 1} {
          InShift(s, j);
          InShift(rest, j);
        }
      }
    }
  }

  /** The count is the number of positions at which the zipped words differ. */
  lemma {:induction false} CountIsDiffPositions(words: seq<string>, corrected: seq<string>)
    ensures CountDiffs(words, corrected) == |DiffPositions(words, corrected)|
    decreases |words|
  {
    if |words| == 0 || |corrected| == 0 {
      assert DiffPositions(words, corrected) == {};
    } else {
      var tail := DiffPositions(words[1..], corrected[1..]);
      CountIsDiffPositions(words[1..], corrected[1..]);
      ShiftKeepsSize(tail);
      DiffPositionsCons(words, corrected);
      InShift(tail, 0);
    }
  }

  /** The differing positions of two non-empty lists: the first one if it differs, then those of the tails, shifted. */
  lemma DiffPositionsCons(words: seq<string>, corrected: seq<string>)
    requires |words| > 0 && |corrected| > 0
    ensures var head: set<nat> := if words[0] != corrected[0] then {0} else {};
      DiffPositions(words, corrected) == head + Shift(DiffPositions(words[1..], corrected[1..]))
  {
    var tail := DiffPositions(words[1..], corrected[1..]);
    var head: set<nat> := if words[0] != corrected[0] then {0} else {};
    forall i: nat ensures i in DiffPositions(words, corrected) <==> i in head + Shift(tail) {
      InShift(tail, i);
    }
  }

  /** `has_grammar_errors(body, threshold)`: more words changed by correction than the threshold. */
  function HasGrammarErrors(nlp: Nlp, body: string, threshold: int): (r: bool)
    ensures r <==> |DiffPositions(nlp.words(body), nlp.words(nlp.correct(body)))| > threshold
  {
    var words := nlp.words(body);
    var corrected := nlp.words(nlp.correct(body));
    CountIsDiffPositions(words, corrected);
    CountDiffs(words, corrected) > threshold
  }

  /** A text the corrector leaves alone has no grammar errors, for any threshold of at least zero. */
  lemma UncorrectedTextIsClean(nlp: Nlp, body: string, threshold: int)
    requires nlp.correct(body) == body && threshold >= 0
    ensures !HasGrammarErrors(nlp, body, threshold)
  {
  }

  /** Words beyond the shorter list are never compared: zip truncates. */
  lemma TrailingWordsIgnored(words: seq<string>, extra: seq<string>)
    ensures CountDiffs(words, words + extra) == 0
    ensures CountDiffs(words + extra, words) == 0
  {
  }

  /**
    Index alignment is fragile: one word inserted at the front by the corrector
    makes every position differ when no two neighbouring words are equal.
   */
  lemma {:induction false} InsertionShiftsEveryWord(x: string, words: seq<string>)
    requires |words| > 0 ==> x != words[0]
    requires forall i | 0 <= i < |words| - 1 :: words[i] != words[i + 1]
    ensures CountDiffs(words, [x] + words) == |words|
    decreases |words|
  {
    if |words| > 0 {
      assert ([x] + words)[1..] == words == [words[0]] + words[1..];
      InsertionShiftsEveryWord(words[0], words[1..]);
    }
  }
}
