/**
 * The earlier standalone quiz: the same scoring over global data, a
 * dictionary of questions keyed by name and a list of possible results.
 * Answers name their question by key rather than by position. The globals
 * are parameters here; the shipped data is the constants below.
 */
module Quiz {
  import opened Wrappers
  import opened Numbers
  import opened Codec
  import Scoring

  datatype Question = Question(text: string, scores: seq<int>)

  datatype Result = Result(name: string, description: string, img: string)

  /** A JavaScript object used as a dictionary: its keys in enumeration order and the entry under each key. */
  datatype Questions = Questions(keys: seq<string>, entries: map<string, Question>)

  predicate WellFormed(q: Questions)
  {
    && (forall i, j :: 0 <= i < j < |q.keys| ==> q.keys[i] != q.keys[j])
    && (forall key :: key in q.entries ==> key in q.keys)
    && (forall i :: 0 <= i < |q.keys| ==> q.keys[i] in q.entries)
  }

  const QUESTIONS := Questions(
    ["q1", "q2", "q3"],
    map["q1" := Question("boo", [2, 1, 0]),
        "q2" := Question("foo", [0, 2, 1]),
        "q3" := Question("zoo", [1, 0, 2])])

  const RESULTS := [
    Result("Thing1", "the first thing", ""),
    Result("Thing2", "the second thing", ""),
    Result("Thing3", "the third thing", "")]

  const POSSIBLE_RESULTS := |RESULTS|

  /** The score table: the question under the `i`-th key gives row `i`. */
  function Rows(q: Questions): (rows: seq<seq<int>>)
    requires WellFormed(q)
    ensures |rows| == |q.keys|
  {
    seq(|q.keys|, i requires 0 <= i < |q.keys| => q.entries[q.keys[i]].scores)
  }

  /** Every question has an entry for each of the `n` results. */
  predicate Scorable(q: Questions, n: nat)
  {
    WellFormed(q) && forall key :: key in q.entries ==> n <= |q.entries[key].scores|
  }

  /** Where `key` stands among the keys. */
  function Position(keys: seq<string>, key: string): (i: nat)
    requires key in keys
    ensures i < |keys| && keys[i] == key
  {
    if keys[0] == key then 0 else 1 + Position(keys[1..], key)
  }

  /** An answer `add_scores` can use: its name is a question key and its value a decimal integer. */
  predicate ValidAnswer(a: Answer, q: Questions)
  {
    a.name in q.entries && a.value.Some? && ParseInt(a.value.value).Some?
  }

  predicate AllValid(answers: seq<Answer>, q: Questions)
  {
    forall k :: 0 <= k < |answers| ==> ValidAnswer(answers[k], q)
  }

  /**
   * What `add_scores` needs: every answer names a question with an entry for
   * each of the `n` results. Questions no answer names may have any number
   * of scores.
   */
  predicate Answerable(q: Questions, n: nat, answers: seq<Answer>)
  {
    && WellFormed(q)
    && AllValid(answers, q)
    && forall k :: 0 <= k < |answers| ==> n <= |q.entries[answers[k].name].scores|
  }

  /** The answers as picks: the row of question `name`, coefficient `Number(value)`. */
  function Picks(q: Questions, answers: seq<Answer>): (picks: seq<Scoring.Pick>)
    requires WellFormed(q) && AllValid(answers, q)
    ensures |picks| == |answers|
  {
    seq(|answers|, k requires 0 <= k < |answers| =>
      Scoring.Pick(Position(q.keys, answers[k].name), ParseInt(answers[k].value.value).value))
  }

  /** Specification of `add_scores`: the answers applied in order to a zero vector. */
  function Totals(q: Questions, n: nat, answers: seq<Answer>): seq<int>
    requires Answerable(q, n, answers)
  {
    Scoring.Accumulate(Rows(q), n, Picks(q, answers))
  }

  /** Specification of `get_maximum_scores`. */
  function MaximumScores(q: Questions, n: nat): seq<int>
    requires Scorable(q, n)
  {
    Scoring.Maxima(Rows(q), n)
  }

  /** Sums each answered question's scores, times the answer's value, into one total per result. */
  method AddScores(questions: Questions, possibleResults: nat, answers: seq<Answer>) returns (total: seq<int>)
    requires Answerable(questions, possibleResults, answers)
    ensures total == Totals(questions, possibleResults, answers)
  {
    var sums := new int[possibleResults](_ => 0);
    for k := 0 to |answers|
      invariant sums[..] == Totals(questions, possibleResults, answers[..k])
    {
      var answer := answers[k];
      var coefficient := ParseInt(answer.value.value).value;
      var scores := questions.entries[answer.name].scores;
      ghost var before := sums[..];
      for i := 0 to possibleResults
        invariant forall j :: 0 <= j < i ==> sums[j] == before[j] + coefficient * scores[j]
        invariant forall j :: i <= j < possibleResults ==> sums[j] == before[j]
      {
        sums[i] := sums[i] + coefficient * scores[i];
      }
      assert sums[..] == Scoring.AddScaled(before, coefficient, scores);
      assert Picks(questions, answers[..k + 1])[..k] == Picks(questions, answers[..k]);
    }
    assert answers[..|answers|] == answers;
    total := sums[..];
  }

  /** Adds up `|score|` per result over the questions, in key order. */
  method GetMaximumScores(questions: Questions, possibleResults: nat) returns (maxima: seq<int>)
    requires Scorable(questions, possibleResults)
    ensures maxima == MaximumScores(questions, possibleResults)
  {
    var sums := new int[possibleResults](_ => 0);
    ghost var rows := Rows(questions);
    var keys := questions.keys;
    for q := 0 to |keys|
      invariant sums[..] == Scoring.Maxima(rows[..q], possibleResults)
    {
      var scores := questions.entries[keys[q]].scores;
      ghost var before := sums[..];
      for i := 0 to possibleResults
        invariant forall j :: 0 <= j < i ==> sums[j] == before[j] + Scoring.Abs(scores[j])
        invariant forall j :: i <= j < possibleResults ==> sums[j] == before[j]
      {
        sums[i] := sums[i] + Scoring.Abs(scores[i]);
      }
      assert sums[..] == Scoring.AddAbs(before, scores);
      assert rows[..q + 1][..q] == rows[..q];
    }
    assert rows[..|keys|] == rows;
    maxima := sums[..];
  }

  /** The result whose total is highest, the first one on a tie. */
  function GetBestResult(results: seq<Result>, scores: seq<int>): (best: Result)
    requires 0 < |scores| <= |results|
    ensures exists k: nat :: Scoring.FirstMaximum(scores, k) && best == results[k]
  {
    results[Scoring.BestIndex(scores)]
  }

  /** Decodes the `r` parameter into answers, or `None` when it is missing or empty. */
  method GetAnswersFromCode(code: Option<string>) returns (answers: Option<seq<Answer>>)
    ensures answers == Decode(code)
  {
    if code.None? || code.value == "" {
      return None;
    }
    var result: seq<Answer> := [];
    var params := Strings.Split(code.value, '&');
    for k := 0 to |params|
      invariant |result| == k
      invariant forall j :: 0 <= j < k ==> result[j] == DecodeSegment(params[j])
    {
      var answer := Strings.Split(params[k], '=');
      result := result + [Answer(answer[0], if |answer| > 1 then Some(answer[1]) else None)];
    }
    assert result == Decode(code).value;
    return Some(result);
  }

  /** The outcome of each advisory check: true for "OK", false where the source logs "NOT OK". */
  datatype Report = Report(scoreLengths: bool, nonzeroMaxima: bool)

  /** Every question has exactly one score per possible result. */
  method CheckScoreLengths(questions: Questions, possibleResults: nat) returns (pass: bool)
    requires WellFormed(questions)
    ensures pass <==> forall key :: key in questions.entries ==> |questions.entries[key].scores| == possibleResults
  {
    pass := true;
    var keys := questions.keys;
    for q := 0 to |keys|
      invariant pass <==> forall j :: 0 <= j < q ==> |questions.entries[keys[j]].scores| == possibleResults
    {
      if |questions.entries[keys[q]].scores| != possibleResults {
        pass := false;
      }
    }
    assert forall key :: key in questions.entries ==> keys[Position(keys, key)] == key;
  }

  /** Some question gives result `c` a nonzero score. */
  predicate ScoredInto(q: Questions, c: nat)
  {
    exists key :: key in q.entries && c < |q.entries[key].scores| && q.entries[key].scores[c] != 0
  }

  /** A result's maximum is 0 exactly when no question scores into it. */
  lemma MaximumZeroIffUnscored(q: Questions, n: nat, c: nat)
    requires Scorable(q, n) && c < n
    ensures MaximumScores(q, n)[c] == 0 <==> !ScoredInto(q, c)
  {
    var rows := Rows(q);
    Scoring.MaximaEntry(rows, n, c);
    Scoring.AbsColumnSumZero(rows, c);
    if ScoredInto(q, c) {
      var key :| key in q.entries && q.entries[key].scores[c] != 0;
      assert rows[Position(q.keys, key)][c] != 0;
    }
  }

  /** No result's maximum is 0: every result can be scored into. */
  method CheckNonzeroMaxima(questions: Questions, possibleResults: nat) returns (pass: bool)
    requires Scorable(questions, possibleResults)
    ensures pass <==> forall c :: 0 <= c < possibleResults ==> ScoredInto(questions, c)
  {
    var maxima := GetMaximumScores(questions, possibleResults);
    pass := 0 !in maxima;
    forall c | 0 <= c < possibleResults ensures maxima[c] == 0 <==> !ScoredInto(questions, c) {
      MaximumZeroIffUnscored(questions, possibleResults, c);
    }
  }

  /** Runs both checks and reports each outcome. */
  method Validate(questions: Questions, possibleResults: nat) returns (report: Report)
    requires Scorable(questions, possibleResults)
    ensures report.scoreLengths <==>
              forall key :: key in questions.entries ==> |questions.entries[key].scores| == possibleResults
    ensures report.nonzeroMaxima <==> forall c :: 0 <= c < possibleResults ==> ScoredInto(questions, c)
  {
    var lengths := CheckScoreLengths(questions, possibleResults);
    var nonzero := CheckNonzeroMaxima(questions, possibleResults);
    report := Report(lengths, nonzero);
  }

  /** No question is answered twice. */
  predicate DistinctQuestions(answers: seq<Answer>)
  {
    forall i, j :: 0 <= i < j < |answers| ==> answers[i].name != answers[j].name
  }

  /** Every answer is agree (1) or disagree (-1). */
  predicate AgreeOrDisagree(answers: seq<Answer>)
  {
    forall k :: 0 <= k < |answers| ==> answers[k].value == Some("1") || answers[k].value == Some("-1")
  }

  /**
   * With each question answered at most once, agree or disagree, every
   * total lies within plus or minus the result's maximum.
   */
  lemma TotalsWithinMaxima(q: Questions, n: nat, answers: seq<Answer>)
    requires Scorable(q, n) && AllValid(answers, q)
    requires DistinctQuestions(answers) && AgreeOrDisagree(answers)
    ensures forall c :: 0 <= c < n ==> -MaximumScores(q, n)[c] <= Totals(q, n, answers)[c] <= MaximumScores(q, n)[c]
  {
    var picks := Picks(q, answers);
    assert ParseInt("1") == Some(1) && ParseInt("-1") == Some(-1);
    assert Scoring.EachRowAtMostOnce(picks) by {
      forall i, j | 0 <= i < j < |picks| ensures picks[i].row != picks[j].row {
        assert q.keys[picks[i].row] == answers[i].name;
        assert q.keys[picks[j].row] == answers[j].name;
      }
    }
    Scoring.AccumulateWithinMaxima(Rows(q), n, picks);
  }

  /**
   * No answers give all zeros, and totals add up over concatenated answer
   * lists: a question answered twice contributes twice.
   */
  lemma TotalsAdditive(q: Questions, n: nat, first: seq<Answer>, second: seq<Answer>)
    requires Answerable(q, n, first) && Answerable(q, n, second)
    ensures Totals(q, n, []) == Scoring.Zeros(n)
    ensures Answerable(q, n, first + second)
    ensures forall c :: 0 <= c < n ==> Totals(q, n, first + second)[c] == Totals(q, n, first)[c] + Totals(q, n, second)[c]
  {
    var both := first + second;
    forall k | 0 <= k < |both|
      ensures ValidAnswer(both[k], q) && n <= |q.entries[both[k].name].scores|
    {
      if k < |first| {
        assert both[k] == first[k];
      } else {
        assert both[k] == second[k - |first|];
      }
    }
    assert Answerable(q, n, both);
    assert Picks(q, both) == Picks(q, first) + Picks(q, second);
    Scoring.AccumulateConcat(Rows(q), n, Picks(q, first), Picks(q, second));
  }

  /** The shipped questions as a score table. */
  lemma ShippedRows()
    ensures WellFormed(QUESTIONS)
    ensures Rows(QUESTIONS) == [[2, 1, 0], [0, 2, 1], [1, 0, 2]]
  {
    var rows := Rows(QUESTIONS);
    assert rows[0] == [2, 1, 0] && rows[1] == [0, 2, 1] && rows[2] == [1, 0, 2];
  }

  /** The maxima of the shipped score table, one row at a time. */
  lemma ShippedMaxima()
    ensures Scoring.Maxima([[2, 1, 0], [0, 2, 1], [1, 0, 2]], 3) == [3, 3, 3]
  {
    var none: seq<seq<int>> := [];
    var one: seq<seq<int>> := [[2, 1, 0]];
    var two: seq<seq<int>> := [[2, 1, 0], [0, 2, 1]];
    var three: seq<seq<int>> := [[2, 1, 0], [0, 2, 1], [1, 0, 2]];
    assert one[..0] == none && two[..1] == one && three[..2] == two;
    var m0 := Scoring.Maxima(none, 3);
    assert m0 == [0, 0, 0];
    var m1 := Scoring.Maxima(one, 3);
    assert m1 == Scoring.AddAbs(m0, [2, 1, 0]);
    assert m1 == [2, 1, 0];
    var m2 := Scoring.Maxima(two, 3);
    assert m2 == Scoring.AddAbs(m1, [0, 2, 1]);
    assert m2 == [2, 3, 1];
    var m3 := Scoring.Maxima(three, 3);
    assert m3 == Scoring.AddAbs(m2, [1, 0, 2]);
  }

  /** The shipped questions pass both checks: three scores each, and maxima of [3, 3, 3]. */
  lemma ShippedQuizPassesChecks()
    ensures Scorable(QUESTIONS, POSSIBLE_RESULTS)
    ensures forall key :: key in QUESTIONS.entries ==> |QUESTIONS.entries[key].scores| == POSSIBLE_RESULTS
    ensures MaximumScores(QUESTIONS, POSSIBLE_RESULTS) == [3, 3, 3]
    ensures forall c :: 0 <= c < POSSIBLE_RESULTS ==> ScoredInto(QUESTIONS, c)
  {
    ShippedRows();
    ShippedMaxima();
    forall c | 0 <= c < POSSIBLE_RESULTS ensures ScoredInto(QUESTIONS, c) {
      MaximumZeroIffUnscored(QUESTIONS, POSSIBLE_RESULTS, c);
    }
  }

  /** The shipped example's answers, as picks of score rows. */
  lemma ShippedExamplePicks()
    ensures var answers := [Answer("q1", Some("1")), Answer("q2", Some("1")), Answer("q3", Some("-1"))];
            && AllValid(answers, QUESTIONS)
            && Picks(QUESTIONS, answers) == [Scoring.Pick(0, 1), Scoring.Pick(1, 1), Scoring.Pick(2, -1)]
  {
    assert ParseInt("1") == Some(1) && ParseInt("-1") == Some(-1);
    ShippedRows();
    assert Position(QUESTIONS.keys, "q2") == 1 && Position(QUESTIONS.keys, "q3") == 2;
  }

  /** The shipped example's totals, one pick at a time. */
  lemma ShippedExampleTotals()
    ensures Scoring.Accumulate([[2, 1, 0], [0, 2, 1], [1, 0, 2]], 3,
                               [Scoring.Pick(0, 1), Scoring.Pick(1, 1), Scoring.Pick(2, -1)]) == [1, 3, -1]
  {
    var rows: seq<seq<int>> := [[2, 1, 0], [0, 2, 1], [1, 0, 2]];
    var none: seq<Scoring.Pick> := [];
    var one := [Scoring.Pick(0, 1)];
    var two := [Scoring.Pick(0, 1), Scoring.Pick(1, 1)];
    var three := [Scoring.Pick(0, 1), Scoring.Pick(1, 1), Scoring.Pick(2, -1)];
    assert one[..0] == none && two[..1] == one && three[..2] == two;
    var t0 := Scoring.Accumulate(rows, 3, none);
    assert t0 == [0, 0, 0];
    var t1 := Scoring.Accumulate(rows, 3, one);
    assert t1 == Scoring.AddScaled(t0, 1, [2, 1, 0]);
    assert t1 == [2, 1, 0];
    var t2 := Scoring.Accumulate(rows, 3, two);
    assert t2 == Scoring.AddScaled(t1, 1, [0, 2, 1]);
    assert t2 == [2, 3, 1];
    var t3 := Scoring.Accumulate(rows, 3, three);
    assert t3 == Scoring.AddScaled(t2, -1, [1, 0, 2]);
  }

  /** Agreeing with q1 and q2 and disagreeing with q3 totals [1, 3, -1], best matched by Thing2. */
  lemma ShippedExample()
    ensures var answers := [Answer("q1", Some("1")), Answer("q2", Some("1")), Answer("q3", Some("-1"))];
            && AllValid(answers, QUESTIONS)
            && Totals(QUESTIONS, POSSIBLE_RESULTS, answers) == [1, 3, -1]
            && GetBestResult(RESULTS, [1, 3, -1]).name == "Thing2"
  {
    ShippedExamplePicks();
    ShippedRows();
    ShippedExampleTotals();
    assert Scoring.FirstMaximum([1, 3, -1], 1);
  }

  /** With no answers every total is 0, and the tie goes to the first result, Thing1. */
  lemma ShippedNoAnswers()
    ensures Totals(QUESTIONS, POSSIBLE_RESULTS, []) == [0, 0, 0]
    ensures GetBestResult(RESULTS, [0, 0, 0]).name == "Thing1"
  {
    ShippedQuizPassesChecks();
    assert Scoring.FirstMaximum([0, 0, 0], 0);
  }
}
