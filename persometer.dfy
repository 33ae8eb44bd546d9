/**
 * The scoring core of the Persometer library widget: the configuration's
 * categories (personas) and agree/disagree statements, the expansion of
 * scores keyed by category id, the advisory checks, aggregation of answers
 * into per-category totals, the maxima used to normalise them, the best
 * match, and the decoding of the result code.
 *
 * The widget closes over its configuration; here the categories and
 * statements are parameters.
 */
module Persometer {
  import opened Wrappers
  import opened Numbers
  import opened Codec
  import Scoring

  datatype Category = Category(id: Option<string>, name: string, description: string, image: Option<string>)

  /** A statement's scores: one per category in category order, or keyed by category id. */
  datatype Scores = Positional(values: seq<int>) | Keyed(byId: map<string, int>)

  datatype Statement = Statement(text: string, scores: Scores)

  /** The category has an id that JavaScript treats as true: present and not empty. */
  predicate HasId(c: Category)
  {
    c.id.Some? && c.id.value != ""
  }

  /**
   * The id-to-position map built by folding over the categories: every
   * category with an id is entered, and a repeated id ends up at its last
   * position.
   */
  function CategoryToIndex(categories: seq<Category>): (index: map<string, nat>)
    ensures forall i :: 0 <= i < |categories| && HasId(categories[i]) ==> categories[i].id.value in index
    ensures forall id :: id in index ==> id != "" && index[id] < |categories| && categories[index[id]].id == Some(id)
    ensures forall id, j :: id in index && index[id] < j < |categories| ==> categories[j].id != Some(id)
    decreases |categories|
  {
    if categories == [] then map[]
    else
      var last := |categories| - 1;
      var index := CategoryToIndex(categories[..last]);
      if HasId(categories[last]) then index[categories[last].id.value := last] else index
  }

  /**
   * Specification of expanding keyed scores: position `i` holds the score
   * keyed by category `i`'s id when that id maps to `i`, and 0 otherwise.
   */
  function KeyedScores(categories: seq<Category>, byId: map<string, int>): (scores: seq<int>)
    ensures |scores| == |categories|
  {
    var index := CategoryToIndex(categories);
    seq(|categories|, i requires 0 <= i < |categories| =>
      var c := categories[i];
      if HasId(c) && c.id.value in byId && index[c.id.value] == i then byId[c.id.value] else 0)
  }

  /**
   * Each key that is a category id places its score at the last position
   * carrying that id; every position no key maps to holds 0.
   */
  lemma KeyedScoresPlacement(categories: seq<Category>, byId: map<string, int>)
    ensures forall id :: id in byId && id in CategoryToIndex(categories) ==>
              KeyedScores(categories, byId)[CategoryToIndex(categories)[id]] == byId[id]
    ensures forall i :: (0 <= i < |categories| &&
              forall id :: id in byId && id in CategoryToIndex(categories) ==> CategoryToIndex(categories)[id] != i) ==>
              KeyedScores(categories, byId)[i] == 0
  {
  }

  /** Position `i` of the array under expansion once the keys in `done` have been placed. */
  ghost predicate PlacedAt(categories: seq<Category>, index: map<string, nat>, byId: map<string, int>,
                           done: set<string>, scores: seq<int>, i: nat)
    requires i < |categories| && i < |scores|
    requires forall id :: id in index ==> index[id] < |categories|
  {
    var c := categories[i];
    scores[i] == if HasId(c) && c.id.value in done && c.id.value in byId && c.id.value in index && index[c.id.value] == i
                 then byId[c.id.value] else 0
  }

  /**
   * Expands one keyed `scores` object: a zero array of one entry per
   * category, then each key's score written at the key's position. Keys are
   * visited in an arbitrary order; a key that is not a category id lands on
   * no position.
   */
  method ExpandKeyedScores(categories: seq<Category>, index: map<string, nat>, byId: map<string, int>)
    returns (scores: seq<int>)
    requires index == CategoryToIndex(categories)
    ensures scores == KeyedScores(categories, byId)
  {
    var expanded := new int[|categories|](_ => 0);
    var keys := byId.Keys;
    ghost var done: set<string> := {};
    while keys != {}
      invariant keys + done == byId.Keys && keys !! done
      invariant forall i :: 0 <= i < |categories| ==> PlacedAt(categories, index, byId, done, expanded[..], i)
      decreases keys
    {
      var key :| key in keys;
      ghost var before := expanded[..];
      if key in index {
        expanded[index[key]] := byId[key];
      }
      forall i | 0 <= i < |categories|
        ensures PlacedAt(categories, index, byId, done + {key}, expanded[..], i)
      {
        assert PlacedAt(categories, index, byId, done, before, i);
        if key in index && i == index[key] {
          assert categories[i].id == Some(key);
        } else {
          assert expanded[i] == before[i];
          assert HasId(categories[i]) && categories[i].id.value == key ==> key in index;
        }
      }
      keys := keys - {key};
      done := done + {key};
    }
    scores := expanded[..];
    assert done == byId.Keys;
    forall i | 0 <= i < |categories| ensures scores[i] == KeyedScores(categories, byId)[i] {
      assert PlacedAt(categories, index, byId, done, scores, i);
    }
  }

  /** A statement as the widget holds it after construction: keyed scores expanded, positional ones untouched. */
  function Normalised(categories: seq<Category>, s: Statement): Statement
  {
    match s.scores
    case Positional(_) => s
    case Keyed(byId) => s.(scores := Positional(KeyedScores(categories, byId)))
  }

  /**
   * After normalisation every statement's scores are positional; expanded
   * ones have one entry per category and their text is kept.
   */
  lemma NormalisedIsPositional(categories: seq<Category>, s: Statement)
    ensures Normalised(categories, s).scores.Positional?
    ensures Normalised(categories, s).text == s.text
    ensures s.scores.Keyed? ==> |Normalised(categories, s).scores.values| == |categories|
    ensures s.scores.Positional? ==> Normalised(categories, s) == s
  {
  }

  /** The construction step that rewrites each statement with keyed scores in place. */
  method NormaliseStatements(categories: seq<Category>, statements: array<Statement>)
    modifies statements
    ensures forall j :: 0 <= j < statements.Length ==> statements[j] == Normalised(categories, old(statements[j]))
  {
    var index := CategoryToIndex(categories);
    for j := 0 to statements.Length
      invariant forall k :: 0 <= k < j ==> statements[k] == Normalised(categories, old(statements[k]))
      invariant forall k :: j <= k < statements.Length ==> statements[k] == old(statements[k])
    {
      var statement := statements[j];
      if statement.scores.Keyed? {
        var scores := ExpandKeyedScores(categories, index, statement.scores.byId);
        statements[j] := statement.(scores := Positional(scores));
      }
    }
  }

  /** Every statement is positional with an entry for each of the `n` categories. */
  predicate Scorable(statements: seq<Statement>, n: nat)
  {
    forall s :: 0 <= s < |statements| ==> statements[s].scores.Positional? && n <= |statements[s].scores.values|
  }

  /** The score table: statement `s`'s scores as row `s`. */
  function Rows(statements: seq<Statement>): (rows: seq<seq<int>>)
    requires forall s :: 0 <= s < |statements| ==> statements[s].scores.Positional?
    ensures |rows| == |statements|
  {
    seq(|statements|, s requires 0 <= s < |statements| => statements[s].scores.values)
  }

  /** An answer `add_scores` can use: its name is a statement index in range and its value a decimal integer. */
  predicate ValidAnswer(a: Answer, count: nat)
  {
    && ParseInt(a.name).Some? && 0 <= ParseInt(a.name).value < count
    && a.value.Some? && ParseInt(a.value.value).Some?
  }

  predicate AllValid(answers: seq<Answer>, count: nat)
  {
    forall k :: 0 <= k < |answers| ==> ValidAnswer(answers[k], count)
  }

  /**
   * What `add_scores` needs of the configuration: every statement positional
   * (as normalisation leaves them) and every answer naming a statement
   * that has an entry for each of the `n` categories. Statements no answer
   * names may have any number of scores.
   */
  predicate Answerable(statements: seq<Statement>, n: nat, answers: seq<Answer>)
  {
    && (forall s :: 0 <= s < |statements| ==> statements[s].scores.Positional?)
    && AllValid(answers, |statements|)
    && forall k :: 0 <= k < |answers| ==> n <= |statements[ParseInt(answers[k].name).value].scores.values|
  }

  /** The answers as picks: statement index `Number(name)`, coefficient `Number(value)`. */
  function Picks(answers: seq<Answer>, count: nat): (picks: seq<Scoring.Pick>)
    requires AllValid(answers, count)
    ensures |picks| == |answers|
  {
    seq(|answers|, k requires 0 <= k < |answers| =>
      Scoring.Pick(ParseInt(answers[k].name).value as nat, ParseInt(answers[k].value.value).value))
  }

  /** Specification of `add_scores`: the answers applied in order to a zero vector. */
  function Totals(statements: seq<Statement>, n: nat, answers: seq<Answer>): (total: seq<int>)
    requires Answerable(statements, n, answers)
  {
    Scoring.Accumulate(Rows(statements), n, Picks(answers, |statements|))
  }

  /** Specification of `get_maximum_scores`. */
  function MaximumScores(statements: seq<Statement>, n: nat): (maxima: seq<int>)
    requires Scorable(statements, n)
  {
    Scoring.Maxima(Rows(statements), n)
  }

  /**
   * Sums the statements' scores over the answers, adding them for agree and
   * subtracting them for disagree, into one total per category.
   */
  method AddScores(categories: seq<Category>, statements: seq<Statement>, answers: seq<Answer>)
    returns (total: seq<int>)
    requires Answerable(statements, |categories|, answers)
    ensures total == Totals(statements, |categories|, answers)
  {
    var n := |categories|;
    var sums := new int[n](_ => 0);
    for k := 0 to |answers|
      invariant sums[..] == Totals(statements, n, answers[..k])
    {
      var answer := answers[k];
      var coefficient := ParseInt(answer.value.value).value;
      var scores := statements[ParseInt(answer.name).value].scores.values;
      ghost var before := sums[..];
      for i := 0 to n
        invariant forall j :: 0 <= j < i ==> sums[j] == before[j] + coefficient * scores[j]
        invariant forall j :: i <= j < n ==> sums[j] == before[j]
      {
        sums[i] := sums[i] + coefficient * scores[i];
      }
      assert sums[..] == Scoring.AddScaled(before, coefficient, scores);
      assert Picks(answers[..k + 1], |statements|)[..k] == Picks(answers[..k], |statements|);
    }
    assert answers[..|answers|] == answers;
    total := sums[..];
  }

  /**
   * No answers give all zeros, and totals add up over concatenated answer
   * lists: a statement answered twice contributes twice.
   */
  lemma TotalsAdditive(statements: seq<Statement>, n: nat, first: seq<Answer>, second: seq<Answer>)
    requires Answerable(statements, n, first) && Answerable(statements, n, second)
    ensures Totals(statements, n, []) == Scoring.Zeros(n)
    ensures Answerable(statements, n, first + second)
    ensures forall c :: 0 <= c < n ==>
              Totals(statements, n, first + second)[c] == Totals(statements, n, first)[c] + Totals(statements, n, second)[c]
  {
    var m := |statements|;
    assert Answerable(statements, n, first + second);
    assert Picks(first + second, m) == Picks(first, m) + Picks(second, m);
    Scoring.AccumulateConcat(Rows(statements), n, Picks(first, m), Picks(second, m));
  }

  /**
   * Only the answered statements' scores are read: a statement with too few
   * scores that nobody answers does not stop the others being summed.
   */
  lemma UnansweredStatementMayBeShort()
    ensures var statements := [Statement("a", Positional([1, 2])), Statement("b", Positional([1]))];
            var answers := [Answer("0", Some("1"))];
            && !Scorable(statements, 2)
            && Answerable(statements, 2, answers)
            && Totals(statements, 2, answers) == [1, 2]
  {
    var statements := [Statement("a", Positional([1, 2])), Statement("b", Positional([1]))];
    var answers := [Answer("0", Some("1"))];
    assert ParseInt("0") == Some(0) && ParseInt("1") == Some(1);
    assert !Scorable(statements, 2) by {
      assert |statements[1].scores.values| < 2;
    }
    var none: seq<Scoring.Pick> := [];
    var rows := Rows(statements);
    var picks := Picks(answers, 2);
    assert picks == [Scoring.Pick(0, 1)];
    assert picks[..0] == none;
    var zeros := Scoring.Accumulate(rows, 2, none);
    assert zeros == [0, 0];
    assert Scoring.Accumulate(rows, 2, picks) == Scoring.AddScaled(zeros, 1, [1, 2]);
  }

  /** No statement index is answered twice. */
  predicate DistinctStatements(answers: seq<Answer>)
  {
    forall i, j :: 0 <= i < j < |answers| ==> ParseInt(answers[i].name) != ParseInt(answers[j].name)
  }

  /** Every answer is agree (1) or disagree (-1). */
  predicate AgreeOrDisagree(answers: seq<Answer>)
  {
    forall k :: 0 <= k < |answers| ==> answers[k].value == Some("1") || answers[k].value == Some("-1")
  }

  /**
   * With each statement answered at most once, agree or disagree, every
   * total lies between minus the category's maximum and the maximum, so the
   * normalised score is within -1..1.
   */
  lemma TotalsWithinMaxima(statements: seq<Statement>, n: nat, answers: seq<Answer>)
    requires Scorable(statements, n) && AllValid(answers, |statements|)
    requires DistinctStatements(answers) && AgreeOrDisagree(answers)
    ensures forall c :: 0 <= c < n ==>
              -MaximumScores(statements, n)[c] <= Totals(statements, n, answers)[c] <= MaximumScores(statements, n)[c]
  {
    var picks := Picks(answers, |statements|);
    assert ParseInt("1") == Some(1) && ParseInt("-1") == Some(-1);
    Scoring.AccumulateWithinMaxima(Rows(statements), n, picks);
  }

  /** The form field of statement `index`: its name is the index, its value 1 for agree and -1 for disagree. */
  function FormField(index: nat, agree: bool): Answer
  {
    Answer(NatToString(index), Some(if agree then "1" else "-1"))
  }

  /** Every statement answered, in order, all agree or all disagree. */
  function AnswerAll(count: nat, agree: bool): (answers: seq<Answer>)
    ensures |answers| == count
  {
    seq(count, s requires 0 <= s < count => FormField(s, agree))
  }

  /**
   * The claim that agreeing with every statement normalises to all 1s: the
   * all-agree totals equal the maxima.
   */
  ghost predicate AgreeAllGivesMaxima(statements: seq<Statement>, n: nat)
    requires Scorable(statements, n)
  {
    var answers := AnswerAll(|statements|, true);
    AllValid(answers, |statements|) && Totals(statements, n, answers) == MaximumScores(statements, n)
  }

  /**
   * The claim fails as soon as a category has a negative score: one
   * statement scored -1, agreed with, totals -1 against a maximum of 1.
   */
  lemma AgreeAllMissesNegativeScores()
    ensures var statements := [Statement("a", Positional([-1]))];
            && Scorable(statements, 1)
            && MaximumScores(statements, 1) == [1]
            && Totals(statements, 1, AnswerAll(1, true)) == [-1]
            && !AgreeAllGivesMaxima(statements, 1)
  {
    var statements := [Statement("a", Positional([-1]))];
    var rows := Rows(statements);
    assert rows == [[-1]];
    AgreeOneNegative(rows);
    ParseNatToString(0);
    assert ParseInt("1") == Some(1);
    assert AnswerAll(1, true) == [FormField(0, true)];
    assert Picks(AnswerAll(1, true), 1) == [Scoring.Pick(0, 1)];
  }

  /** The engine's side of the counterexample: one row [-1], picked with 1. */
  lemma AgreeOneNegative(rows: seq<seq<int>>)
    requires rows == [[-1]]
    ensures Scoring.Maxima(rows, 1) == [1]
    ensures Scoring.Accumulate(rows, 1, [Scoring.Pick(0, 1)]) == [-1]
  {
    var none: seq<Scoring.Pick> := [];
    var picks := [Scoring.Pick(0, 1)];
    assert picks[..0] == none;
    var zeros := Scoring.Accumulate(rows, 1, none);
    assert zeros == [0];
    assert Scoring.Accumulate(rows, 1, picks) == Scoring.AddScaled(zeros, 1, [-1]);
    var empty: seq<seq<int>> := [];
    assert rows[..0] == empty;
    assert Scoring.Maxima(rows, 1) == Scoring.AddAbs(Scoring.Maxima(empty, 1), [-1]);
  }

  /**
   * Agreeing with every statement gives each category whose scores are all
   * non-negative its maximum; disagreeing with every one gives minus the
   * maximum. Normalised, that is 1 (or -1) where the scores are also not all
   * zero; a zero maximum normalises to NaN.
   */
  lemma AnswerAllReachesMaxima(statements: seq<Statement>, n: nat, agree: bool)
    requires Scorable(statements, n)
    ensures AllValid(AnswerAll(|statements|, agree), |statements|)
    ensures forall c :: 0 <= c < n && (forall s :: 0 <= s < |statements| ==> statements[s].scores.values[c] >= 0) ==>
              Totals(statements, n, AnswerAll(|statements|, agree))[c]
              == if agree then MaximumScores(statements, n)[c] else -MaximumScores(statements, n)[c]
  {
    var m := |statements|;
    var answers := AnswerAll(m, agree);
    var e := if agree then 1 else -1;
    assert ParseInt("1") == Some(1) && ParseInt("-1") == Some(-1);
    forall s | 0 <= s < m ensures ParseInt(answers[s].name) == Some(s) {
      ParseNatToString(s);
    }
    assert AllValid(answers, m);
    assert Picks(answers, m) == Scoring.Uniform(m, e);
    var rows := Rows(statements);
    Scoring.UniformReachesMaxima(rows, n, e);
  }

  /**
   * The code written on submit decodes, on reload, to exactly the submitted
   * form fields, so a reload shows the result the submission showed; at
   * least one statement must have been answered.
   */
  lemma ReloadRestoresSubmittedAnswers(choices: seq<(nat, bool)>)
    requires |choices| >= 1
    ensures var fields := seq(|choices|, k requires 0 <= k < |choices| => FormField(choices[k].0, choices[k].1));
            Decode(Some(Encode(fields))) == Some(fields)
  {
    var fields := seq(|choices|, k requires 0 <= k < |choices| => FormField(choices[k].0, choices[k].1));
    forall k | 0 <= k < |fields| ensures Plain(fields[k].name) {
      var name := NatToString(choices[k].0);
      assert forall i :: 0 <= i < |name| ==> IsDigit(name[i]);
    }
    DecodeEncode(fields);
  }

  /** Adds up `|score|` per category over all statements. */
  method GetMaximumScores(categories: seq<Category>, statements: seq<Statement>) returns (maxima: seq<int>)
    requires Scorable(statements, |categories|)
    ensures maxima == MaximumScores(statements, |categories|)
  {
    var n := |categories|;
    var sums := new int[n](_ => 0);
    ghost var rows := Rows(statements);
    for s := 0 to |statements|
      invariant sums[..] == Scoring.Maxima(rows[..s], n)
    {
      var scores := statements[s].scores.values;
      ghost var before := sums[..];
      for i := 0 to n
        invariant forall j :: 0 <= j < i ==> sums[j] == before[j] + Scoring.Abs(scores[j])
        invariant forall j :: i <= j < n ==> sums[j] == before[j]
      {
        sums[i] := sums[i] + Scoring.Abs(scores[i]);
      }
      assert sums[..] == Scoring.AddAbs(before, scores);
      assert rows[..s + 1][..s] == rows[..s];
    }
    assert rows[..|statements|] == rows;
    maxima := sums[..];
  }

  /** The category whose total is highest, the first one on a tie. */
  function GetBestResult(categories: seq<Category>, scores: seq<int>): (best: Category)
    requires 0 < |scores| <= |categories|
    ensures exists k: nat :: Scoring.FirstMaximum(scores, k) && best == categories[k]
  {
    categories[Scoring.BestIndex(scores)]
  }

  /** Decodes the `r` parameter of the page address into answers, or `None` when it is missing or empty. */
  method GetAnswersFromUrl(code: Option<string>) returns (answers: Option<seq<Answer>>)
    ensures answers == Decode(code)
  {
    if code.None? || code.value == "" {
      return None;
    }
    var result: seq<Answer> := [];
    var params := Strings.Split(code.value, '&');
    for k := 0 to |params|
      invariant |result| == k
      invariant forall j :: 0 <= j < k ==> result[j] == DecodeSegment(params[j])
    {
      var answer := Strings.Split(params[k], '=');
      result := result + [Answer(answer[0], if |answer| > 1 then Some(answer[1]) else None)];
    }
    assert result == Decode(code).value;
    return Some(result);
  }

  /** The outcome of each advisory check: true for "OK", false where the source logs "NOT OK". */
  datatype Report = Report(scoreLengths: bool, nonzeroMaxima: bool, uniqueIds: bool)

  /** The first check: every statement has exactly one score per category. */
  method CheckScoreLengths(categories: seq<Category>, statements: seq<Statement>) returns (pass: bool)
    requires forall s :: 0 <= s < |statements| ==> statements[s].scores.Positional?
    ensures pass <==> forall s :: 0 <= s < |statements| ==> |statements[s].scores.values| == |categories|
  {
    pass := true;
    for s := 0 to |statements|
      invariant pass <==> forall j :: 0 <= j < s ==> |statements[j].scores.values| == |categories|
    {
      if |statements[s].scores.values| != |categories| {
        pass := false;
      }
    }
  }

  /** Some statement gives category `c` a nonzero score. */
  predicate ScoredInto(statements: seq<Statement>, c: nat)
    requires Scorable(statements, c + 1)
  {
    exists s :: 0 <= s < |statements| && statements[s].scores.values[c] != 0
  }

  /** A category's maximum is 0 exactly when no statement scores into it. */
  lemma MaximumZeroIffUnscored(statements: seq<Statement>, n: nat, c: nat)
    requires Scorable(statements, n) && c < n
    ensures MaximumScores(statements, n)[c] == 0 <==> !ScoredInto(statements, c)
  {
    var rows := Rows(statements);
    Scoring.MaximaEntry(rows, n, c);
    Scoring.AbsColumnSumZero(rows, c);
    assert forall s :: 0 <= s < |statements| ==> rows[s] == statements[s].scores.values;
  }

  /** The second check: no category's maximum is 0, that is, some statement scores into every category. */
  method CheckNonzeroMaxima(categories: seq<Category>, statements: seq<Statement>) returns (pass: bool)
    requires Scorable(statements, |categories|)
    ensures pass <==> forall c :: 0 <= c < |categories| ==> ScoredInto(statements, c)
  {
    var maxima := GetMaximumScores(categories, statements);
    pass := 0 !in maxima;
    forall c | 0 <= c < |categories| ensures maxima[c] == 0 <==> !ScoredInto(statements, c) {
      MaximumZeroIffUnscored(statements, |categories|, c);
    }
  }

  /** Every category has an id, and no two categories share one. */
  predicate IdsUnique(categories: seq<Category>)
  {
    && (forall i :: 0 <= i < |categories| ==> HasId(categories[i]))
    && (forall i, j :: 0 <= i < j < |categories| ==> categories[i].id != categories[j].id)
  }

  /**
   * The third check: each category must have an id not seen before. A
   * category without an id fails it too.
   */
  method CheckUniqueIds(categories: seq<Category>) returns (pass: bool)
    ensures pass <==> IdsUnique(categories)
  {
    pass := true;
    var foundIds: seq<string> := [];
    for i := 0 to |categories|
      invariant forall x :: x in foundIds <==> exists j :: 0 <= j < i && HasId(categories[j]) && categories[j].id.value == x
      invariant pass <==> IdsUnique(categories[..i])
    {
      var category := categories[i];
      if HasId(category) && category.id.value !in foundIds {
        foundIds := foundIds + [category.id.value];
      } else {
        pass := false;
      }
    }
    assert categories[..|categories|] == categories;
  }

  /** Runs the three checks in order and reports each outcome. */
  method Validate(categories: seq<Category>, statements: seq<Statement>) returns (report: Report)
    requires Scorable(statements, |categories|)
    ensures report.scoreLengths <==> forall s :: 0 <= s < |statements| ==> |statements[s].scores.values| == |categories|
    ensures report.nonzeroMaxima <==> forall c :: 0 <= c < |categories| ==> MaximumScores(statements, |categories|)[c] != 0
    ensures report.uniqueIds <==> IdsUnique(categories)
  {
    var lengths := CheckScoreLengths(categories, statements);
    var nonzero := CheckNonzeroMaxima(categories, statements);
    var unique := CheckUniqueIds(categories);
    report := Report(lengths, nonzero, unique);
    forall c | 0 <= c < |categories|
      ensures MaximumScores(statements, |categories|)[c] == 0 <==> !ScoredInto(statements, c)
    {
      MaximumZeroIffUnscored(statements, |categories|, c);
    }
  }
}
