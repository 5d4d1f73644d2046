/** The quiz page: the quiz read back from the task rows, the selections
    toggled by the capital buttons, the answers submitted for guessing and
    the table of tasks left outside the validation set. */
module QuizGenerator {
  import opened Text
  import opened DictOrder
  import opened AnswerGuesser
  import opened TaskGenerator

  /** A question as the quiz page shows it: a country and its options. */
  datatype QuizQuestion = QuizQuestion(country: string, capitals: seq<string>)

  // --------------------------------------------------------------- get_quiz

  function TaskCountries(tasks: seq<TaskRow>): (r: seq<string>)
    ensures |r| == |tasks| && forall i :: 0 <= i < |tasks| ==> r[i] == tasks[i].country
  {
    seq(|tasks|, i requires 0 <= i < |tasks| => tasks[i].country)
  }

  /** For the task rows saved from a generated quiz, the country column is
      the sampled countries in quiz order; when those are distinct, as a
      sample without replacement is, they are also the column's unique
      values that the quiz page samples from, each once. */
  lemma QuizTaskCountries(capitalOf: Capitals, qpg: nat, sampled: seq<string>, wrong: seq<seq<string>>,
                          draws: seq<seq<nat>>, n: nat, tasks: seq<TaskRow>)
    requires QuizDraws(capitalOf, sampled, wrong, draws) && Offset(n, qpg) <= |sampled|
    requires |tasks| == Offset(n, qpg)
    requires forall i :: 0 <= i < |tasks| ==> tasks[i].country == Quiz(capitalOf, qpg, sampled, wrong, draws, n)[i].country
    ensures TaskCountries(tasks) == sampled[..Offset(n, qpg)]
    ensures Distinct(sampled) ==> FirstSeen(TaskCountries(tasks)) == sampled[..Offset(n, qpg)]
  {
    QuizOrder(capitalOf, qpg, sampled, wrong, draws, n);
    var countries := TaskCountries(tasks);
    assert countries == sampled[..Offset(n, qpg)];
    if Distinct(sampled) {
      assert Distinct(countries);
      FirstSeenDistinct(countries, |countries|);
      assert countries[..|countries|] == countries;
    }
  }

  /** The position of the first task row at or after `k` about `country`. */
  function FirstRowFrom(tasks: seq<TaskRow>, country: string, k: nat): (i: nat)
    requires k <= |tasks|
    requires exists j :: k <= j < |tasks| && tasks[j].country == country
    ensures k <= i < |tasks| && tasks[i].country == country
    ensures forall j :: k <= j < i ==> tasks[j].country != country
    decreases |tasks| - k
  {
    if tasks[k].country == country then k else FirstRowFrom(tasks, country, k + 1)
  }

  /** The first task row about `country`, the one the quiz page reads a
      selected country's question from. */
  function FirstRow(tasks: seq<TaskRow>, country: string): (i: nat)
    requires country in TaskCountries(tasks)
    ensures i < |tasks| && tasks[i].country == country
    ensures forall j :: 0 <= j < i ==> tasks[j].country != country
  {
    var j :| 0 <= j < |tasks| && TaskCountries(tasks)[j] == country;
    FirstRowFrom(tasks, country, 0)
  }

  /** The question read back for a selected country: its first row's
      capitals split on '|'. */
  function QuestionFor(tasks: seq<TaskRow>, country: string): (q: QuizQuestion)
    requires country in TaskCountries(tasks)
    ensures q.country == country
  {
    QuizQuestion(country, Split(tasks[FirstRow(tasks, country)].capitals, Pipe))
  }

  function Min(a: int, b: int): int
  {
    if a <= b then a else b
  }

  /** What `random.sample(unique countries, min(num_questions, #unique))`
      guarantees: that many distinct countries, each a country of the rows. */
  predicate CountrySample(tasks: seq<TaskRow>, numQuestions: nat, selected: seq<string>)
  {
    Distinct(selected) && |selected| == Min(numQuestions, |FirstSeen(TaskCountries(tasks))|) &&
    forall c :: c in selected ==> c in TaskCountries(tasks)
  }

  /** `get_quiz`: no questions for an empty table; otherwise one question per
      sampled country, in the order sampled. */
  method GetQuiz(tasks: seq<TaskRow>, numQuestions: nat, selected: seq<string>) returns (quiz: seq<QuizQuestion>)
    requires tasks != [] ==> CountrySample(tasks, numQuestions, selected)
    ensures tasks == [] ==> quiz == []
    ensures tasks != [] ==> (|quiz| == |selected| &&
      forall i :: 0 <= i < |selected| ==> quiz[i] == QuestionFor(tasks, selected[i]))
  {
    if tasks == [] {
      return [];
    }
    quiz := [];
    for i := 0 to |selected|
      invariant |quiz| == i
      invariant forall j :: 0 <= j < i ==> quiz[j] == QuestionFor(tasks, selected[j])
    {
      var country := selected[i];
      assert country in selected;
      var row := tasks[FirstRow(tasks, country)];
      var capitals := Split(row.capitals, Pipe);
      quiz := quiz + [QuizQuestion(country, capitals)];
    }
  }

  /** The sample never asks for more questions than there are countries, and
      never for more than requested. */
  lemma SampleSize(tasks: seq<TaskRow>, numQuestions: nat, selected: seq<string>)
    requires CountrySample(tasks, numQuestions, selected)
    ensures |selected| <= numQuestions && |selected| <= |tasks|
    ensures tasks != [] && numQuestions > 0 ==> selected != []
  {
    var countries := TaskCountries(tasks);
    if tasks != [] {
      assert countries[0] in countries;
      assert countries[0] in FirstSeen(countries);
    }
  }

  /** Reading back the rows written for a list of questions gives each
      sampled country the options of its first question, provided every
      question has options and none of them contains '|'. */
  lemma QuizRoundTrip(questions: seq<Question>, tasks: seq<TaskRow>, country: string)
    requires |tasks| == |questions| && forall i :: 0 <= i < |questions| ==> tasks[i] == Row(questions[i])
    requires forall q :: q in questions ==> q.capitals != [] && forall c :: c in q.capitals ==> Pipe !in c
    requires country in TaskCountries(tasks)
    ensures exists i :: (0 <= i < |questions| && questions[i].country == country &&
      (forall j :: 0 <= j < i ==> questions[j].country != country) &&
      QuestionFor(tasks, country).capitals == questions[i].capitals)
  {
    var i := FirstRow(tasks, country);
    assert questions[i] in questions;
    RowSplit(questions[i]);
  }

  // ------------------------------------------------------------- selection

  /** The position of the first `c` in `s` at or after `k`. */
  function IndexFrom(s: seq<string>, c: string, k: nat): (i: nat)
    requires k <= |s| && exists j :: k <= j < |s| && s[j] == c
    ensures k <= i < |s| && s[i] == c
    ensures forall j :: k <= j < i ==> s[j] != c
    decreases |s| - k
  {
    if s[k] == c then k else IndexFrom(s, c, k + 1)
  }

  /** The position of the first `c` in `s`. */
  function IndexOf(s: seq<string>, c: string): (i: nat)
    requires c in s
    ensures i < |s| && s[i] == c
    ensures forall j :: 0 <= j < i ==> s[j] != c
  {
    IndexFrom(s, c, 0)
  }

  /** `s.remove(c)`: `s` without the first occurrence of `c`. */
  function RemoveFirst(s: seq<string>, c: string): (r: seq<string>)
    requires c in s
    ensures |r| == |s| - 1
    ensures forall j :: 0 <= j < IndexOf(s, c) ==> r[j] == s[j]
    ensures forall j :: IndexOf(s, c) <= j < |r| ==> r[j] == s[j + 1]
    ensures multiset(r) == multiset(s) - multiset{c}
  {
    var i := IndexOf(s, c);
    assert s == s[..i] + [s[i]] + s[i + 1..];
    s[..i] + s[i + 1..]
  }

  /** A capital button press: a selected capital is deselected, any other is
      added at the end. */
  function Toggled(s: seq<string>, c: string): (r: seq<string>)
    ensures c in s ==> multiset(r) == multiset(s) - multiset{c}
    ensures c !in s ==> multiset(r) == multiset(s) + multiset{c} && |r| == |s| + 1 && r[..|s|] == s
  {
    if c in s then RemoveFirst(s, c) else s + [c]
  }

  /** Removing the capital just appended gives back the list it was
      appended to, when it was not in there already. */
  lemma RemoveAppended(s: seq<string>, c: string)
    requires c !in s
    ensures RemoveFirst(s + [c], c) == s
  {
    var t := s + [c];
    assert IndexOf(t, c) == |s|;
    assert t[..|s|] == s;
  }

  /** Pressing the same button twice, starting from a selection without
      that capital, restores the selection. */
  lemma ToggleTwice(s: seq<string>, c: string)
    requires c !in s
    ensures Toggled(s, c) == s + [c]
    ensures Toggled(Toggled(s, c), c) == s
  {
    RemoveAppended(s, c);
  }

  /** A selection without repeats keeps none under toggling, and afterwards
      holds the pressed capital exactly when it did not before; every other
      capital stays as it was. */
  lemma ToggleDistinct(s: seq<string>, c: string)
    requires Distinct(s)
    ensures Distinct(Toggled(s, c))
    ensures c in Toggled(s, c) <==> c !in s
    ensures forall x :: x != c ==> (x in Toggled(s, c) <==> x in s)
  {
    var r := Toggled(s, c);
    if c in s {
      var i := IndexOf(s, c);
      assert r == s[..i] + s[i + 1..];
      forall a, b | 0 <= a < b < |r|
        ensures r[a] != r[b]
      {
        var a' := if a < i then a else a + 1;
        var b' := if b < i then b else b + 1;
        assert r[a] == s[a'] && r[b] == s[b'];
      }
      assert multiset(r)[c] == multiset(s)[c] - 1 == 0 by {
        assert multiset(s)[c] == 1 by { DistinctCount(s, i); }
      }
      forall x | x != c
        ensures x in r <==> x in s
      {
        assert x in multiset(r) <==> x in multiset(s);
      }
    } else {
      assert r == s + [c];
      forall a, b | 0 <= a < b < |r|
        ensures r[a] != r[b]
      {
        if b == |s| {
          assert r[a] == s[a] && s[a] in s;
        }
      }
    }
  }

  /** In a list without repeats, the element at position i occurs once. */
  lemma {:induction false} DistinctCount(s: seq<string>, i: nat)
    requires Distinct(s) && i < |s|
    ensures multiset(s)[s[i]] == 1
  {
    if i == 0 {
      assert s == [s[0]] + s[1..];
      assert s[0] !in s[1..] by {
        forall j | 0 <= j < |s[1..]|
          ensures s[1..][j] != s[0]
        {
          assert s[1..][j] == s[j + 1];
        }
      }
    } else {
      var t := s[1..];
      assert Distinct(t) by {
        forall a, b | 0 <= a < b < |t|
          ensures t[a] != t[b]
        {
          assert t[a] == s[a + 1] && t[b] == s[b + 1];
        }
      }
      DistinctCount(t, i - 1);
      assert t[i - 1] == s[i];
      assert s == [s[0]] + t;
    }
  }

  /** Toggling a capital of the question keeps the selection among the
      question's capitals. */
  lemma ToggleWithin(s: seq<string>, c: string, capitals: seq<string>)
    requires forall x :: x in s ==> x in capitals
    requires c in capitals
    ensures forall x :: x in Toggled(s, c) ==> x in capitals
  {
    var r := Toggled(s, c);
    if c in s {
      forall x | x in r
        ensures x in capitals
      {
        assert x in multiset(r);
        assert x in multiset(s);
      }
    }
  }

  // ---------------------------------------------------------- answer rows

  /** The capitals a question is answered with: its selection, or all of its
      options when nothing is selected. */
  function Chosen(q: QuizQuestion, selection: seq<string>): (r: seq<string>)
    ensures r == [] <==> selection == [] && q.capitals == []
    ensures (forall x :: x in selection ==> x in q.capitals) ==> forall x :: x in r ==> x in q.capitals
  {
    if selection == [] then q.capitals else selection
  }

  /** The answer row saved for a question. */
  function Answer(q: QuizQuestion, selection: seq<string>): (r: AnswerRow)
    ensures r.country == q.country
  {
    AnswerRow(q.country, JoinWith(Chosen(q, selection), Pipe))
  }

  /** The guesser reads an answer row back as the capitals it was answered
      with, when there is at least one and none contains '|'. */
  lemma AnswerParse(q: QuizQuestion, selection: seq<string>)
    requires Chosen(q, selection) != [] && forall c :: c in Chosen(q, selection) ==> Pipe !in c
    ensures ParseRow(Answer(q, selection)) == Variant(q.country, Chosen(q, selection))
  {
    SplitJoin(Chosen(q, selection), Pipe);
  }

  /** The answer for a question with nothing selected offers all of its
      options; otherwise exactly the selection, in the order selected. */
  lemma ChosenCases(q: QuizQuestion, selection: seq<string>)
    ensures selection == [] ==> Chosen(q, selection) == q.capitals
    ensures selection != [] ==> Chosen(q, selection) == selection
    ensures q.capitals != [] ==> Chosen(q, selection) != []
  {
  }

  // ------------------------------------------------------- outside rows

  datatype Status = Skip | Correct | Incorrect

  /** A row of the table of tasks outside the validation set. */
  datatype OutsideRow = OutsideRow(country: string, lastAttempted: string, correctCapital: string, status: Status)

  const NotAttempted: string := "Not attempted"

  /** The status of a task: skipped if no capital was tried for it,
      otherwise whether the last capital tried is the correct one. */
  function Classify(capital: Option<string>, correct: string): (s: Status)
    ensures s == Skip <==> capital == None
    ensures s == Correct <==> capital == Some(correct)
    ensures s == Incorrect <==> capital.Some? && capital.value != correct
  {
    if capital.None? then Skip else if capital.value == correct then Correct else Incorrect
  }

  /** The row for one country outside the validation set. */
  function OutsideRowFor(country: string, capital: Option<string>, capitalOf: Capitals): (r: OutsideRow)
    requires country in capitalOf
    ensures r.country == country && r.correctCapital == capitalOf[country]
    ensures r.status == Classify(capital, capitalOf[country])
    ensures r.lastAttempted == (if capital.Some? then capital.value else NotAttempted)
    ensures r.status == Skip <==> capital.None?
    ensures r.status == Correct <==> capital.Some? && r.lastAttempted == r.correctCapital
    ensures r.status == Incorrect <==> capital.Some? && r.lastAttempted != r.correctCapital
  {
    var correct := capitalOf[country];
    OutsideRow(country, if capital.None? then NotAttempted else capital.value, correct, Classify(capital, correct))
  }

  /** The first k keys that are not countries of the validation set. */
  function OutsideUpTo(keys: seq<string>, inSet: seq<string>, k: nat): (r: seq<string>)
    requires k <= |keys|
    ensures forall x :: x in r <==> (exists j :: 0 <= j < k && keys[j] == x) && x !in inSet
    ensures Distinct(keys) ==> Distinct(r)
  {
    if k == 0 then []
    else
      var r := OutsideUpTo(keys, inSet, k - 1);
      if keys[k - 1] in inSet then r
      else
        assert Distinct(keys) ==> keys[k - 1] !in r;
        r + [keys[k - 1]]
  }

  /** The countries listed outside the validation set, in dict order. */
  function Outside(keys: seq<string>, inSet: seq<string>): seq<string>
  {
    OutsideUpTo(keys, inSet, |keys|)
  }

  /** The loop at the end of the quiz page: for each country of
      `last_attempts`, in its key order `keys`, that is not a country of the
      validation set, its last tried capital, correct capital and status.
      For the attempts the guesser returns, that key order is
      `AttemptsOrder` of the answer rows (see `GuessedAttemptsOrder`). */
  method OutsideRows(attempts: Attempts, keys: seq<string>, validationSet: seq<Pair>, capitalOf: Capitals)
    returns (rows: seq<OutsideRow>)
    requires Distinct(keys) && forall c :: c in keys <==> c in attempts
    requires forall c :: c in attempts && c !in Firsts(validationSet) ==> c in capitalOf
    ensures var out := Outside(keys, Firsts(validationSet));
      |rows| == |out| &&
      forall i :: 0 <= i < |rows| ==> out[i] in attempts && rows[i] == OutsideRowFor(out[i], attempts[out[i]], capitalOf)
  {
    var inSet := Firsts(validationSet);
    rows := [];
    for k := 0 to |keys|
      invariant var out := OutsideUpTo(keys, inSet, k);
        |rows| == |out| &&
        forall i :: 0 <= i < |rows| ==> out[i] in attempts && rows[i] == OutsideRowFor(out[i], attempts[out[i]], capitalOf)
    {
      var country := keys[k];
      assert country in keys;
      var capital := attempts[country];
      if country !in inSet {
        var correct := capitalOf[country];
        var status := Classify(capital, correct);
        var shown := if capital.None? then NotAttempted else capital.value;
        rows := rows + [OutsideRow(country, shown, correct, status)];
      }
    }
  }

  /** The outside table lists each attempted country that is not in the
      validation set exactly once, and nothing else. */
  lemma OutsideCountries(keys: seq<string>, validationSet: seq<Pair>)
    requires Distinct(keys)
    ensures Distinct(Outside(keys, Firsts(validationSet)))
    ensures forall c :: c in Outside(keys, Firsts(validationSet)) <==>
      c in keys && forall p :: p in validationSet ==> p.0 != c
  {
    var inSet := Firsts(validationSet);
    forall c
      ensures c in inSet <==> exists p :: p in validationSet && p.0 == c
    {
      if c in inSet {
        var i :| 0 <= i < |inSet| && inSet[i] == c;
        assert validationSet[i] in validationSet;
      }
      if exists p :: p in validationSet && p.0 == c {
        var p :| p in validationSet && p.0 == c;
        var i :| 0 <= i < |validationSet| && validationSet[i] == p;
        assert inSet[i] == c;
      }
    }
  }

  // --------------------------------------------------------- the session

  /** The quiz page's session state: the quiz and one selection per
      question. */
  class QuizSession {
    var quiz: seq<QuizQuestion>
    var selected: seq<seq<string>>

    /** One selection per question. */
    predicate Valid()
      reads this
    {
      |selected| == |quiz|
    }

    /** Every selection holds only capitals offered by its question. */
    predicate SelectionsWithin()
      reads this
      requires Valid()
    {
      forall i :: 0 <= i < |quiz| ==> forall x :: x in selected[i] ==> x in quiz[i].capitals
    }

    /** The first visit: the quiz and an empty selection per question. */
    constructor (quiz: seq<QuizQuestion>)
      ensures Valid() && SelectionsWithin()
      ensures this.quiz == quiz && selected == seq(|quiz|, _ => [])
    {
      this.quiz := quiz;
      selected := seq(|quiz|, _ => []);
    }

    /** A press of the button for `capital` under question `idx`. */
    method Toggle(idx: nat, capital: string)
      requires Valid() && idx < |quiz|
      modifies this
      ensures Valid() && quiz == old(quiz)
      ensures selected == old(selected)[idx := Toggled(old(selected)[idx], capital)]
      ensures old(SelectionsWithin()) && capital in quiz[idx].capitals ==> SelectionsWithin()
    {
      if capital in selected[idx] {
        selected := selected[idx := RemoveFirst(selected[idx], capital)];
      } else {
        selected := selected[idx := selected[idx] + [capital]];
      }
      if old(SelectionsWithin()) && capital in quiz[idx].capitals {
        ToggleWithin(old(selected)[idx], capital, quiz[idx].capitals);
      }
    }

    /** The answers saved on submission: one per question, in quiz order. */
    method SubmitAnswers() returns (answers: seq<AnswerRow>)
      requires Valid()
      ensures |answers| == |quiz|
      ensures forall i :: 0 <= i < |quiz| ==> answers[i] == Answer(quiz[i], selected[i])
    {
      answers := [];
      for idx := 0 to |quiz|
        invariant |answers| == idx
        invariant forall i :: 0 <= i < idx ==> answers[i] == Answer(quiz[i], selected[i])
      {
        var q := quiz[idx];
        var selectedCapitals := selected[idx];
        if selectedCapitals == [] {
          selectedCapitals := q.capitals;
        }
        answers := answers + [AnswerRow(q.country, JoinWith(selectedCapitals, Pipe))];
      }
    }
  }
}
