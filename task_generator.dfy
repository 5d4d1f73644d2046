/** Quiz generation: sampled countries cut into groups of equal size, four
    shuffled options per question, questions grouped back by group number,
    the validation set taken from whole chosen groups, the task rows and the
    string whose hash becomes the target. The random draws (`random.sample`,
    `random.shuffle`, `random.randint`) are parameters constrained by what
    those calls guarantee. */
module TaskGenerator {
  import opened Text
  import opened DictOrder
  import opened AnswerGuesser

  /** The table of correct capitals, country to capital. */
  type Capitals = map<string, string>

  /** A generated question: its country, its options in display order and
      its 1-based group number. */
  datatype Question = Question(country: string, capitals: seq<string>, group: int)

  /** A row of the serialised task table: the options joined with '|'. */
  datatype TaskRow = TaskRow(country: string, capitals: string, group: int)

  // ------------------------------------------------------------ shuffling

  function Swap<T>(s: seq<T>, i: nat, j: nat): (r: seq<T>)
    requires i < |s| && j < |s|
    ensures |r| == |s|
  {
    s[i := s[j]][j := s[i]]
  }

  lemma SwapPermutes<T>(s: seq<T>, i: nat, j: nat)
    requires i < |s| && j < |s|
    ensures multiset(Swap(s, i, j)) == multiset(s)
  {
  }

  /** The draws `random.shuffle` makes for a list of length n: for position
      i = n-1 down to 1, an index j with 0 <= j <= i. */
  predicate ShuffleDraws(n: nat, draws: seq<nat>)
  {
    |draws| == (if n == 0 then 0 else n - 1) &&
    forall k :: 0 <= k < |draws| ==> draws[k] < n - k
  }

  /** Swaps position i with draws[0], then i-1 with draws[1], and so on down to 1. */
  function SwapDown<T>(s: seq<T>, i: nat, draws: seq<nat>): (r: seq<T>)
    requires i < |s| && |draws| == i
    requires forall k :: 0 <= k < |draws| ==> draws[k] <= i - k
    ensures |r| == |s|
    decreases i
  {
    if i == 0 then s
    else SwapDown(Swap(s, i, draws[0]), i - 1, draws[1..])
  }

  lemma {:induction false} SwapDownPermutes<T>(s: seq<T>, i: nat, draws: seq<nat>)
    requires i < |s| && |draws| == i
    requires forall k :: 0 <= k < |draws| ==> draws[k] <= i - k
    ensures multiset(SwapDown(s, i, draws)) == multiset(s)
    decreases i
  {
    if i > 0 {
      SwapPermutes(s, i, draws[0]);
      SwapDownPermutes(Swap(s, i, draws[0]), i - 1, draws[1..]);
    }
  }

  /** `random.shuffle(s)` given its draws (the Fisher-Yates swaps of CPython):
      the result is a rearrangement of `s`. */
  function Shuffled<T>(s: seq<T>, draws: seq<nat>): (r: seq<T>)
    requires ShuffleDraws(|s|, draws)
    ensures |r| == |s| && multiset(r) == multiset(s)
  {
    if s == [] then s
    else
      SwapDownPermutes(s, |s| - 1, draws);
      SwapDown(s, |s| - 1, draws)
  }

  // --------------------------------------------------------- generate_quiz

  /** What the random draws of `generate_quiz` guarantee for question i:
      its country is a key of the table, its three wrong answers are
      capitals of the table other than the correct one, and its shuffle
      draws fit a list of four. */
  ghost predicate DrawsAt(capitalOf: Capitals, sampled: seq<string>, wrong: seq<seq<string>>, draws: seq<seq<nat>>, i: nat)
    requires |wrong| == |sampled| && |draws| == |sampled| && i < |sampled|
  {
    sampled[i] in capitalOf && |wrong[i]| == 3 && ShuffleDraws(4, draws[i]) &&
    forall w :: w in wrong[i] ==> w != capitalOf[sampled[i]] && w in capitalOf.Values
  }

  /** The draws for every sampled country meet `DrawsAt`. */
  ghost predicate QuizDraws(capitalOf: Capitals, sampled: seq<string>, wrong: seq<seq<string>>, draws: seq<seq<nat>>)
  {
    |wrong| == |sampled| && |draws| == |sampled| &&
    forall i :: 0 <= i < |sampled| ==> DrawsAt(capitalOf, sampled, wrong, draws, i)
  }

  /** The correct capital of the i-th sampled country. */
  function CorrectCapital(capitalOf: Capitals, sampled: seq<string>, wrong: seq<seq<string>>, draws: seq<seq<nat>>,
                          i: nat): (c: string)
    requires QuizDraws(capitalOf, sampled, wrong, draws) && i < |sampled|
    ensures sampled[i] in capitalOf && c == capitalOf[sampled[i]] && c !in wrong[i]
  {
    assert DrawsAt(capitalOf, sampled, wrong, draws, i);
    capitalOf[sampled[i]]
  }

  /** The question built for the i-th sampled country, in group `group`. */
  function MakeQuestion(capitalOf: Capitals, sampled: seq<string>, wrong: seq<seq<string>>, draws: seq<seq<nat>>,
                        i: nat, group: int): (q: Question)
    requires QuizDraws(capitalOf, sampled, wrong, draws) && i < |sampled|
    ensures q.country == sampled[i] && q.group == group && |q.capitals| == 4
    ensures multiset(q.capitals) == multiset(wrong[i] + [CorrectCapital(capitalOf, sampled, wrong, draws, i)])
  {
    assert DrawsAt(capitalOf, sampled, wrong, draws, i);
    Question(sampled[i], Shuffled(wrong[i] + [CorrectCapital(capitalOf, sampled, wrong, draws, i)], draws[i]), group)
  }

  /** The options of a question hold its correct capital exactly once, and
      otherwise only capitals of the table. */
  lemma OptionsOfQuestion(capitalOf: Capitals, sampled: seq<string>, wrong: seq<seq<string>>, draws: seq<seq<nat>>,
                          i: nat, group: int)
    requires QuizDraws(capitalOf, sampled, wrong, draws) && i < |sampled|
    ensures var q := MakeQuestion(capitalOf, sampled, wrong, draws, i, group);
      multiset(q.capitals)[CorrectCapital(capitalOf, sampled, wrong, draws, i)] == 1 &&
      forall c :: c in q.capitals ==> c in capitalOf.Values
  {
    assert DrawsAt(capitalOf, sampled, wrong, draws, i);
    var correct := CorrectCapital(capitalOf, sampled, wrong, draws, i);
    var q := MakeQuestion(capitalOf, sampled, wrong, draws, i, group);
    assert multiset(wrong[i])[correct] == 0;
    forall c | c in q.capitals
      ensures c in capitalOf.Values
    {
      assert c in multiset(q.capitals);
      assert c in multiset(wrong[i]) || c == correct;
    }
  }

  /** Where group g starts: g * qpg, built up one group at a time. */
  function Offset(g: nat, qpg: nat): nat
  {
    if g == 0 then 0 else Offset(g - 1, qpg) + qpg
  }

  lemma {:induction false} OffsetProduct(g: nat, qpg: nat)
    ensures Offset(g, qpg) == g * qpg
  {
    if g > 0 {
      OffsetProduct(g - 1, qpg);
      assert (g - 1) * qpg + qpg == g * qpg;
    }
  }

  lemma {:induction false} OffsetMonotone(g: nat, n: nat, qpg: nat)
    requires g <= n
    ensures Offset(g, qpg) <= Offset(n, qpg)
    decreases n - g
  {
    if g < n {
      OffsetMonotone(g, n - 1, qpg);
    }
  }

  /** Group g (0-based): the questions for the sampled countries at
      positions Offset(g) .. Offset(g + 1), numbered g + 1. */
  function Group(capitalOf: Capitals, qpg: nat, sampled: seq<string>, wrong: seq<seq<string>>, draws: seq<seq<nat>>,
                 g: nat): (r: seq<Question>)
    requires QuizDraws(capitalOf, sampled, wrong, draws) && Offset(g + 1, qpg) <= |sampled|
    ensures |r| == qpg
  {
    seq(qpg, t requires 0 <= t < qpg => MakeQuestion(capitalOf, sampled, wrong, draws, Offset(g, qpg) + t, g + 1))
  }

  /** Group g asks about the sampled countries at positions Offset(g) ..
      Offset(g + 1), in order, each with group number g + 1. */
  lemma GroupFields(capitalOf: Capitals, qpg: nat, sampled: seq<string>, wrong: seq<seq<string>>, draws: seq<seq<nat>>,
                    g: nat)
    requires QuizDraws(capitalOf, sampled, wrong, draws) && Offset(g + 1, qpg) <= |sampled|
    ensures var r := Group(capitalOf, qpg, sampled, wrong, draws, g);
      forall t :: 0 <= t < qpg ==> r[t].country == sampled[Offset(g, qpg) + t] && r[t].group == g + 1
  {
    var r := Group(capitalOf, qpg, sampled, wrong, draws, g);
    forall t | 0 <= t < qpg
      ensures r[t].country == sampled[Offset(g, qpg) + t] && r[t].group == g + 1
    {
      assert r[t] == MakeQuestion(capitalOf, sampled, wrong, draws, Offset(g, qpg) + t, g + 1);
    }
  }

  /** The questions of groups 0 .. n-1, one group after another. */
  function Quiz(capitalOf: Capitals, qpg: nat, sampled: seq<string>, wrong: seq<seq<string>>, draws: seq<seq<nat>>,
                n: nat): (r: seq<Question>)
    requires QuizDraws(capitalOf, sampled, wrong, draws) && Offset(n, qpg) <= |sampled|
    ensures |r| == Offset(n, qpg)
  {
    if n == 0 then []
    else Quiz(capitalOf, qpg, sampled, wrong, draws, n - 1) + Group(capitalOf, qpg, sampled, wrong, draws, n - 1)
  }

  /** Position t of group g is the question for sampled country Offset(g) + t. */
  lemma GroupAt(capitalOf: Capitals, qpg: nat, sampled: seq<string>, wrong: seq<seq<string>>, draws: seq<seq<nat>>,
                g: nat, t: nat)
    requires QuizDraws(capitalOf, sampled, wrong, draws) && Offset(g + 1, qpg) <= |sampled| && t < qpg
    ensures Offset(g, qpg) + t < |sampled|
    ensures Group(capitalOf, qpg, sampled, wrong, draws, g)[t] ==
      MakeQuestion(capitalOf, sampled, wrong, draws, Offset(g, qpg) + t, g + 1)
  {
  }

  /** The inner loop of `generate_quiz` for one group. */
  method GroupQuestionsFor(capitalOf: Capitals, qpg: nat, sampled: seq<string>, wrong: seq<seq<string>>,
                           draws: seq<seq<nat>>, groupIdx: nat, start: nat)
    returns (groupQuestions: seq<Question>)
    requires QuizDraws(capitalOf, sampled, wrong, draws)
    requires start == Offset(groupIdx, qpg) && start + qpg <= |sampled|
    ensures groupQuestions == Group(capitalOf, qpg, sampled, wrong, draws, groupIdx)
  {
    assert Offset(groupIdx + 1, qpg) == start + qpg;
    hide Group;
    var groupCountries := sampled[start .. start + qpg];
    ghost var group := Group(capitalOf, qpg, sampled, wrong, draws, groupIdx);
    groupQuestions := [];
    for t := 0 to |groupCountries|
      invariant |groupQuestions| == t
      invariant forall j :: 0 <= j < t ==> groupQuestions[j] == group[j]
    {
      assert DrawsAt(capitalOf, sampled, wrong, draws, start + t);
      var country := groupCountries[t];
      var correct := capitalOf[country];
      var options := wrong[start + t] + [correct];
      options := Shuffled(options, draws[start + t]);
      GroupAt(capitalOf, qpg, sampled, wrong, draws, groupIdx, t);
      assert Question(country, options, groupIdx + 1) == group[t];
      groupQuestions := groupQuestions + [Question(country, options, groupIdx + 1)];
    }
    assert groupQuestions == group;
  }

  /** `generate_quiz` once the arguments are resolved: `sampled` is the
      `random.sample` of countries, `wrong[i]` and `draws[i]` the draws for
      the i-th of them. */
  method GenerateQuiz(capitalOf: Capitals, numQuestions: nat, questionsPerGroup: nat,
                      sampled: seq<string>, wrong: seq<seq<string>>, draws: seq<seq<nat>>)
    returns (questions: seq<Question>)
    requires |sampled| == questionsPerGroup * numQuestions && Distinct(sampled)
    requires QuizDraws(capitalOf, sampled, wrong, draws)
    ensures Offset(numQuestions, questionsPerGroup) == |sampled|
    ensures questions == Quiz(capitalOf, questionsPerGroup, sampled, wrong, draws, numQuestions)
  {
    var qpg := questionsPerGroup;
    OffsetProduct(numQuestions, qpg);
    questions := [];
    for groupIdx := 0 to numQuestions
      invariant Offset(groupIdx, qpg) <= |sampled|
      invariant questions == Quiz(capitalOf, qpg, sampled, wrong, draws, groupIdx)
    {
      OffsetMonotone(groupIdx + 1, numQuestions, qpg);
      OffsetProduct(groupIdx, qpg);
      var groupQuestions := GroupQuestionsFor(capitalOf, qpg, sampled, wrong, draws, groupIdx, groupIdx * qpg);
      questions := questions + groupQuestions;
    }
  }

  /** Group g of a generated quiz sits at positions Offset(g) .. Offset(g + 1). */
  lemma {:induction false} QuizSlice(capitalOf: Capitals, qpg: nat, sampled: seq<string>, wrong: seq<seq<string>>,
                                     draws: seq<seq<nat>>, n: nat, g: nat)
    requires QuizDraws(capitalOf, sampled, wrong, draws) && Offset(n, qpg) <= |sampled| && g < n
    ensures Offset(g + 1, qpg) <= Offset(n, qpg)
    ensures Quiz(capitalOf, qpg, sampled, wrong, draws, n)[Offset(g, qpg) .. Offset(g + 1, qpg)]
         == Group(capitalOf, qpg, sampled, wrong, draws, g)
  {
    OffsetMonotone(g + 1, n, qpg);
    if g < n - 1 {
      OffsetMonotone(n - 1, n, qpg);
      QuizSlice(capitalOf, qpg, sampled, wrong, draws, n - 1, g);
    }
  }

  /** Question q asks about the i-th sampled country, in group `group`,
      and offers four options: a rearrangement of the three wrong answers
      drawn for it and its correct capital, which occurs exactly once. */
  ghost predicate Asks(q: Question, capitalOf: Capitals, sampled: seq<string>, wrong: seq<seq<string>>,
                       draws: seq<seq<nat>>, i: nat, group: int)
    requires QuizDraws(capitalOf, sampled, wrong, draws) && i < |sampled|
  {
    var correct := CorrectCapital(capitalOf, sampled, wrong, draws, i);
    q.country == sampled[i] && q.group == group && |q.capitals| == 4 &&
    multiset(q.capitals) == multiset(wrong[i] + [correct]) && multiset(q.capitals)[correct] == 1
  }

  /** Group g (0-based) of the quiz sits at positions Offset(g) = g*qpg up to
      Offset(g+1) = (g+1)*qpg, and the question at each position i there asks
      about the sampled country at the same position i, with group number g+1. */
  lemma QuizGroups(capitalOf: Capitals, qpg: nat, sampled: seq<string>, wrong: seq<seq<string>>,
                   draws: seq<seq<nat>>, n: nat, g: nat)
    requires QuizDraws(capitalOf, sampled, wrong, draws) && Offset(n, qpg) <= |sampled| && g < n
    ensures Offset(g + 1, qpg) == Offset(g, qpg) + qpg <= |Quiz(capitalOf, qpg, sampled, wrong, draws, n)|
    ensures forall i :: Offset(g, qpg) <= i < Offset(g + 1, qpg) ==>
      Asks(Quiz(capitalOf, qpg, sampled, wrong, draws, n)[i], capitalOf, sampled, wrong, draws, i, g + 1)
  {
    QuizSlice(capitalOf, qpg, sampled, wrong, draws, n, g);
    var start := Offset(g, qpg);
    var qs := Quiz(capitalOf, qpg, sampled, wrong, draws, n);
    var group := Group(capitalOf, qpg, sampled, wrong, draws, g);
    forall i | start <= i < start + qpg
      ensures Asks(qs[i], capitalOf, sampled, wrong, draws, i, g + 1)
    {
      var t := i - start;
      assert qs[i] == qs[start .. start + qpg][t] == group[t];
      assert group[t] == MakeQuestion(capitalOf, sampled, wrong, draws, i, g + 1);
      OptionsOfQuestion(capitalOf, sampled, wrong, draws, i, g + 1);
    }
  }

  // ------------------------------------------------ generate_validation_set

  function GroupNumbers(qs: seq<Question>): (r: seq<int>)
    ensures |r| == |qs| && forall i :: 0 <= i < |qs| ==> r[i] == qs[i].group
  {
    seq(|qs|, i requires 0 <= i < |qs| => qs[i].group)
  }

  /** The bucket of group g after the first k questions have been placed:
      those of them with group number g, in order. */
  function Bucket(qs: seq<Question>, k: nat, g: int): (r: seq<Question>)
    requires k <= |qs|
    ensures |r| <= k
  {
    if k == 0 then []
    else Bucket(qs, k - 1, g) + (if qs[k - 1].group == g then [qs[k - 1]] else [])
  }

  /** The bucket of group g: the questions with that group number, in order. */
  function InGroup(qs: seq<Question>, g: int): (r: seq<Question>)
    ensures |r| <= |qs|
  {
    Bucket(qs, |qs|, g)
  }

  /** A bucket holds every question of its group as often as the list does,
      and nothing else. */
  lemma {:induction false} BucketMembers(qs: seq<Question>, k: nat, g: int)
    requires k <= |qs|
    ensures forall q :: q in Bucket(qs, k, g) ==> q.group == g && q in qs[..k]
    ensures forall q: Question :: q.group == g ==> multiset(Bucket(qs, k, g))[q] == multiset(qs[..k])[q]
  {
    if k > 0 {
      BucketMembers(qs, k - 1, g);
      assert qs[..k] == qs[..k - 1] + [qs[k - 1]];
    }
  }

  lemma InGroupMembers(qs: seq<Question>, g: int)
    ensures forall q :: q in InGroup(qs, g) ==> q.group == g && q in qs
    ensures forall q: Question :: q.group == g ==> multiset(InGroup(qs, g))[q] == multiset(qs)[q]
  {
    BucketMembers(qs, |qs|, g);
    assert qs[..|qs|] == qs;
  }

  /** No question of the first k has group g: its bucket is empty. */
  lemma {:induction false} BucketEmpty(qs: seq<Question>, k: nat, g: int)
    requires k <= |qs|
    requires forall j :: 0 <= j < k ==> qs[j].group != g
    ensures Bucket(qs, k, g) == []
  {
    if k > 0 {
      BucketEmpty(qs, k - 1, g);
    }
  }

  /** Questions appended after position k do not change the first k's buckets. */
  lemma {:induction false} BucketPrefix(a: seq<Question>, b: seq<Question>, k: nat, g: int)
    requires k <= |a|
    ensures Bucket(a + b, k, g) == Bucket(a, k, g)
  {
    if k > 0 {
      BucketPrefix(a, b, k - 1, g);
      assert (a + b)[k - 1] == a[k - 1];
    }
  }

  lemma {:induction false} BucketConcat(a: seq<Question>, b: seq<Question>, k: nat, g: int)
    requires k <= |b|
    ensures Bucket(a + b, |a| + k, g) == Bucket(a, |a|, g) + Bucket(b, k, g)
  {
    if k == 0 {
      BucketPrefix(a, b, |a|, g);
    } else {
      BucketConcat(a, b, k - 1, g);
      assert (a + b)[|a| + k - 1] == b[k - 1];
    }
  }

  /** The loop that fills `grouped_questions`: keys in first-seen order,
      each bucket the questions of that group in list order. */
  method GroupQuestions(questions: seq<Question>) returns (keys: seq<int>, buckets: map<int, seq<Question>>)
    ensures keys == FirstSeen(GroupNumbers(questions))
    ensures forall g :: g in buckets <==> g in keys
    ensures forall g :: g in buckets ==> buckets[g] == InGroup(questions, g)
  {
    ghost var numbers := GroupNumbers(questions);
    keys, buckets := [], map[];
    for i := 0 to |questions|
      invariant keys == FirstSeenUpTo(numbers, i)
      invariant forall g :: g in buckets <==> g in keys
      invariant forall g :: g in buckets ==> buckets[g] == Bucket(questions, i, g)
    {
      var q := questions[i];
      assert numbers[i] == q.group;
      if q.group !in buckets {
        BucketEmpty(questions, i, q.group);
        keys := keys + [q.group];
        buckets := buckets[q.group := []];
      }
      buckets := buckets[q.group := buckets[q.group] + [q]];
    }
  }

  /** `(country, COUNTRY_CAPITALS[country])` for each question of a bucket. */
  function CorrectPairs(qs: seq<Question>, capitalOf: Capitals): (r: seq<Pair>)
    requires forall q :: q in qs ==> q.country in capitalOf
    ensures |r| == |qs|
    ensures forall p :: p in r ==> p.0 in capitalOf && p.1 == capitalOf[p.0]
  {
    seq(|qs|, i requires 0 <= i < |qs| => (qs[i].country, capitalOf[qs[i].country]))
  }

  /** The validation set after the first k chosen groups. */
  function ValidationUpTo(qs: seq<Question>, chosen: seq<int>, k: nat, capitalOf: Capitals): (r: seq<Pair>)
    requires k <= |chosen|
    requires forall q :: q in qs ==> q.country in capitalOf
    ensures forall p :: p in r ==> p.0 in capitalOf && p.1 == capitalOf[p.0]
  {
    if k == 0 then []
    else
      InGroupMembers(qs, chosen[k - 1]);
      ValidationUpTo(qs, chosen, k - 1, capitalOf) + CorrectPairs(InGroup(qs, chosen[k - 1]), capitalOf)
  }

  /** The validation set for the chosen groups, in the order chosen. */
  function Validation(qs: seq<Question>, chosen: seq<int>, capitalOf: Capitals): (r: seq<Pair>)
    requires forall q :: q in qs ==> q.country in capitalOf
    ensures forall p :: p in r ==> p.0 in capitalOf && p.1 == capitalOf[p.0]
  {
    ValidationUpTo(qs, chosen, |chosen|, capitalOf)
  }

  /** The inner loop over one chosen group's questions. */
  method AppendCorrectPairs(validationSet: seq<Pair>, bucket: seq<Question>, capitalOf: Capitals)
    returns (r: seq<Pair>)
    requires forall q :: q in bucket ==> q.country in capitalOf
    ensures r == validationSet + CorrectPairs(bucket, capitalOf)
  {
    r := validationSet;
    for t := 0 to |bucket|
      invariant r == validationSet + CorrectPairs(bucket, capitalOf)[..t]
    {
      var country := bucket[t].country;
      var capital := capitalOf[country];
      r := r + [(country, capital)];
    }
    assert CorrectPairs(bucket, capitalOf)[..|bucket|] == CorrectPairs(bucket, capitalOf);
  }

  /** `generate_validation_set`: `chosen` is the `random.sample` of group
      keys. */
  method GenerateValidationSet(questions: seq<Question>, validationSize: int, chosen: seq<int>, capitalOf: Capitals)
    returns (validationSet: seq<Pair>)
    requires forall q :: q in questions ==> q.country in capitalOf
    requires |chosen| == validationSize && Distinct(chosen)
    requires forall g :: g in chosen ==> g in GroupNumbers(questions)
    ensures validationSet == Validation(questions, chosen, capitalOf)
  {
    var keys, grouped := GroupQuestions(questions);
    validationSet := [];
    for c := 0 to |chosen|
      invariant validationSet == ValidationUpTo(questions, chosen, c, capitalOf)
    {
      var group := chosen[c];
      assert group in chosen && group in keys;
      var bucket := grouped[group];
      assert bucket == InGroup(questions, group);
      InGroupMembers(questions, group);
      validationSet := AppendCorrectPairs(validationSet, bucket, capitalOf);
    }
  }

  /** A pair is in the validation set exactly when it is (country, correct
      capital) of a question in one of the chosen groups. */
  lemma {:induction false} ValidationMembers(qs: seq<Question>, chosen: seq<int>, k: nat, capitalOf: Capitals, p: Pair)
    requires k <= |chosen|
    requires forall q :: q in qs ==> q.country in capitalOf
    ensures p in ValidationUpTo(qs, chosen, k, capitalOf) <==>
      exists q, j :: q in qs && 0 <= j < k && q.group == chosen[j] && p == (q.country, capitalOf[q.country])
  {
    if k > 0 {
      ValidationStep(qs, chosen, k, capitalOf, p);
      ValidationMembers(qs, chosen, k - 1, capitalOf, p);
      hide ValidationUpTo;
      if exists q, j :: q in qs && 0 <= j < k && q.group == chosen[j] && p == (q.country, capitalOf[q.country]) {
        var q, j :| q in qs && 0 <= j < k && q.group == chosen[j] && p == (q.country, capitalOf[q.country]);
        if j < k - 1 {
          assert q in qs && 0 <= j < k - 1 && q.group == chosen[j] && p == (q.country, capitalOf[q.country]);
        }
      }
      if exists q :: q in qs && q.group == chosen[k - 1] && p == (q.country, capitalOf[q.country]) {
        var q :| q in qs && q.group == chosen[k - 1] && p == (q.country, capitalOf[q.country]);
        assert q in qs && 0 <= k - 1 < k && q.group == chosen[k - 1] && p == (q.country, capitalOf[q.country]);
      }
    }
  }

  /** Group `chosen[k-1]` adds exactly the pairs of its questions. */
  lemma ValidationStep(qs: seq<Question>, chosen: seq<int>, k: nat, capitalOf: Capitals, p: Pair)
    requires 0 < k <= |chosen|
    requires forall q :: q in qs ==> q.country in capitalOf
    ensures p in ValidationUpTo(qs, chosen, k, capitalOf) <==>
      p in ValidationUpTo(qs, chosen, k - 1, capitalOf) ||
      exists q :: q in qs && q.group == chosen[k - 1] && p == (q.country, capitalOf[q.country])
  {
    var g := chosen[k - 1];
    var bucket := InGroup(qs, g);
    InGroupMembers(qs, g);
    assert ValidationUpTo(qs, chosen, k, capitalOf) ==
      ValidationUpTo(qs, chosen, k - 1, capitalOf) + CorrectPairs(bucket, capitalOf);
    CorrectPairsMembers(bucket, capitalOf, p);
    hide ValidationUpTo, CorrectPairs, InGroup;
    forall q | q in qs && q.group == g
      ensures q in bucket
    {
      assert q in multiset(qs);
    }
  }

  /** The pairs of a bucket are (country, correct capital) of its questions. */
  lemma CorrectPairsMembers(bucket: seq<Question>, capitalOf: Capitals, p: Pair)
    requires forall q :: q in bucket ==> q.country in capitalOf
    ensures p in CorrectPairs(bucket, capitalOf) <==> exists q :: q in bucket && p == (q.country, capitalOf[q.country])
  {
    var pairs := CorrectPairs(bucket, capitalOf);
    if p in pairs {
      var i :| 0 <= i < |pairs| && pairs[i] == p;
      assert bucket[i] in bucket;
    }
    if exists q :: q in bucket && p == (q.country, capitalOf[q.country]) {
      var q :| q in bucket && p == (q.country, capitalOf[q.country]);
      var i :| 0 <= i < |bucket| && bucket[i] == q;
      assert pairs[i] == p;
    }
  }


  /** A list whose questions all carry group n has itself as bucket n and
      nothing in any other bucket. */
  lemma {:induction false} BucketSame(qs: seq<Question>, k: nat, n: int, h: int)
    requires k <= |qs|
    requires forall j :: 0 <= j < |qs| ==> qs[j].group == n
    ensures Bucket(qs, k, h) == if h == n then qs[..k] else []
  {
    if k > 0 {
      BucketSame(qs, k - 1, n, h);
      assert qs[..k] == qs[..k - 1] + [qs[k - 1]];
    }
  }

  /** Appending questions that all carry group n adds them to bucket n and
      to no other bucket. */
  lemma InGroupAppend(prefix: seq<Question>, last: seq<Question>, n: int, h: int)
    requires forall j :: 0 <= j < |last| ==> last[j].group == n
    ensures InGroup(prefix + last, h) == InGroup(prefix, h) + (if h == n then last else [])
  {
    BucketConcat(prefix, last, |last|, h);
    BucketSame(last, |last|, n, h);
    assert last[..|last|] == last;
    assert |prefix + last| == |prefix| + |last|;
  }

  /** In a generated quiz, bucket h is group h-1 exactly for 1 <= h <= n and
      empty otherwise. */
  lemma {:induction false} QuizBuckets(capitalOf: Capitals, qpg: nat, sampled: seq<string>, wrong: seq<seq<string>>,
                                       draws: seq<seq<nat>>, n: nat, h: int)
    requires QuizDraws(capitalOf, sampled, wrong, draws) && Offset(n, qpg) <= |sampled|
    ensures 1 <= h <= n ==> (Offset(h, qpg) <= Offset(n, qpg) &&
      InGroup(Quiz(capitalOf, qpg, sampled, wrong, draws, n), h) == Group(capitalOf, qpg, sampled, wrong, draws, h - 1))
    ensures !(1 <= h <= n) ==> InGroup(Quiz(capitalOf, qpg, sampled, wrong, draws, n), h) == []
  {
    hide Group;
    if 1 <= h <= n {
      OffsetMonotone(h, n, qpg);
    }
    if n > 0 {
      OffsetMonotone(n - 1, n, qpg);
      QuizBuckets(capitalOf, qpg, sampled, wrong, draws, n - 1, h);
      var prefix := Quiz(capitalOf, qpg, sampled, wrong, draws, n - 1);
      var last := Group(capitalOf, qpg, sampled, wrong, draws, n - 1);
      GroupFields(capitalOf, qpg, sampled, wrong, draws, n - 1);
      InGroupAppend(prefix, last, n, h);
      assert Quiz(capitalOf, qpg, sampled, wrong, draws, n) == prefix + last;
      if h == n {
        assert InGroup(prefix, h) == [];
      }
    }
  }

  /** Every question of a generated quiz is about a sampled country. */
  lemma {:induction false} QuizCountries(capitalOf: Capitals, qpg: nat, sampled: seq<string>, wrong: seq<seq<string>>,
                                         draws: seq<seq<nat>>, n: nat)
    requires QuizDraws(capitalOf, sampled, wrong, draws) && Offset(n, qpg) <= |sampled|
    ensures forall q :: q in Quiz(capitalOf, qpg, sampled, wrong, draws, n) ==> q.country in sampled && q.country in capitalOf
  {
    if n > 0 {
      OffsetMonotone(n - 1, n, qpg);
      QuizCountries(capitalOf, qpg, sampled, wrong, draws, n - 1);
      var last := Group(capitalOf, qpg, sampled, wrong, draws, n - 1);
      forall q | q in last
        ensures q.country in sampled && q.country in capitalOf
      {
        var t :| 0 <= t < |last| && last[t] == q;
        assert sampled[Offset(n - 1, qpg) + t] in sampled;
        assert DrawsAt(capitalOf, sampled, wrong, draws, Offset(n - 1, qpg) + t);
      }
    }
  }

  /** Question i of a generated quiz is about sampled country i. */
  lemma {:induction false} QuizOrder(capitalOf: Capitals, qpg: nat, sampled: seq<string>, wrong: seq<seq<string>>,
                                     draws: seq<seq<nat>>, n: nat)
    requires QuizDraws(capitalOf, sampled, wrong, draws) && Offset(n, qpg) <= |sampled|
    ensures forall i :: 0 <= i < Offset(n, qpg) ==> Quiz(capitalOf, qpg, sampled, wrong, draws, n)[i].country == sampled[i]
  {
    if n > 0 {
      OffsetMonotone(n - 1, n, qpg);
      QuizOrder(capitalOf, qpg, sampled, wrong, draws, n - 1);
      var prefix := Quiz(capitalOf, qpg, sampled, wrong, draws, n - 1);
      var last := Group(capitalOf, qpg, sampled, wrong, draws, n - 1);
      var qs: seq<Question> := prefix + last;
      GroupFields(capitalOf, qpg, sampled, wrong, draws, n - 1);
      assert Quiz(capitalOf, qpg, sampled, wrong, draws, n) == qs;
      forall i | Offset(n - 1, qpg) <= i < Offset(n, qpg)
        ensures qs[i].country == sampled[i]
      {
        assert qs[i] == last[i - Offset(n - 1, qpg)];
      }
    }
  }

  /** Every question of group g carries group number g + 1. */
  lemma GroupNumbersOfGroup(capitalOf: Capitals, qpg: nat, sampled: seq<string>, wrong: seq<seq<string>>,
                            draws: seq<seq<nat>>, g: nat)
    requires QuizDraws(capitalOf, sampled, wrong, draws) && Offset(g + 1, qpg) <= |sampled|
    ensures var r := GroupNumbers(Group(capitalOf, qpg, sampled, wrong, draws, g));
      |r| == qpg && forall t :: 0 <= t < |r| ==> r[t] == g + 1
  {
    GroupFields(capitalOf, qpg, sampled, wrong, draws, g);
  }

  lemma GroupNumbersConcat(a: seq<Question>, b: seq<Question>)
    ensures GroupNumbers(a + b) == GroupNumbers(a) + GroupNumbers(b)
  {
    assert forall i :: 0 <= i < |a + b| ==> (a + b)[i] == if i < |a| then a[i] else b[i - |a|];
  }

  /** A quiz of empty groups has no questions. */
  lemma {:induction false} QuizEmptyGroups(capitalOf: Capitals, sampled: seq<string>, wrong: seq<seq<string>>,
                                           draws: seq<seq<nat>>, n: nat)
    requires QuizDraws(capitalOf, sampled, wrong, draws)
    ensures Offset(n, 0) == 0 && Quiz(capitalOf, 0, sampled, wrong, draws, n) == []
  {
    if n > 0 {
      QuizEmptyGroups(capitalOf, sampled, wrong, draws, n - 1);
    }
  }

  /** Group numbers 1..n-1 followed by a run of n give keys 1..n. */
  lemma KeysStep(before: seq<int>, run: seq<int>, n: nat)
    requires n >= 1 && FirstSeen(before) == seq(n - 1, g => g + 1)
    requires run != [] && forall t :: 0 <= t < |run| ==> run[t] == n
    ensures FirstSeen(before + run) == seq(n, g => g + 1)
  {
    var keys := seq(n - 1, g => g + 1);
    assert n !in before by {
      assert forall j :: 0 <= j < |keys| ==> keys[j] < n;
    }
    FirstSeenRun(before, run, n);
    assert keys + [n] == seq(n, g => g + 1);
  }

  /** The keys of the dict of groups built from a generated quiz, in their
      first-seen order, are 1, 2, ..., n (none when groups are empty). */
  lemma {:induction false} QuizGroupKeys(capitalOf: Capitals, qpg: nat, sampled: seq<string>, wrong: seq<seq<string>>,
                                         draws: seq<seq<nat>>, n: nat)
    requires QuizDraws(capitalOf, sampled, wrong, draws) && Offset(n, qpg) <= |sampled|
    ensures FirstSeen(GroupNumbers(Quiz(capitalOf, qpg, sampled, wrong, draws, n))) ==
      if qpg == 0 then [] else seq(n, g => g + 1)
  {
    if qpg == 0 {
      QuizEmptyGroups(capitalOf, sampled, wrong, draws, n);
      assert GroupNumbers([]) == [];
    } else if n > 0 {
      OffsetMonotone(n - 1, n, qpg);
      QuizGroupKeys(capitalOf, qpg, sampled, wrong, draws, n - 1);
      var prefix := Quiz(capitalOf, qpg, sampled, wrong, draws, n - 1);
      var last := Group(capitalOf, qpg, sampled, wrong, draws, n - 1);
      assert Quiz(capitalOf, qpg, sampled, wrong, draws, n) == prefix + last;
      GroupNumbersOfGroup(capitalOf, qpg, sampled, wrong, draws, n - 1);
      GroupNumbersConcat(prefix, last);
      KeysStep(GroupNumbers(prefix), GroupNumbers(last), n);
    } else {
      assert GroupNumbers([]) == [];
    }
  }

  /** The validation set over k chosen groups among 1..n: one pair per
      question of those groups. */
  lemma {:induction false} ValidationSize(capitalOf: Capitals, qpg: nat, sampled: seq<string>,
                                          wrong: seq<seq<string>>, draws: seq<seq<nat>>, n: nat, chosen: seq<int>, k: nat)
    requires QuizDraws(capitalOf, sampled, wrong, draws) && Offset(n, qpg) <= |sampled| && k <= |chosen|
    requires forall q :: q in Quiz(capitalOf, qpg, sampled, wrong, draws, n) ==> q.country in capitalOf
    requires forall h :: h in chosen ==> 1 <= h <= n
    ensures |ValidationUpTo(Quiz(capitalOf, qpg, sampled, wrong, draws, n), chosen, k, capitalOf)| == Offset(k, qpg)
  {
    if k > 0 {
      ValidationSize(capitalOf, qpg, sampled, wrong, draws, n, chosen, k - 1);
      assert chosen[k - 1] in chosen;
      QuizBuckets(capitalOf, qpg, sampled, wrong, draws, n, chosen[k - 1]);
    }
  }

  /** For a generated quiz, the validation set over chosen groups among 1..n
      has |chosen| * qpg pairs, each a sampled country with its correct
      capital, and holds exactly the pairs of the questions of the chosen
      groups. */
  lemma QuizValidation(capitalOf: Capitals, qpg: nat, sampled: seq<string>,
                       wrong: seq<seq<string>>, draws: seq<seq<nat>>, n: nat, chosen: seq<int>)
    requires QuizDraws(capitalOf, sampled, wrong, draws) && |sampled| == qpg * n
    requires forall h :: h in chosen ==> 1 <= h <= n
    ensures Offset(n, qpg) == |sampled|
    ensures forall q :: q in Quiz(capitalOf, qpg, sampled, wrong, draws, n) ==> q.country in capitalOf
    ensures var qs := Quiz(capitalOf, qpg, sampled, wrong, draws, n);
      var v := Validation(qs, chosen, capitalOf);
      |v| == |chosen| * qpg &&
      (forall p :: p in v ==> p.0 in sampled && p.0 in capitalOf && p.1 == capitalOf[p.0]) &&
      (forall p :: p in v <==> exists q :: q in qs && q.group in chosen && p == (q.country, capitalOf[q.country]))
  {
    OffsetProduct(n, qpg);
    OffsetProduct(|chosen|, qpg);
    var qs := Quiz(capitalOf, qpg, sampled, wrong, draws, n);
    QuizCountries(capitalOf, qpg, sampled, wrong, draws, n);
    ValidationSize(capitalOf, qpg, sampled, wrong, draws, n, chosen, |chosen|);
    forall p
      ensures p in Validation(qs, chosen, capitalOf) <==>
        exists q :: q in qs && q.group in chosen && p == (q.country, capitalOf[q.country])
    {
      ValidationMembers(qs, chosen, |chosen|, capitalOf, p);
    }
  }

  // -------------------------------------------------------- save_quiz_data

  function Row(q: Question): (r: TaskRow)
  {
    TaskRow(q.country, JoinWith(q.capitals, Pipe), q.group)
  }

  /** The loop building `tasks_data`: one row per question, in order. */
  method TaskRows(questions: seq<Question>) returns (rows: seq<TaskRow>)
    ensures |rows| == |questions|
    ensures forall i :: 0 <= i < |questions| ==>
      rows[i].country == questions[i].country && rows[i].group == questions[i].group &&
      rows[i].capitals == JoinWith(questions[i].capitals, Pipe)
  {
    rows := [];
    for i := 0 to |questions|
      invariant |rows| == i
      invariant forall j :: 0 <= j < i ==> rows[j] == Row(questions[j])
    {
      rows := rows + [Row(questions[i])];
    }
  }

  /** Splitting a row's capitals on '|' gives back the question's options,
      when there is at least one and none contains '|'. */
  lemma RowSplit(q: Question)
    requires q.capitals != [] && forall c :: c in q.capitals ==> Pipe !in c
    ensures Split(Row(q).capitals, Pipe) == q.capitals
  {
    SplitJoin(q.capitals, Pipe);
  }

  /** The string hashed into the target: every country, then every capital,
      then the cost in decimal. */
  function TargetInput(validationSet: seq<Pair>, cost: nat): (r: string)
    ensures |r| == |HashInput(validationSet)| + |Decimal(cost)|
  {
    Join(Firsts(validationSet)) + Join(Seconds(validationSet)) + Decimal(cost)
  }

  /** The target's input is the matcher's input for the same list followed
      by the cost's digits, which read back as the cost; so it is never the
      matcher's input for that list itself. */
  lemma TargetInputSuffix(validationSet: seq<Pair>, cost: nat)
    ensures var r := TargetInput(validationSet, cost);
      var m := |HashInput(validationSet)|;
      r[..m] == HashInput(validationSet) && IsDigits(r[m..]) && DecimalValue(r[m..]) == cost
    ensures TargetInput(validationSet, cost) != HashInput(validationSet)
  {
    var r := TargetInput(validationSet, cost);
    var m := |HashInput(validationSet)|;
    assert r == HashInput(validationSet) + Decimal(cost);
    assert r[m..] == Decimal(cost);
    DecimalRoundTrip(cost);
  }

  /** `save_quiz_data`: the task rows, the target hash and the cost text;
      `cost` is the `random.randint(0, cost_of_mistake)` draw. */
  method SaveQuizData(questions: seq<Question>, validationSet: seq<Pair>, costOfMistake: int, cost: int,
                      hash: string -> string)
    returns (tasks: seq<TaskRow>, targetHash: string, costText: string)
    requires 0 <= cost <= costOfMistake
    ensures |tasks| == |questions| && forall i :: 0 <= i < |questions| ==> tasks[i] == Row(questions[i])
    ensures targetHash == hash(TargetInput(validationSet, cost))
    ensures IsDigits(costText) && DecimalValue(costText) == cost
  {
    tasks := TaskRows(questions);
    var countries := Join(Firsts(validationSet));
    var capitals := Join(Seconds(validationSet));
    var combined := countries + capitals;
    costText := Decimal(cost);
    combined := combined + costText;
    targetHash := hash(combined);
    DecimalRoundTrip(cost);
  }
}
