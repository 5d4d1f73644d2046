# Country-capital quiz: validation-set search, quiz generation and selection

This project is a Dafny model of the deterministic core of a country-capital
quiz whose answers are checked against a hidden "validation set".

- **Quiz generation** (`task_generator.py`):
  - sampled countries are cut into groups of `questions_per_group`;
  - each question gets four shuffled options: three wrong capitals and the correct one;
  - the questions are grouped back by group number;
  - whole chosen groups are flattened into the validation set of (country, correct capital) pairs;
  - the tasks are serialised as rows with `'|'`-joined options;
  - the target hash is taken over `join(countries) ++ join(capitals) ++ str(cost)`.
- **The quiz page** (`quiz_generator.py`):
  - the quiz is read back from the rows;
  - capital buttons toggle a per-question selection in place;
  - on submission every question is answered with its selection, or with all of its options when nothing is selected;
  - the countries left outside a found validation set are listed as Skip, Correct or Incorrect.
- **The search** (`answer_guesser.py`):
  - each answer row is parsed into (country, candidate capitals), and the rows are stably sorted by number of candidates;
  - every size-`k` subset of row positions is enumerated, `k` being `validation_size`;
  - for each subset, the Cartesian product of the candidate lists is walked;
  - for each product tuple, every ordering of its (country, capital) pairs is tried, hashing all countries followed by all capitals;
  - the first ordering that hashes to the target is returned;
  - a map `last_attempts` records the last capital tried for each country;
  - the sentinels `['timeout']` and `[]` mean "timed out" and "not found".
- **The parameter store** (`constants.py`): three current values with defaults (10, 5, 30). They are overwritten field by field and read back as a triple.

Randomness is modelled as parameters:
- `random.sample`, `random.shuffle` and `random.randint` become parameters, constrained by what those calls guarantee.
- `random.shuffle` is the Fisher-Yates swap sequence CPython performs: for `i` from `n-1` down to `1`, swap `i` with a drawn `j <= i`.

SHA-256 and the clock are modelled as follows:
- SHA-256 is the parameter `hash: string -> string`. Every search property is stated relative to it.
- The wall clock is the oracle `timedOut: nat -> bool`. The search asks it once before each subset, passing that subset's position.

A Python dict keeps keys in insertion order, and the model keeps that order explicit:
- `DictOrder.FirstSeen` gives the key order of `grouped_questions`.
- `QuizGenerator.OutsideRows` receives the key order of `last_attempts` beside the map. The dict comprehension at answer_guesser.py:55 fixes that order: the rows' countries, each where it first occurs (`AnswerGuesser.AttemptsOrder`). Later assignments only reach keys already present, so the order never changes.

Behaviour of the code, as modelled:

- **`validation_size` is 0.** The subset generator yields one empty subset. Its product has one empty tuple, which has one empty ordering. Unpacking that ordering into countries and capitals raises an error (answer_guesser.py:73). The handler at answer_guesser.py:81-83 turns this into `[]`, unless the timeout check fires first.
- **`validation_size` is negative.** The generator never yields: it recurses with ever smaller `k` until an index or the recursion limit fails. So the result is `[]`, with every attempt still `None`.
- **The target and the matcher disagree.**
  - The target builder appends the cost digits to the hash input (task_generator.py:96-97). The matcher hashes countries and capitals only (answer_guesser.py:74).
  - The matcher picks `validation_size` individual rows (answer_guesser.py:60). The generator picks whole groups (task_generator.py:63-71).
  - The model therefore states the search's soundness and completeness against a target hashed the way answer_guesser.py:74 hashes.
  - `TaskGenerator.TargetInputSuffix` proves that the generator's hash input is never the matcher's input for the same list: it is that input followed by the decimal cost.
- **What the search enumerates.** The search works in three nested levels (answer_guesser.py:58-80):
  - subsets of individual answer rows, in the generator's order;
  - within each subset, the product tuples;
  - within each tuple, the orderings.

  Each ordering is hashed once, with nothing added to the hash input.

## Model

| member | source | states |
|---|---|---|
| AnswerGuesser.ParseRowsShape | answer_guesser.py:25-27 | each parsed variant keeps its row's country and has at least one candidate, none containing '\|', and '\|'-joining the candidates gives the row's capitals text back |
| AnswerGuesser.GetCountryVariants | answer_guesser.py:22-30 | the variants are a rearrangement of the parsed rows, one per row, sorted non-decreasing by candidate count, with rows of equal count in input order |
| AnswerGuesser.SortByCount | answer_guesser.py:29-30 | the sort returns one variant per input variant |
| AnswerGuesser.SortByCountProperties | answer_guesser.py:29-30 | the stable sort keeps the multiset, is sorted by count, and keeps, for every count, the subsequence of variants with that count |
| AnswerGuesser.InsertMultiset | answer_guesser.py:30 | inserting a variant adds exactly that variant to the multiset |
| AnswerGuesser.InsertSorted | answer_guesser.py:30 | inserting before the first variant with at least as many candidates keeps a sorted list sorted |
| AnswerGuesser.InsertWithCount | answer_guesser.py:30 | insertion puts the new variant first among those with its count, keeping the others' order (stability) |
| AnswerGuesser.Combinations | answer_guesser.py:32-39 | every index subset generate_combinations(n, k) yields has k indices, all below n |
| AnswerGuesser.CombinationsSound | answer_guesser.py:32-39 | every yielded subset is a strictly increasing list of k indices below n |
| AnswerGuesser.CombinationsComplete | answer_guesser.py:32-39 | every strictly increasing list of k indices below n is yielded |
| AnswerGuesser.CombinationsDistinct | answer_guesser.py:32-39 | no subset is yielded twice |
| AnswerGuesser.CombinationsColex | answer_guesser.py:36-39 | subsets come in strictly increasing colexicographic order, i.e. grouped by ascending largest index |
| AnswerGuesser.CombinationsSize | answer_guesser.py:32-39 | exactly C(n, k) subsets are yielded |
| AnswerGuesser.CombinationsEdges | answer_guesser.py:33-36 | k == 0 yields only the empty subset, k > n yields nothing, 0 < k <= n yields at least one subset |
| AnswerGuesser.Generate | answer_guesser.py:32-39 | the recursion yields pairs of k countries and k candidate lists |
| AnswerGuesser.GenerateYields | answer_guesser.py:32-39 | built in lockstep, the yielded pair at each position is the countries and candidate lists of the variants at the indices of the subset Combinations(n, k) has at that position |
| AnswerGuesser.ZipUnzip | answer_guesser.py:70-74 | unpacking zipped lists into columns gives back both lists cut to the shorter length, and for lists of equal length the hash input is all countries followed by all capitals |
| AnswerGuesser.FirstMatch | answer_guesser.py:71-78 | a match is a non-empty listed ordering hashing to the target; no match exactly when every ordering is non-empty and misses; the unpacking error only when the empty ordering is listed |
| AnswerGuesser.FirstMatchAt | answer_guesser.py:71-78 | the first matching ordering after only non-matching ones is the one returned |
| AnswerGuesser.Record | answer_guesser.py:66-67 | recording a tuple keeps every country already in last_attempts |
| AnswerGuesser.RecordFrame | answer_guesser.py:66-67 | recording adds exactly the tuple's countries as keys, leaves other countries unchanged, and every new value is a capital of the tuple |
| AnswerGuesser.RecordLast | answer_guesser.py:66-67 | a country maps to the capital of its last occurrence in the tuple |
| AnswerGuesser.RecordDistinct | answer_guesser.py:66-67 | with distinct countries, each country of the tuple maps to its chosen capital |
| AnswerGuesser.TrySubset | answer_guesser.py:64-78 | a match reported for a subset is non-empty and hashes to the target |
| AnswerGuesser.Search | answer_guesser.py:58-78 | a list the search finds is non-empty and hashes to the target |
| AnswerGuesser.InitialAttempts | answer_guesser.py:55 | last_attempts starts with every row's country mapped to None, and no other key |
| AnswerGuesser.AttemptsOrder | answer_guesser.py:55 | the key order of last_attempts lists each row's country once and nothing else |
| AnswerGuesser.Guessed | answer_guesser.py:41-83 | a non-empty list returned hashes to the target |
| AnswerGuesser.RecordTuple | answer_guesser.py:66-67 | the recording loop computes Record |
| AnswerGuesser.ScanOrderings | answer_guesser.py:71-78 | the loop over orderings returns the first match, or the unpacking error, as FirstMatch |
| AnswerGuesser.SearchSubset | answer_guesser.py:64-78 | the loop over product tuples computes TrySubset, attempts included |
| AnswerGuesser.SearchSubsets | answer_guesser.py:58-83 | the loop over subsets with the timeout check returns the visible outcome of Search and its attempts |
| AnswerGuesser.FindValidationSet | answer_guesser.py:41-83 | find_validation_set returns exactly Guessed: empty answers, negative k, the search proper |
| Itertools.ProductMember | answer_guesser.py:64 | itertools.product yields exactly the tuples with one entry from each list |
| Itertools.Product | answer_guesser.py:64 | every tuple has one entry per list |
| Itertools.ProductSize | answer_guesser.py:64 | the product has as many tuples as the product of the list lengths |
| Itertools.ProductAt | answer_guesser.py:64 | tuple i takes from each list the entry at that list's digit of i in mixed radix, the last list's digit varying fastest |
| Itertools.DigitsValue | answer_guesser.py:64 | the mixed-radix digits of i stand for i, so tuple i is the i-th in odometer order |
| Itertools.PermutationsSound | answer_guesser.py:71 | every ordering produced is a rearrangement of the pairs |
| Itertools.PermutationsComplete | answer_guesser.py:71 | every rearrangement of the pairs is produced |
| Itertools.Permutations | answer_guesser.py:71 | every ordering is as long as the list |
| Itertools.PermutationsSize | answer_guesser.py:71 | exactly n! orderings are produced |
| Itertools.PermutationsMap | answer_guesser.py:71 | renaming the elements renames the orderings: which ordering comes where depends only on positions |
| Itertools.PermutationsByPosition | answer_guesser.py:71 | ordering t of any list puts at place j the element at position p[j], where p is arrangement t of the positions 0..n-1; repeated values give repeated orderings |
| Itertools.PositionOrder | answer_guesser.py:71 | the arrangements of positions come in strictly increasing lexicographic order, so none twice, and every arrangement is among them |
| Itertools.PermutationsLex | answer_guesser.py:71 | the orderings of an ascending list come in strictly increasing lexicographic order |
| SearchProperties.NoEmptyOrdering | answer_guesser.py:71-73 | orderings of a non-empty list are non-empty, so unpacking fails only for k == 0 |
| SearchProperties.TrySubsetSound | answer_guesser.py:64-78 | a match in a subset is an ordering of one product tuple's pairs; the unpacking error comes from an empty tuple |
| SearchProperties.TrySubsetComplete | answer_guesser.py:64-78 | if an ordering of some tuple's pairs hashes to the target, the subset's scan matches an ordering of that tuple or of an earlier one |
| SearchProperties.TrySubsetFirst | answer_guesser.py:64-78 | when no ordering of an earlier tuple hashes to the target and one of tuple i does, the scan returns the first hashing ordering of tuple i |
| SearchProperties.TrySubsetFinds | answer_guesser.py:64-78 | the same for a non-empty index subset and a tuple of its product |
| SearchProperties.RecordOffered | answer_guesser.py:66-67 | recording a product tuple keeps the keys and only records candidates of the subset's countries |
| SearchProperties.TrySubsetAttempts | answer_guesser.py:64-67 | scanning a subset keeps the keys of last_attempts and records only candidates offered in that subset |
| SearchProperties.ScanAttempts | answer_guesser.py:64-67 | scanning subset j keeps the keys and records only candidates offered up to subset j |
| SearchProperties.SearchSound | answer_guesser.py:60-78 | a found list is non-empty, hashes to the target and is an ordering of one product tuple of the subset it stopped in |
| SearchProperties.UnpackingEmpty | answer_guesser.py:73 | the unpacking error is raised only in the empty subset |
| SearchProperties.SearchTimeout | answer_guesser.py:59-62 | a timeout is reported at a subset whose check fires, and no earlier check fired |
| SearchProperties.SearchReaches | answer_guesser.py:58-78 | with no check firing and no match before subset x, the search reaches subset x with the attempts those scans left |
| SearchProperties.SearchRaised | answer_guesser.py:73 | the search raises only in an empty subset |
| SearchProperties.SearchComplete | answer_guesser.py:60-78 | with no timeout and non-empty subsets, a matching ordering in subset w is found at w or earlier |
| SearchProperties.SearchAttempts | answer_guesser.py:56-67 | the search keeps the keys of last_attempts and records only candidates offered in subsets it began |
| SearchProperties.VariantsOfRows | answer_guesser.py:22-30 | every sorted variant is the parse of some answer row |
| SearchProperties.VariantsCount | answer_guesser.py:22-30 | one variant per answer row |
| SearchProperties.GuessedEdgeCases | answer_guesser.py:33-35 | empty answers give ([], {}); negative k gives [] with all None; k > n gives [] with all None; k == 0 gives [] or a timeout; a first-check timeout gives ['timeout'] with all None |
| SearchProperties.GuessedTimeout | answer_guesser.py:59-62 | ['timeout'] only for non-empty answers and k >= 0, when the check before some subset fires and none before it did |
| SearchProperties.GuessedTimesOut | answer_guesser.py:58-62 | conversely, when the check before subset x fires, none before it did and no earlier subset matched, the result is ['timeout'] with the attempts of those scans |
| SearchProperties.FoundIsPreimage | answer_guesser.py:60-78 | a found list has k pairs and is a preimage: an ordering of one candidate per country of a k-subset, hashing to the target |
| SearchProperties.PreimageCandidates | answer_guesser.py:64-70 | every pair of a preimage is a country of the answers with one of its candidates |
| SearchProperties.GuessedSound | answer_guesser.py:41-83 | a non-empty result has k pairs, hashes to the target, is a preimage over a k-subset, and each capital is a candidate of its country |
| SearchProperties.PreimageFound | answer_guesser.py:60-78 | with no timeout and k > 0, an existing preimage is found |
| SearchProperties.GuessedComplete | answer_guesser.py:58-80 | with no timeout and k > 0 the result is a list, non-empty exactly when a preimage exists |
| SearchProperties.GuessedAttempts | answer_guesser.py:56-67 | last_attempts has exactly the rows' countries as keys; a value is recorded only if it is a candidate of that country in a subset the search began |
| SearchProperties.GuessedAttemptsOrder | answer_guesser.py:55 | the key order of the returned last_attempts is distinct and lists exactly its keys, as the quiz page's table of other countries needs |
| Text.Split | quiz_generator.py:36 | split gives at least one piece and no piece contains the separator |
| Text.JoinSplit | quiz_generator.py:36 | joining what was split gives back the string |
| Text.SplitJoin | quiz_generator.py:130 | splitting a join of separator-free pieces, at least one, gives back the pieces |
| Text.Decimal | task_generator.py:96 | str(n) is a non-empty digit string without leading zero |
| Text.DecimalRoundTrip | task_generator.py:96 | str(n) reads back as n |
| Text.Join | task_generator.py:90-91 | ''.join is as long as the pieces together |
| Text.JoinWith | quiz_generator.py:130 | '\|'.join is empty for no pieces, and otherwise as long as the pieces plus one separator between each two |
| Constants.ParameterStore.constructor | constants.py:4-11 | the current values start at (10, 5, 30) |
| Constants.ParameterStore.UpdateParameters | constants.py:13-21 | the new values are Updated of the old ones |
| Constants.UpdatedFields | constants.py:16-21 | a given argument overwrites its field; an absent one leaves it unchanged |
| Constants.UpdatedIdempotent | constants.py:13-21 | updating twice with the same arguments equals updating once |
| Constants.Updated | constants.py:13-21 | no arguments leave the parameters as they were; all three replace them |
| Constants.ParameterStore.GetParameters | constants.py:23-25 | returns the current triple in the order (num_questions, validation_size, timeout) |
| DictOrder.FirstSeenUpTo | task_generator.py:55-60 | dict keys after k insertions: no repeats, exactly the inserted keys, at most k |
| DictOrder.FirstSeen | task_generator.py:55-60 | dict keys: distinct, exactly the inserted keys |
| DictOrder.FirstSeenDistinct | task_generator.py:55-60 | keys inserted without repetition keep their order |
| TaskGenerator.SwapPermutes | task_generator.py:39 | a swap rearranges the list |
| TaskGenerator.SwapDownPermutes | task_generator.py:39 | the shuffle's swap sequence rearranges the list |
| TaskGenerator.Shuffled | task_generator.py:39 | random.shuffle yields a rearrangement of the options |
| TaskGenerator.CorrectCapital | task_generator.py:36-37 | the correct capital is the table's capital of the country and not one of its wrong answers |
| TaskGenerator.MakeQuestion | task_generator.py:35-44 | a question has the country, the group number and four options that rearrange the wrong answers plus the correct capital |
| TaskGenerator.OptionsOfQuestion | task_generator.py:36-39 | the correct capital occurs exactly once among the options, and every option is a capital of the table |
| TaskGenerator.OffsetProduct | task_generator.py:30-31 | group g starts at g * questions_per_group |
| TaskGenerator.OffsetMonotone | task_generator.py:30-31 | later groups start later |
| TaskGenerator.Group | task_generator.py:30-44 | a group has questions_per_group questions |
| TaskGenerator.GroupFields | task_generator.py:30-44 | question t of group g is about sampled country g*qpg + t and carries group number g + 1 |
| TaskGenerator.Quiz | task_generator.py:29-45 | n groups hold n * questions_per_group questions |
| TaskGenerator.GroupQuestionsFor | task_generator.py:34-44 | the inner loop builds exactly Group |
| TaskGenerator.GenerateQuiz | task_generator.py:14-45 | generate_quiz builds exactly Quiz and uses all sampled countries |
| TaskGenerator.QuizSlice | task_generator.py:30-32 | group g sits at positions g*qpg .. (g+1)*qpg of the quiz |
| TaskGenerator.QuizGroups | task_generator.py:28-45 | the question at each position of group g asks about the sampled country at that position, with group g + 1, four options, and the correct capital exactly once |
| TaskGenerator.QuizOrder | task_generator.py:28-45 | question i of a generated quiz is about sampled country i |
| TaskGenerator.QuizGroupKeys | task_generator.py:55-63 | for a generated quiz the keys of grouped_questions, in insertion order, are 1..num_questions (none when groups are empty) |
| TaskGenerator.BucketMembers | task_generator.py:55-60 | a partial bucket holds every question of its group with its multiplicity, and nothing else |
| TaskGenerator.Bucket | task_generator.py:55-60 | a bucket after k questions holds at most k questions |
| TaskGenerator.InGroupMembers | task_generator.py:55-60 | a bucket holds every question of its group with its multiplicity, and nothing else |
| TaskGenerator.InGroup | task_generator.py:55-60 | a bucket holds at most as many questions as the list |
| TaskGenerator.BucketEmpty | task_generator.py:58-59 | a group not yet seen has an empty bucket |
| TaskGenerator.BucketPrefix | task_generator.py:55-60 | later questions do not change earlier buckets |
| TaskGenerator.BucketConcat | task_generator.py:55-60 | the bucket of a concatenation is the concatenation of buckets |
| TaskGenerator.GroupQuestions | task_generator.py:55-60 | grouped_questions has the group numbers as keys in first-seen order, each bucket the questions of that group in list order |
| TaskGenerator.CorrectPairs | task_generator.py:68-71 | one pair per question, each a country with its correct capital |
| TaskGenerator.AppendCorrectPairs | task_generator.py:68-71 | the inner loop appends the (country, correct capital) pairs of a bucket |
| TaskGenerator.GenerateValidationSet | task_generator.py:52-73 | the validation set is the concatenation over the chosen groups, in chosen order, of their correct pairs |
| TaskGenerator.ValidationMembers | task_generator.py:66-71 | a pair is in the validation set exactly when it is (country, correct capital) of a question in a chosen group |
| TaskGenerator.Validation | task_generator.py:66-71 | every pair of the validation set is a country with its correct capital |
| TaskGenerator.BucketSame | task_generator.py:55-60 | a list whose questions all carry group n is its own bucket n, and every other bucket is empty |
| TaskGenerator.InGroupAppend | task_generator.py:45 | appending a group's questions extends only that group's bucket |
| TaskGenerator.QuizBuckets | task_generator.py:43 | in a generated quiz, bucket h is group h - 1 for 1 <= h <= n and empty otherwise |
| TaskGenerator.QuizCountries | task_generator.py:28-44 | every question is about a sampled country of the table |
| TaskGenerator.ValidationSize | task_generator.py:66-71 | the validation set over k chosen groups has k * questions_per_group pairs |
| TaskGenerator.QuizValidation | task_generator.py:48-71 | for a generated quiz the validation set has |chosen| * qpg pairs, each a sampled country with its correct capital, exactly those of the chosen groups' questions |
| TaskGenerator.TaskRows | task_generator.py:78-84 | one row per question in order, with the same country and group and the options joined with '\|' |
| TaskGenerator.RowSplit | task_generator.py:82 | splitting a row's capitals gives back the options when there is one and none contains '\|' |
| TaskGenerator.TargetInput | task_generator.py:90-97 | the hash input is as long as the matcher's input plus the cost digits |
| TaskGenerator.TargetInputSuffix | task_generator.py:90-97 | the hash input is the matcher's input followed by digits that read back as the cost, so it never equals the matcher's input |
| TaskGenerator.SaveQuizData | task_generator.py:75-101 | the rows are the questions' rows, the target hash is the hash of TargetInput, and the stored cost text reads back as the cost |
| QuizGenerator.QuizTaskCountries | quiz_generator.py:30 | for the rows saved from a generated quiz the country column is the sampled countries in quiz order, and when they are distinct its unique values are exactly those countries |
| QuizGenerator.FirstRowFrom | quiz_generator.py:34-36 | the first row at or after k about the country |
| QuizGenerator.FirstRow | quiz_generator.py:34-36 | the first row about the country |
| QuizGenerator.QuestionFor | quiz_generator.py:33-40 | the question read back is about the selected country |
| QuizGenerator.GetQuiz | quiz_generator.py:21-42 | no questions for an empty table; otherwise one question per sampled country in sampled order, each its first row's capitals split on '\|' |
| QuizGenerator.SampleSize | quiz_generator.py:30 | the sample has at most num_questions countries and no more than the rows; it is non-empty for a non-empty table and a positive count |
| QuizGenerator.QuizRoundTrip | quiz_generator.py:36 | reading back the rows written for a list of questions gives each country the options of its first question |
| QuizGenerator.IndexFrom | quiz_generator.py:92 | the first occurrence at or after k |
| QuizGenerator.IndexOf | quiz_generator.py:92 | the first occurrence |
| QuizGenerator.RemoveFirst | quiz_generator.py:92 | list.remove deletes the first occurrence: elements before it are kept, later ones shift down, one copy leaves the multiset |
| QuizGenerator.RemoveAppended | quiz_generator.py:92-94 | removing a capital just appended restores the list |
| QuizGenerator.Toggled | quiz_generator.py:91-94 | pressing a selected capital removes one copy of it; pressing another appends it and keeps the rest in place |
| QuizGenerator.ToggleTwice | quiz_generator.py:91-94 | toggling an absent capital appends it, and toggling it again restores the selection |
| QuizGenerator.ToggleDistinct | quiz_generator.py:91-94 | a selection without repeats stays without repeats; afterwards it holds the capital exactly when it did not before, and every other capital is unchanged |
| QuizGenerator.DistinctCount | quiz_generator.py:91-92 | in a list without repeats each element occurs once |
| QuizGenerator.ToggleWithin | quiz_generator.py:84-94 | toggling one of the question's capitals keeps the selection among its capitals |
| QuizGenerator.QuizSession.constructor | quiz_generator.py:51-52 | the quiz with one empty selection per question |
| QuizGenerator.QuizSession.Toggle | quiz_generator.py:91-94 | only selection idx changes, to its toggled value; selections stay within the options when the pressed capital is an option |
| QuizGenerator.QuizSession.SubmitAnswers | quiz_generator.py:121-131 | one answer per question in quiz order, each Answer of that question and its selection |
| QuizGenerator.Answer | quiz_generator.py:128-131 | the answer row is about the question's country |
| QuizGenerator.Chosen | quiz_generator.py:124-126 | the answer is empty only when both the selection and the options are; a selection within the options gives an answer within the options |
| QuizGenerator.AnswerParse | quiz_generator.py:122-131 | the guesser reads an answer back as the capitals it was answered with |
| QuizGenerator.ChosenCases | quiz_generator.py:124-126 | an empty selection stands for all options, otherwise the selection in its order |
| QuizGenerator.Classify | quiz_generator.py:170 | Skip exactly when nothing was tried, Correct exactly when the correct capital was tried last, Incorrect otherwise |
| QuizGenerator.OutsideRowFor | quiz_generator.py:169-175 | the status agrees with the row's own columns: Skip exactly when nothing was tried, Correct exactly when a capital was tried and it is the one shown as correct, Incorrect exactly when the one tried differs |
| QuizGenerator.OutsideUpTo | quiz_generator.py:167-168 | the first k keys outside the validation set, without repeats when the keys have none |
| QuizGenerator.OutsideRows | quiz_generator.py:164-176 | one row per key of last_attempts not in the validation set, in key order, each OutsideRowFor that country |
| QuizGenerator.OutsideCountries | quiz_generator.py:167-168 | the outside table lists each country of last_attempts that no validation pair names, once, and nothing else |

## Left out

- SHA-256 and its hex encoding (answer_guesser.py:75, task_generator.py:99) are the parameter `hash`. No property of SHA-256 itself is used.
- The wall clock (answer_guesser.py:59-62) is the oracle `timedOut`, asked once per subset. The value of `timeout` from `get_parameters` is not modelled.
- The timing records and timing display of the quiz page are not modelled.
- Random draws are parameters:
  - `random.sample` of countries, of wrong answers and of validation groups;
  - `random.shuffle`;
  - `random.randint` for the cost;
  - `random.sample` of quiz countries.
- TaskGenerator.GenerateQuiz: the `ValueError` `random.sample` raises when the table has fewer countries than requested is not modelled. The sample must be a distinct list of table countries of the requested size.
- TaskGenerator.DrawsAt: the model allows any three capitals of the table other than the correct one. It does not require those three to come from distinct positions of the candidate list, so it admits slightly more draws than Python does.
- TaskGenerator.GenerateValidationSet: the `ValueError` raised when `validation_size` exceeds the number of groups, or is negative, is not modelled. The chosen groups must be `validation_size` distinct group numbers of the quiz.
- QuizGenerator.GetQuiz: `num_questions` is a natural number. The `ValueError` a negative count would raise is not modelled.
- QuizGenerator.OutsideRows: the `KeyError` raised for a country missing from the capitals table is not modelled. Every listed country must be in the table.
- The `get_parameters` calls in task_generator.py:20 and 95 unpack four values, but constants.py:25 returns three. These calls are not modelled. The number of questions per group and `cost_of_mistake` are parameters, and constants.py is modelled as written.
- `load_answers`, `load_target_hash` (including its `ValueError` when no target is stored) and `save_answers` are left out, as are the Streamlit session state, pandas DataFrames and `print`. The answers and the target are parameters, and stored values are results.
- The handler at answer_guesser.py:81-83 is modelled only for the errors the model can raise: the unpacking error when k == 0, and the failure of the generator for a negative k. No other exception can arise in the model.
- Rendering of the quiz page is not modelled: the button layout, the validation-set table and the verification code. The toggle is modelled on selections, not on button positions.
- `generate_combinations` is a lazy generator. `AnswerGuesser.Generate` lists everything it yields at once. Yielding has no side effect and the timeout check still falls between subsets, so the result and the attempts are the same.
- main.py, quiz.py and automated_guesser.py are not part of this model.
