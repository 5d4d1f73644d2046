/** The validation-set search of answer_guesser.py.

    The user's answers are rows (country, '|'-joined candidate capitals).
    The search parses them into (country, candidate list) variants, sorts
    these by number of candidates, enumerates every size-k subset of variant
    positions, walks the Cartesian product of the candidate lists of each
    subset, and for each product tuple tries every ordering of its
    (country, capital) pairs, hashing the concatenated countries followed by
    the concatenated capitals. The first ordering whose hash is the target
    is returned. A dictionary `last_attempts` remembers the last capital
    tried for each country.

    SHA-256 is the parameter `hash`; the wall-clock timeout is the oracle
    `timedOut`, asked once before each subset with that subset's position. */
module AnswerGuesser {
  import opened Text
  import opened Itertools
  import opened DictOrder

  type Pair = (string, string)
  type Attempts = map<string, Option<string>>

  /** One row of the saved answers: a country and its '|'-joined capitals. */
  datatype AnswerRow = AnswerRow(country: string, capitals: string)

  /** A country with its list of candidate capitals. */
  datatype Variant = Variant(country: string, capitals: seq<string>)

  /** What `find_validation_set` returns in place of the validation set:
      the list `['timeout']`, or a list of (country, capital) pairs, empty
      when nothing was found. */
  datatype Guess = Timeout | Pairs(pairs: seq<Pair>)

  // ------------------------------------------------------------ variants

  function ParseRow(row: AnswerRow): Variant
  {
    Variant(row.country, Split(row.capitals, Pipe))
  }

  function ParseRows(rows: seq<AnswerRow>): (r: seq<Variant>)
    ensures |r| == |rows|
    ensures forall i :: 0 <= i < |rows| ==> r[i] == ParseRow(rows[i])
  {
    seq(|rows|, i requires 0 <= i < |rows| => ParseRow(rows[i]))
  }

  /** Each parsed variant keeps its row's country and has at least one
      candidate, none containing '|'; '|'-joining the candidates gives the
      row's capitals text back. */
  lemma ParseRowsShape(rows: seq<AnswerRow>)
    ensures var vs := ParseRows(rows);
      forall i :: 0 <= i < |rows| ==>
        vs[i].country == rows[i].country && |vs[i].capitals| >= 1 &&
        (forall c :: c in vs[i].capitals ==> Pipe !in c) &&
        JoinWith(vs[i].capitals, Pipe) == rows[i].capitals
  {
    forall i | 0 <= i < |rows|
      ensures JoinWith(ParseRows(rows)[i].capitals, Pipe) == rows[i].capitals
    {
      JoinSplit(rows[i].capitals, Pipe);
    }
  }

  /** The sort key: number of candidate capitals. */
  function Count(v: Variant): nat
  {
    |v.capitals|
  }

  predicate SortedByCount(vs: seq<Variant>)
  {
    forall i, j :: 0 <= i < j < |vs| ==> Count(vs[i]) <= Count(vs[j])
  }

  /** The variants with exactly `c` candidates, in their order in `vs`. */
  function WithCount(vs: seq<Variant>, c: nat): seq<Variant>
  {
    if vs == [] then []
    else (if Count(vs[0]) == c then [vs[0]] else []) + WithCount(vs[1..], c)
  }

  /** `v` placed in front of the first element with at least as many candidates. */
  function Insert(v: Variant, vs: seq<Variant>): (r: seq<Variant>)
    ensures |r| == |vs| + 1
  {
    if vs == [] then [v]
    else if Count(v) <= Count(vs[0]) then [v] + vs
    else [vs[0]] + Insert(v, vs[1..])
  }

  /** Python's stable `sorted(..., key=len(capitals))`, as an insertion sort. */
  function SortByCount(vs: seq<Variant>): (r: seq<Variant>)
    ensures |r| == |vs|
  {
    if vs == [] then [] else Insert(vs[0], SortByCount(vs[1..]))
  }

  lemma {:induction false} InsertMultiset(v: Variant, vs: seq<Variant>)
    ensures multiset(Insert(v, vs)) == multiset(vs) + multiset{v}
  {
    if vs != [] && Count(v) > Count(vs[0]) {
      InsertMultiset(v, vs[1..]);
      assert vs == [vs[0]] + vs[1..];
    }
  }

  lemma {:induction false} InsertMembers(v: Variant, vs: seq<Variant>)
    ensures forall x :: x in Insert(v, vs) ==> x == v || x in vs
  {
    if vs != [] && Count(v) > Count(vs[0]) {
      InsertMembers(v, vs[1..]);
      assert forall x :: x in vs[1..] ==> x in vs;
    }
  }

  lemma SortedTail(vs: seq<Variant>)
    requires SortedByCount(vs) && vs != []
    ensures SortedByCount(vs[1..])
  {
    var tail := vs[1..];
    forall i, j | 0 <= i < j < |tail|
      ensures Count(tail[i]) <= Count(tail[j])
    {
      assert tail[i] == vs[i + 1] && tail[j] == vs[j + 1];
    }
  }

  lemma SortedCons(x: Variant, rest: seq<Variant>)
    requires SortedByCount(rest)
    requires forall y :: y in rest ==> Count(x) <= Count(y)
    ensures SortedByCount([x] + rest)
  {
    var r := [x] + rest;
    forall i, j | 0 <= i < j < |r|
      ensures Count(r[i]) <= Count(r[j])
    {
      assert r[j] == rest[j - 1] && rest[j - 1] in rest;
      if i > 0 {
        assert r[i] == rest[i - 1];
      }
    }
  }

  lemma {:induction false} InsertSorted(v: Variant, vs: seq<Variant>)
    requires SortedByCount(vs)
    ensures SortedByCount(Insert(v, vs))
  {
    if vs == [] {
      SortedCons(v, vs);
    } else if Count(v) <= Count(vs[0]) {
      forall y | y in vs
        ensures Count(v) <= Count(y)
      {
        var u :| 0 <= u < |vs| && vs[u] == y;
        assert u == 0 || Count(vs[0]) <= Count(vs[u]);
      }
      SortedCons(v, vs);
    } else {
      var tail := vs[1..];
      SortedTail(vs);
      InsertSorted(v, tail);
      InsertMembers(v, tail);
      var rest := Insert(v, tail);
      forall x | x in rest
        ensures Count(vs[0]) <= Count(x)
      {
        if x != v {
          var u :| 0 <= u < |tail| && tail[u] == x;
          assert vs[u + 1] == x;
        }
      }
      SortedCons(vs[0], rest);
      assert Insert(v, vs) == [vs[0]] + rest;
    }
  }

  lemma WithCountCons(x: Variant, xs: seq<Variant>, c: nat)
    ensures WithCount([x] + xs, c) == (if Count(x) == c then [x] else []) + WithCount(xs, c)
  {
    assert ([x] + xs)[1..] == xs;
  }

  lemma {:induction false} InsertWithCount(v: Variant, vs: seq<Variant>, c: nat)
    ensures WithCount(Insert(v, vs), c) == (if Count(v) == c then [v] else []) + WithCount(vs, c)
  {
    if vs == [] {
      WithCountCons(v, [], c);
    } else if Count(v) <= Count(vs[0]) {
      WithCountCons(v, vs, c);
    } else {
      InsertWithCount(v, vs[1..], c);
      var rest := Insert(v, vs[1..]);
      assert Insert(v, vs) == [vs[0]] + rest;
      WithCountCons(vs[0], rest, c);
      WithCountCons(vs[0], vs[1..], c);
      assert vs == [vs[0]] + vs[1..];
      if Count(v) == c {
        assert Count(vs[0]) != c;
      }
    }
  }

  /** Sorting keeps every variant (one per row), orders them by number of
      candidates, and keeps variants with equal counts in their input order. */
  lemma {:induction false} SortByCountProperties(vs: seq<Variant>)
    ensures multiset(SortByCount(vs)) == multiset(vs)
    ensures SortedByCount(SortByCount(vs))
    ensures forall c :: WithCount(SortByCount(vs), c) == WithCount(vs, c)
  {
    if vs != [] {
      var rest := SortByCount(vs[1..]);
      assert SortByCount(vs) == Insert(vs[0], rest);
      assert vs == [vs[0]] + vs[1..];
      SortByCountProperties(vs[1..]);
      InsertMultiset(vs[0], rest);
      InsertSorted(vs[0], rest);
      forall c
        ensures WithCount(SortByCount(vs), c) == WithCount(vs, c)
      {
        InsertWithCount(vs[0], rest, c);
        WithCountCons(vs[0], vs[1..], c);
      }
    }
  }

  /** `get_country_variants`: one (country, split capitals) variant per row,
      stably sorted by number of candidates. */
  method GetCountryVariants(rows: seq<AnswerRow>) returns (variants: seq<Variant>)
    ensures variants == SortByCount(ParseRows(rows))
    ensures |variants| == |rows|
    ensures multiset(variants) == multiset(ParseRows(rows))
    ensures SortedByCount(variants)
    ensures forall c :: WithCount(variants, c) == WithCount(ParseRows(rows), c)
  {
    var parsed: seq<Variant> := [];
    for i := 0 to |rows|
      invariant |parsed| == i
      invariant forall j :: 0 <= j < i ==> parsed[j] == ParseRow(rows[j])
    {
      parsed := parsed + [ParseRow(rows[i])];
    }
    assert parsed == ParseRows(rows);
    variants := SortByCount(parsed);
    SortByCountProperties(parsed);
    assert |variants| == |multiset(variants)| == |multiset(parsed)| == |rows|;
  }

  /** The variants the search works on. */
  function Variants(rows: seq<AnswerRow>): seq<Variant>
  {
    SortByCount(ParseRows(rows))
  }

  // --------------------------------------------------------- combinations

  predicate Increasing(s: seq<nat>)
  {
    forall a, b :: 0 <= a < b < |s| ==> s[a] < s[b]
  }

  /** `s` lists a size-`k` subset of `0..n-1` in increasing order. */
  predicate IsCombination(s: seq<nat>, n: nat, k: nat)
  {
    |s| == k && Increasing(s) && forall t :: 0 <= t < |s| ==> s[t] < n
  }

  function Extend(ps: seq<seq<nat>>, i: nat): (r: seq<seq<nat>>)
    ensures |r| == |ps|
    ensures forall j :: 0 <= j < |r| ==> r[j] == ps[j] + [i]
  {
    seq(|ps|, j requires 0 <= j < |ps| => ps[j] + [i])
  }

  /** The index subsets `generate_combinations(n, k)` yields, in its order:
      for k == 0 the empty subset; otherwise, for each largest element i
      from k-1 up to n-1, the subsets of `0..i-1` of size k-1 extended by i. */
  function Combinations(n: nat, k: nat): (r: seq<seq<nat>>)
    ensures forall t :: 0 <= t < |r| ==> |r[t]| == k
    ensures Below(r, n)
    decreases k, 1, 0
  {
    if k == 0 then [[]] else CombinationsEnding(k - 1, n, k)
  }

  /** The subsets whose largest element is `i` or more (the loop from `i` on). */
  function CombinationsEnding(i: nat, n: nat, k: nat): (r: seq<seq<nat>>)
    requires k > 0
    ensures forall t :: 0 <= t < |r| ==> |r[t]| == k
    ensures Below(r, n)
    decreases k, 0, n - i
  {
    if i >= n then []
    else Extend(Combinations(i, k - 1), i) + CombinationsEnding(i + 1, n, k)
  }

  lemma {:induction false} ExtendMember(ps: seq<seq<nat>>, i: nat, p: seq<nat>)
    ensures p in Extend(ps, i) <==> p != [] && p[|p| - 1] == i && p[..|p| - 1] in ps
  {
    var r := Extend(ps, i);
    if p in r {
      var j :| 0 <= j < |r| && r[j] == p;
      assert p[..|p| - 1] == ps[j];
    }
    if p != [] && p[|p| - 1] == i && p[..|p| - 1] in ps {
      var j :| 0 <= j < |ps| && ps[j] == p[..|p| - 1];
      assert r[j] == p;
    }
  }

  /** Everything yielded is an increasing size-k subset of `0..n-1`. */
  lemma {:induction false} CombinationsSound(n: nat, k: nat, p: seq<nat>)
    requires p in Combinations(n, k)
    ensures IsCombination(p, n, k)
    decreases k, 1, 0
  {
    if k > 0 {
      EndingSound(k - 1, n, k, p);
    }
  }

  lemma {:induction false} EndingSound(i: nat, n: nat, k: nat, p: seq<nat>)
    requires k > 0
    requires p in CombinationsEnding(i, n, k)
    ensures IsCombination(p, n, k) && p[k - 1] >= i
    decreases k, 0, n - i
  {
    if i < n {
      if p in Extend(Combinations(i, k - 1), i) {
        ExtendMember(Combinations(i, k - 1), i, p);
        var q := p[..|p| - 1];
        CombinationsSound(i, k - 1, q);
        assert p == q + [i];
      } else {
        EndingSound(i + 1, n, k, p);
      }
    }
  }

  lemma {:induction false} IncreasingAtLeast(s: seq<nat>, t: nat)
    requires Increasing(s) && t < |s|
    ensures s[t] >= t
  {
    if t > 0 {
      IncreasingAtLeast(s, t - 1);
    }
  }

  /** Dropping the largest index of a subset leaves a subset of the indices
      below it, and there are enough of those. */
  lemma CombinationPrefix(p: seq<nat>, n: nat, k: nat)
    requires IsCombination(p, n, k) && k > 0
    ensures IsCombination(p[..k - 1], p[k - 1], k - 1)
    ensures k - 1 <= p[k - 1] < n
  {
    IncreasingAtLeast(p, k - 1);
  }

  /** Every increasing size-k subset of `0..n-1` is yielded. */
  lemma {:induction false} CombinationsComplete(n: nat, k: nat, p: seq<nat>)
    requires IsCombination(p, n, k)
    ensures p in Combinations(n, k)
    decreases k
  {
    if k > 0 {
      var last := p[k - 1];
      var q := p[..k - 1];
      CombinationPrefix(p, n, k);
      CombinationsComplete(last, k - 1, q);
      assert p == q + [last];
      ExtendMember(Combinations(last, k - 1), last, p);
      EndingContains(k - 1, n, k, last, p);
    }
  }

  lemma {:induction false} EndingContains(from: nat, n: nat, k: nat, i: nat, p: seq<nat>)
    requires k > 0 && from <= i < n
    requires p in Extend(Combinations(i, k - 1), i)
    ensures p in CombinationsEnding(from, n, k)
    decreases i - from
  {
    if from < i {
      EndingContains(from + 1, n, k, i, p);
    }
  }

  /** Colexicographic order on equal-length index lists: compare the last
      elements, and on a tie the rest. */
  predicate ColexLess(a: seq<nat>, b: seq<nat>)
    decreases |a|
  {
    |a| == |b| && a != [] &&
    (a[|a| - 1] < b[|b| - 1] ||
     (a[|a| - 1] == b[|b| - 1] && ColexLess(a[..|a| - 1], b[..|b| - 1])))
  }

  lemma {:induction false} ColexIrreflexive(a: seq<nat>)
    ensures !ColexLess(a, a)
    decreases |a|
  {
    if a != [] {
      ColexIrreflexive(a[..|a| - 1]);
    }
  }

  /** Each list comes colexicographically before every later one. */
  predicate ColexSorted(ps: seq<seq<nat>>)
  {
    forall x, y :: 0 <= x < y < |ps| ==> ColexLess(ps[x], ps[y])
  }

  /** Subsets are yielded in strictly increasing colexicographic order, so
      grouped by ascending largest index. */
  lemma {:induction false} CombinationsColex(n: nat, k: nat)
    ensures ColexSorted(Combinations(n, k))
    decreases k, 1, 0
  {
    if k > 0 {
      EndingColex(k - 1, n, k);
    }
  }

  lemma {:induction false} EndingColex(i: nat, n: nat, k: nat)
    requires k > 0
    ensures ColexSorted(CombinationsEnding(i, n, k))
    decreases k, 0, n - i
  {
    if i < n {
      var inner := Combinations(i, k - 1);
      var rest := CombinationsEnding(i + 1, n, k);
      CombinationsColex(i, k - 1);
      EndingColex(i + 1, n, k);
      ExtendColex(inner, i);
      forall p, q | p in Extend(inner, i) && q in rest
        ensures ColexLess(p, q)
      {
        EndingBefore(i, n, k, p, q);
      }
      ColexSortedConcat(Extend(inner, i), rest);
    }
  }

  /** Appending the same index keeps the colexicographic order. */
  lemma ColexAppend(a: seq<nat>, b: seq<nat>, i: nat)
    requires ColexLess(a, b)
    ensures ColexLess(a + [i], b + [i])
  {
    assert (a + [i])[..|a|] == a;
    assert (b + [i])[..|b|] == b;
  }

  /** Extending every list of a sorted list by the same index keeps it sorted. */
  lemma ExtendColex(ps: seq<seq<nat>>, i: nat)
    requires ColexSorted(ps)
    ensures ColexSorted(Extend(ps, i))
  {
    var r := Extend(ps, i);
    forall x, y | 0 <= x < y < |r|
      ensures ColexLess(r[x], r[y])
    {
      ColexAppend(ps[x], ps[y], i);
    }
  }

  /** A subset ending in `i` precedes every subset ending later. */
  lemma EndingBefore(i: nat, n: nat, k: nat, p: seq<nat>, q: seq<nat>)
    requires k > 0 && i < n
    requires p in Extend(Combinations(i, k - 1), i)
    requires q in CombinationsEnding(i + 1, n, k)
    ensures ColexLess(p, q)
  {
    ExtendMember(Combinations(i, k - 1), i, p);
    CombinationsSound(i, k - 1, p[..|p| - 1]);
    EndingSound(i + 1, n, k, q);
  }

  /** Two sorted lists, each of whose members precedes every member of the
      second, concatenate to a sorted list. */
  lemma ColexSortedConcat(a: seq<seq<nat>>, b: seq<seq<nat>>)
    requires ColexSorted(a) && ColexSorted(b)
    requires forall p, q :: p in a && q in b ==> ColexLess(p, q)
    ensures ColexSorted(a + b)
  {
    var c := a + b;
    forall x, y | 0 <= x < y < |c|
      ensures ColexLess(c[x], c[y])
    {
      if y < |a| {
        assert c[x] == a[x] && c[y] == a[y];
      } else if x < |a| {
        assert c[x] in a && c[y] in b;
      } else {
        assert c[x] == b[x - |a|] && c[y] == b[y - |a|];
      }
    }
  }

  /** No subset is yielded twice. */
  lemma CombinationsDistinct(n: nat, k: nat)
    ensures forall x, y :: 0 <= x < y < |Combinations(n, k)| ==>
      Combinations(n, k)[x] != Combinations(n, k)[y]
  {
    CombinationsColex(n, k);
    assert ColexSorted(Combinations(n, k));
    forall x, y | 0 <= x < y < |Combinations(n, k)|
      ensures Combinations(n, k)[x] != Combinations(n, k)[y]
    {
      ColexIrreflexive(Combinations(n, k)[x]);
    }
  }

  /** The binomial coefficient, by Pascal's rule. */
  function Binomial(n: nat, k: nat): nat
  {
    if k == 0 then 1 else if n == 0 then 0 else Binomial(n - 1, k - 1) + Binomial(n - 1, k)
  }

  lemma {:induction false} BinomialBeyond(n: nat, k: nat)
    requires k > n
    ensures Binomial(n, k) == 0
  {
    if n > 0 {
      BinomialBeyond(n - 1, k - 1);
      BinomialBeyond(n - 1, k);
    }
  }

  lemma {:induction false} BinomialPositive(n: nat, k: nat)
    requires k <= n
    ensures Binomial(n, k) > 0
  {
    if k > 0 {
      BinomialPositive(n - 1, k - 1);
    }
  }

  /** Exactly C(n, k) subsets are yielded. */
  lemma {:induction false} CombinationsSize(n: nat, k: nat)
    ensures |Combinations(n, k)| == Binomial(n, k)
    decreases k, 1, 0
  {
    if k > 0 {
      if k - 1 <= n {
        EndingSize(k - 1, n, k);
        BinomialBeyond(k - 1, k);
      } else {
        BinomialBeyond(n, k);
      }
    }
  }

  lemma {:induction false} EndingSize(i: nat, n: nat, k: nat)
    requires k > 0 && i <= n
    ensures |CombinationsEnding(i, n, k)| + Binomial(i, k) == Binomial(n, k)
    decreases k, 0, n - i
  {
    if i < n {
      CombinationsSize(i, k - 1);
      EndingSize(i + 1, n, k);
    }
  }

  /** k == 0 yields the one empty subset; k > n yields nothing; otherwise
      there is at least one subset. */
  lemma CombinationsEdges(n: nat, k: nat)
    ensures k == 0 ==> Combinations(n, k) == [[]]
    ensures k > n ==> Combinations(n, k) == []
    ensures k <= n ==> |Combinations(n, k)| > 0
  {
    CombinationsSize(n, k);
    if k <= n {
      BinomialPositive(n, k);
    }
  }

  /** Every index of every subset is a position of `vs`. */
  predicate Below(subsets: seq<seq<nat>>, n: nat)
  {
    forall x, t :: 0 <= x < |subsets| && 0 <= t < |subsets[x]| ==> subsets[x][t] < n
  }

  /** The countries `generate_combinations` yields for index subset `idx`. */
  function Countries(vs: seq<Variant>, idx: seq<nat>): (r: seq<string>)
    requires forall t :: 0 <= t < |idx| ==> idx[t] < |vs|
    ensures |r| == |idx|
  {
    seq(|idx|, t requires 0 <= t < |idx| => vs[idx[t]].country)
  }

  /** The candidate lists yielded beside them, position for position. */
  function CapitalLists(vs: seq<Variant>, idx: seq<nat>): (r: seq<seq<string>>)
    requires forall t :: 0 <= t < |idx| ==> idx[t] < |vs|
    ensures |r| == |idx|
  {
    seq(|idx|, t requires 0 <= t < |idx| => vs[idx[t]].capitals)
  }

  /** What `generate_combinations` yields for one subset: the countries and,
      beside them, their candidate lists. */
  type Yielded = (seq<string>, seq<seq<string>>)

  /** `generate_combinations(n, k, vs)` as its recursion builds the two
      lists: for k == 0 one pair of empty lists; otherwise, for each i from
      k-1 up to n-1, every pair yielded for `(i, k-1)` with variant i
      appended to both lists. */
  function Generate(vs: seq<Variant>, n: nat, k: nat): (r: seq<Yielded>)
    requires n <= |vs|
    ensures forall t :: 0 <= t < |r| ==> |r[t].0| == |r[t].1| == k
    decreases k, 1, 0
  {
    if k == 0 then [([], [])] else GenerateFrom(vs, k - 1, n, k)
  }

  /** The pairs the loop yields from `i` on. */
  function GenerateFrom(vs: seq<Variant>, i: nat, n: nat, k: nat): (r: seq<Yielded>)
    requires n <= |vs| && k > 0
    ensures forall t :: 0 <= t < |r| ==> |r[t].0| == |r[t].1| == k
    decreases k, 0, n - i
  {
    if i >= n then []
    else AppendVariant(Generate(vs, i, k - 1), vs[i]) + GenerateFrom(vs, i + 1, n, k)
  }

  /** Every yielded pair with the country of `v` appended to its countries
      and the candidates of `v` to its candidate lists. */
  function AppendVariant(items: seq<Yielded>, v: Variant): (r: seq<Yielded>)
    ensures |r| == |items|
    ensures forall t :: 0 <= t < |r| ==> r[t] == (items[t].0 + [v.country], items[t].1 + [v.capitals])
  {
    seq(|items|, t requires 0 <= t < |items| => (items[t].0 + [v.country], items[t].1 + [v.capitals]))
  }

  /** `y` is the pair of lists belonging to index subset `idx`. */
  ghost predicate Yields(vs: seq<Variant>, idx: seq<nat>, y: Yielded)
  {
    (forall t :: 0 <= t < |idx| ==> idx[t] < |vs|) && y == (Countries(vs, idx), CapitalLists(vs, idx))
  }

  lemma YieldsAppend(vs: seq<Variant>, idx: seq<nat>, y: Yielded, i: nat)
    requires Yields(vs, idx, y) && i < |vs|
    ensures Yields(vs, idx + [i], (y.0 + [vs[i].country], y.1 + [vs[i].capitals]))
  {
    assert Countries(vs, idx + [i]) == Countries(vs, idx) + [vs[i].country];
    assert CapitalLists(vs, idx + [i]) == CapitalLists(vs, idx) + [vs[i].capitals];
  }

  /** The generator yields, position for position, the countries and the
      candidate lists of the index subsets `Combinations(n, k)`: the two
      lists are built in lockstep from the same variants. */
  lemma {:induction false} GenerateYields(vs: seq<Variant>, n: nat, k: nat)
    requires n <= |vs|
    ensures |Generate(vs, n, k)| == |Combinations(n, k)|
    ensures forall t :: 0 <= t < |Combinations(n, k)| ==>
      Yields(vs, Combinations(n, k)[t], Generate(vs, n, k)[t])
    decreases k, 1, 0
  {
    if k == 0 {
      assert Yields(vs, [], ([], []));
    } else {
      GenerateFromYields(vs, k - 1, n, k);
    }
  }

  lemma {:induction false} GenerateFromYields(vs: seq<Variant>, i: nat, n: nat, k: nat)
    requires n <= |vs| && k > 0
    ensures |GenerateFrom(vs, i, n, k)| == |CombinationsEnding(i, n, k)|
    ensures forall t :: 0 <= t < |CombinationsEnding(i, n, k)| ==>
      Yields(vs, CombinationsEnding(i, n, k)[t], GenerateFrom(vs, i, n, k)[t])
    decreases k, 0, n - i
  {
    if i < n {
      var items, subsets := Generate(vs, i, k - 1), Combinations(i, k - 1);
      var a, b := AppendVariant(items, vs[i]), Extend(subsets, i);
      var items', subsets' := GenerateFrom(vs, i + 1, n, k), CombinationsEnding(i + 1, n, k);
      GenerateYields(vs, i, k - 1);
      GenerateFromYields(vs, i + 1, n, k);
      assert GenerateFrom(vs, i, n, k) == a + items';
      assert CombinationsEnding(i, n, k) == b + subsets';
      forall t | 0 <= t < |b + subsets'|
        ensures Yields(vs, (b + subsets')[t], (a + items')[t])
      {
        if t < |b| {
          YieldsAppend(vs, subsets[t], items[t], i);
        } else {
          assert (b + subsets')[t] == subsets'[t - |b|] && (a + items')[t] == items'[t - |a|];
        }
      }
    }
  }

  // ------------------------------------------------------------- matching

  /** Python's `zip`: pairs position by position, as long as the shorter list. */
  function Zip(xs: seq<string>, ys: seq<string>): (r: seq<Pair>)
    ensures |r| == if |xs| <= |ys| then |xs| else |ys|
    ensures forall i :: 0 <= i < |r| ==> r[i] == (xs[i], ys[i])
  {
    var m := if |xs| <= |ys| then |xs| else |ys|;
    seq(m, i requires 0 <= i < m => (xs[i], ys[i]))
  }

  function Firsts(ps: seq<Pair>): seq<string>
  {
    seq(|ps|, i requires 0 <= i < |ps| => ps[i].0)
  }

  function Seconds(ps: seq<Pair>): seq<string>
  {
    seq(|ps|, i requires 0 <= i < |ps| => ps[i].1)
  }

  /** Unpacking a zipped list into its two columns gives back the two lists,
      cut to the shorter length; so the hash input of the zipped lists is all
      the first list followed by all the second. */
  lemma ZipUnzip(xs: seq<string>, ys: seq<string>)
    ensures var m := |Zip(xs, ys)|;
      Firsts(Zip(xs, ys)) == xs[..m] && Seconds(Zip(xs, ys)) == ys[..m]
    ensures |xs| == |ys| ==> Firsts(Zip(xs, ys)) == xs && Seconds(Zip(xs, ys)) == ys
    ensures |xs| == |ys| ==> HashInput(Zip(xs, ys)) == Join(xs) + Join(ys)
  {
    var m := |Zip(xs, ys)|;
    assert Firsts(Zip(xs, ys)) == xs[..m];
    assert Seconds(Zip(xs, ys)) == ys[..m];
    assert |xs| == |ys| ==> xs[..m] == xs && ys[..m] == ys;
  }

  /** The string that is hashed for an ordering of pairs: all countries,
      then all capitals, without separators. */
  function HashInput(ps: seq<Pair>): string
  {
    Join(Firsts(ps)) + Join(Seconds(ps))
  }

  /** How a scan over the orderings of one product tuple ends: a match, no
      match, or the error raised when the empty ordering is unpacked into
      countries and capitals (which happens only when k == 0). */
  datatype Scan = Matched(pairs: seq<Pair>) | NoMatch | Unpacking

  /** The first ordering, in enumeration order, whose hash is the target. */
  function FirstMatch(perms: seq<seq<Pair>>, hash: string -> string, target: string): (r: Scan)
    ensures r.Matched? ==> r.pairs in perms && r.pairs != [] && hash(HashInput(r.pairs)) == target
    ensures r.NoMatch? <==> forall q :: q in perms ==> q != [] && hash(HashInput(q)) != target
    ensures r.Unpacking? ==> [] in perms
  {
    if perms == [] then NoMatch
    else
      assert perms[0] in perms;
      if perms[0] == [] then Unpacking
      else if hash(HashInput(perms[0])) == target then Matched(perms[0])
      else
        assert forall q :: q in perms <==> q == perms[0] || q in perms[1..];
        FirstMatch(perms[1..], hash, target)
  }

  /** The match reported is the earliest one: an ordering that matches after
      only non-empty, non-matching orderings is the one returned. */
  lemma {:induction false} FirstMatchAt(perms: seq<seq<Pair>>, i: nat, hash: string -> string, target: string)
    requires i < |perms|
    requires forall j :: 0 <= j < i ==> perms[j] != [] && hash(HashInput(perms[j])) != target
    requires perms[i] != [] && hash(HashInput(perms[i])) == target
    ensures FirstMatch(perms, hash, target) == Matched(perms[i])
  {
    if i > 0 {
      FirstMatchAt(perms[1..], i - 1, hash, target);
    }
  }

  /** The attempts after each pair of the tuple, in order, has set its
      country's attempt to its capital. Every country already present stays. */
  function Record(att: Attempts, pairs: seq<Pair>): (r: Attempts)
    ensures att.Keys <= r.Keys
    decreases |pairs|
  {
    if pairs == [] then att else Record(att[pairs[0].0 := Some(pairs[0].1)], pairs[1..])
  }

  /** Recording adds the tuple's countries as keys; a country the tuple does
      not mention keeps its value; every other value comes from the tuple. */
  lemma {:induction false} RecordFrame(att: Attempts, pairs: seq<Pair>)
    ensures Record(att, pairs).Keys == att.Keys + (set p | p in pairs :: p.0)
    ensures forall c :: c in att && (forall t :: 0 <= t < |pairs| ==> pairs[t].0 != c) ==>
      Record(att, pairs)[c] == att[c]
    ensures forall c :: c in Record(att, pairs) ==>
      ((c in att && Record(att, pairs)[c] == att[c]) ||
       (exists t :: 0 <= t < |pairs| && pairs[t].0 == c && Record(att, pairs)[c] == Some(pairs[t].1)))
    decreases |pairs|
  {
    if pairs != [] {
      var att' := att[pairs[0].0 := Some(pairs[0].1)];
      RecordFrame(att', pairs[1..]);
      assert forall p :: p in pairs <==> p == pairs[0] || p in pairs[1..];
      assert forall t :: 1 <= t < |pairs| ==> pairs[t] == pairs[1..][t - 1];
      var r := Record(att, pairs);
      forall c | c in r
        ensures (c in att && r[c] == att[c]) ||
          (exists t :: 0 <= t < |pairs| && pairs[t].0 == c && r[c] == Some(pairs[t].1))
      {
        if !(c in att' && r[c] == att'[c]) {
          var t :| 0 <= t < |pairs[1..]| && pairs[1..][t].0 == c && r[c] == Some(pairs[1..][t].1);
          assert pairs[t + 1] == pairs[1..][t];
        } else if c == pairs[0].0 {
          assert pairs[0].0 == c && r[c] == Some(pairs[0].1);
        }
      }
    }
  }

  /** After recording a tuple, each of its countries maps to the capital of
      its last occurrence in the tuple. */
  lemma {:induction false} RecordLast(att: Attempts, pairs: seq<Pair>, t: nat)
    requires t < |pairs|
    requires forall u :: t < u < |pairs| ==> pairs[u].0 != pairs[t].0
    ensures pairs[t].0 in Record(att, pairs) && Record(att, pairs)[pairs[t].0] == Some(pairs[t].1)
    decreases |pairs|
  {
    var att' := att[pairs[0].0 := Some(pairs[0].1)];
    if t == 0 {
      RecordFrame(att', pairs[1..]);
      assert forall u :: 0 <= u < |pairs[1..]| ==> pairs[1..][u] == pairs[u + 1];
    } else {
      RecordLast(att', pairs[1..], t - 1);
    }
  }

  /** For a tuple whose countries are all different, every country of the
      tuple ends up mapped to its chosen capital. */
  lemma RecordDistinct(att: Attempts, pairs: seq<Pair>)
    requires forall t, u :: 0 <= t < u < |pairs| ==> pairs[t].0 != pairs[u].0
    ensures forall t :: 0 <= t < |pairs| ==>
      (pairs[t].0 in Record(att, pairs) && Record(att, pairs)[pairs[t].0] == Some(pairs[t].1))
  {
    forall t | 0 <= t < |pairs|
      ensures pairs[t].0 in Record(att, pairs) && Record(att, pairs)[pairs[t].0] == Some(pairs[t].1)
    {
      RecordLast(att, pairs, t);
    }
  }

  /** One subset: for each product tuple in turn, record it and scan its
      orderings; stop at the first scan that does not end without a match. */
  function TrySubset(countries: seq<string>, tuples: seq<seq<string>>, att: Attempts,
                     hash: string -> string, target: string): (r: (Scan, Attempts))
    ensures r.0.Matched? ==> r.0.pairs != [] && hash(HashInput(r.0.pairs)) == target
    decreases |tuples|
  {
    if tuples == [] then (NoMatch, att)
    else
      var pairs := Zip(countries, tuples[0]);
      var att' := Record(att, pairs);
      var s := FirstMatch(Permutations(pairs), hash, target);
      if !s.NoMatch? then (s, att') else TrySubset(countries, tuples[1..], att', hash, target)
  }

  /** How the whole search ends, with the position of the subset it stopped in. */
  datatype Outcome = Found(pairs: seq<Pair>, subset: nat) | Exhausted | TimedOut(subset: nat) | Raised(subset: nat)

  /** The search over subsets from position `j` on, starting from attempts `att`. */
  function Search(vs: seq<Variant>, subsets: seq<seq<nat>>, j: nat, att: Attempts,
                  timedOut: nat -> bool, hash: string -> string, target: string): (r: (Outcome, Attempts))
    requires j <= |subsets| && Below(subsets, |vs|)
    ensures r.0.Found? ==> r.0.pairs != [] && hash(HashInput(r.0.pairs)) == target
    decreases |subsets| - j
  {
    if j == |subsets| then (Exhausted, att)
    else if timedOut(j) then (TimedOut(j), att)
    else
      var r := TrySubset(Countries(vs, subsets[j]), Product(CapitalLists(vs, subsets[j])), att, hash, target);
      match r.0
      case Matched(ps) => (Found(ps, j), r.1)
      case Unpacking => (Raised(j), r.1)
      case NoMatch => Search(vs, subsets, j + 1, r.1, timedOut, hash, target)
  }

  /** One step of the search, once subset `j` has been scanned. */
  lemma SearchStep(vs: seq<Variant>, subsets: seq<seq<nat>>, j: nat, att: Attempts,
                   timedOut: nat -> bool, hash: string -> string, target: string, s: Scan, att': Attempts)
    requires j < |subsets| && Below(subsets, |vs|) && !timedOut(j)
    requires (s, att') == TrySubset(Countries(vs, subsets[j]), Product(CapitalLists(vs, subsets[j])), att, hash, target)
    ensures s.Matched? ==> Search(vs, subsets, j, att, timedOut, hash, target) == (Found(s.pairs, j), att')
    ensures s.Unpacking? ==> Search(vs, subsets, j, att, timedOut, hash, target) == (Raised(j), att')
    ensures s.NoMatch? ==>
      Search(vs, subsets, j, att, timedOut, hash, target) == Search(vs, subsets, j + 1, att', timedOut, hash, target)
  {
  }

  function RowCountries(rows: seq<AnswerRow>): set<string>
  {
    set r | r in rows :: r.country
  }

  /** The attempts before the search: every country of the rows, and only
      those, with no capital tried yet. */
  function InitialAttempts(rows: seq<AnswerRow>): (r: Attempts)
    ensures forall i :: 0 <= i < |rows| ==> rows[i].country in r && r[rows[i].country] == None
    ensures forall c :: c in r ==> exists i :: 0 <= i < |rows| && rows[i].country == c
  {
    map c | c in RowCountries(rows) :: None
  }

  /** The key order of `last_attempts`: the rows' countries, each where it
      first occurs, as the dict comprehension inserts them. The search only
      assigns to keys already present, so this order never changes. */
  function AttemptsOrder(rows: seq<AnswerRow>): (r: seq<string>)
    ensures Distinct(r)
    ensures forall c :: c in r <==> c in RowCountries(rows)
  {
    var countries := seq(|rows|, i requires 0 <= i < |rows| => rows[i].country);
    assert forall c :: c in countries <==> c in RowCountries(rows) by {
      forall c | c in RowCountries(rows)
        ensures c in countries
      {
        var r :| r in rows && r.country == c;
        var i :| 0 <= i < |rows| && rows[i] == r;
        assert countries[i] == c;
      }
    }
    FirstSeen(countries)
  }

  /** The search proper, once the rows are non-empty and k is not negative. */
  function Run(rows: seq<AnswerRow>, k: nat, timedOut: nat -> bool, hash: string -> string, target: string): (Outcome, Attempts)
  {
    var vs := Variants(rows);
    Search(vs, Combinations(|vs|, k), 0, InitialAttempts(rows), timedOut, hash, target)
  }

  /** What the caller sees of an outcome. An error raised inside the search
      is caught and reported as the empty list. */
  function Visible(o: Outcome): Guess
  {
    match o
    case Found(ps, _) => Pairs(ps)
    case Exhausted => Pairs([])
    case TimedOut(_) => Timeout
    case Raised(_) => Pairs([])
  }

  /** The pair (validation set, last_attempts) `find_validation_set` returns.
      A negative k makes the subset generator fail before it yields anything
      (unbounded recursion or a bad index), which is caught and reported as
      the empty list with every attempt still None. */
  function Guessed(rows: seq<AnswerRow>, k: int, timedOut: nat -> bool, hash: string -> string, target: string): (r: (Guess, Attempts))
    ensures r.0.Pairs? && r.0.pairs != [] ==> hash(HashInput(r.0.pairs)) == target
  {
    if rows == [] then (Pairs([]), map[])
    else if k < 0 then (Pairs([]), InitialAttempts(rows))
    else
      var r := Run(rows, k, timedOut, hash, target);
      (Visible(r.0), r.1)
  }

  /** The loop that records each country of a tuple with its chosen capital. */
  method RecordTuple(att: Attempts, pairs: seq<Pair>) returns (r: Attempts)
    ensures r == Record(att, pairs)
  {
    r := att;
    var t := 0;
    while t < |pairs|
      invariant t <= |pairs|
      invariant Record(att, pairs) == Record(r, pairs[t..])
    {
      assert pairs[t..][1..] == pairs[t + 1..];
      r := r[pairs[t].0 := Some(pairs[t].1)];
      t := t + 1;
    }
  }

  /** The loop over `itertools.permutations(pairs)`, stopping at the first
      ordering whose hash is the target. */
  method ScanOrderings(perms: seq<seq<Pair>>, hash: string -> string, target: string) returns (s: Scan)
    ensures s == FirstMatch(perms, hash, target)
  {
    var p := 0;
    while p < |perms|
      invariant p <= |perms|
      invariant FirstMatch(perms, hash, target) == FirstMatch(perms[p..], hash, target)
    {
      assert perms[p..][1..] == perms[p + 1..];
      if perms[p] == [] {
        // the empty ordering cannot be unpacked into countries and capitals
        return Unpacking;
      }
      if hash(HashInput(perms[p])) == target {
        return Matched(perms[p]);
      }
      p := p + 1;
    }
    return NoMatch;
  }

  /** The loop over `itertools.product(*capitals_lists)` for one subset. */
  method SearchSubset(countries: seq<string>, tuples: seq<seq<string>>, att: Attempts,
                      hash: string -> string, target: string)
    returns (s: Scan, lastAttempts: Attempts)
    ensures (s, lastAttempts) == TrySubset(countries, tuples, att, hash, target)
  {
    lastAttempts := att;
    var c := 0;
    while c < |tuples|
      invariant c <= |tuples|
      invariant TrySubset(countries, tuples, att, hash, target)
             == TrySubset(countries, tuples[c..], lastAttempts, hash, target)
    {
      assert tuples[c..][1..] == tuples[c + 1..];
      var pairs := Zip(countries, tuples[c]);
      lastAttempts := RecordTuple(lastAttempts, pairs);
      s := ScanOrderings(Permutations(pairs), hash, target);
      if !s.NoMatch? {
        return;
      }
      c := c + 1;
    }
    return NoMatch, lastAttempts;
  }

  /** The loop over the subsets yielded by `generate_combinations`, each
      preceded by the timeout check. */
  method SearchSubsets(variants: seq<Variant>, ghost subsets: seq<seq<nat>>, items: seq<Yielded>, att: Attempts,
                       timedOut: nat -> bool, hash: string -> string, target: string)
    returns (result: Guess, lastAttempts: Attempts)
    requires Below(subsets, |variants|)
    requires |items| == |subsets| && forall j :: 0 <= j < |subsets| ==> Yields(variants, subsets[j], items[j])
    ensures var r := Search(variants, subsets, 0, att, timedOut, hash, target);
      result == Visible(r.0) && lastAttempts == r.1
  {
    hide TrySubset;
    lastAttempts := att;
    ghost var outcome := Search(variants, subsets, 0, att, timedOut, hash, target);
    var j := 0;
    while j < |items|
      invariant j <= |subsets|
      invariant Search(variants, subsets, j, lastAttempts, timedOut, hash, target) == outcome
    {
      if timedOut(j) {
        return Timeout, lastAttempts;
      }
      ghost var before := lastAttempts;
      var s;
      s, lastAttempts := SearchSubset(items[j].0, Product(items[j].1), lastAttempts, hash, target);
      SearchStep(variants, subsets, j, before, timedOut, hash, target, s, lastAttempts);
      match s {
        case Matched(ps) =>
          return Pairs(ps), lastAttempts;
        case Unpacking =>
          // the error is caught by the handler, which returns []
          return Pairs([]), lastAttempts;
        case NoMatch =>
      }
      j := j + 1;
    }
    return Pairs([]), lastAttempts;
  }

  /** `find_validation_set`. */
  method FindValidationSet(rows: seq<AnswerRow>, validationSize: int, timedOut: nat -> bool,
                           hash: string -> string, target: string)
    returns (result: Guess, lastAttempts: Attempts)
    ensures (result, lastAttempts) == Guessed(rows, validationSize, timedOut, hash, target)
  {
    if rows == [] {
      return Pairs([]), map[];
    }
    lastAttempts := InitialAttempts(rows);
    if validationSize < 0 {
      return Pairs([]), lastAttempts;
    }
    var variants := GetCountryVariants(rows);
    var items := Generate(variants, |variants|, validationSize);
    ghost var subsets := Combinations(|variants|, validationSize);
    GenerateYields(variants, |variants|, validationSize);
    result, lastAttempts := SearchSubsets(variants, subsets, items, lastAttempts, timedOut, hash, target);
  }
}
