/** What the validation-set search promises, stated against the
    specification functions that `FindValidationSet` is proved to compute:
    soundness and completeness of the returned list relative to `hash`,
    the degenerate cases, and what `last_attempts` can hold. */
module SearchProperties {
  import opened Text
  import opened Itertools
  import opened AnswerGuesser
  import opened DictOrder

  /** `perm` is an ordering of the pairs chosen for index subset `idx` with
      one candidate per country from `tuple`, and it hashes to `target`. */
  ghost predicate IsPreimage(vs: seq<Variant>, k: nat, idx: seq<nat>, tuple: seq<string>, perm: seq<Pair>,
                             hash: string -> string, target: string)
  {
    IsCombination(idx, |vs|, k) && |tuple| == k &&
    (forall t :: 0 <= t < k ==> tuple[t] in vs[idx[t]].capitals) &&
    multiset(perm) == multiset(Zip(Countries(vs, idx), tuple)) &&
    hash(HashInput(perm)) == target
  }

  ghost predicate HasPreimage(vs: seq<Variant>, k: nat, hash: string -> string, target: string)
  {
    exists idx, tuple, perm :: IsPreimage(vs, k, idx, tuple, perm, hash, target)
  }

  /** `ps` is an ordering of the pairs of subset `idx` for one tuple of its
      candidate product. */
  ghost predicate FromSubset(vs: seq<Variant>, idx: seq<nat>, ps: seq<Pair>)
    requires forall t :: 0 <= t < |idx| ==> idx[t] < |vs|
  {
    exists tuple :: tuple in Product(CapitalLists(vs, idx)) && ps in Permutations(Zip(Countries(vs, idx), tuple))
  }

  /** `capital` is a candidate of `country` at some position of a subset
      among the first `upto`. */
  ghost predicate OfferedIn(country: string, capital: string, vs: seq<Variant>, subsets: seq<seq<nat>>, upto: nat)
    requires Below(subsets, |vs|) && upto <= |subsets|
  {
    exists x, t :: 0 <= x < upto && 0 <= t < |subsets[x]| &&
      vs[subsets[x][t]].country == country && capital in vs[subsets[x][t]].capitals
  }

  /** Every attempt recorded is a candidate of its country at some position
      of a subset among the first `upto`. */
  ghost predicate Offered(att: Attempts, vs: seq<Variant>, subsets: seq<seq<nat>>, upto: nat)
    requires Below(subsets, |vs|) && upto <= |subsets|
  {
    forall c :: c in att && att[c].Some? ==> OfferedIn(c, att[c].value, vs, subsets, upto)
  }

  /** How many subsets the search began before it stopped. */
  function Tried(o: Outcome, total: nat): nat
  {
    match o
    case Found(_, s) => s + 1
    case Raised(s) => s + 1
    case TimedOut(s) => s
    case Exhausted => total
  }

  // ----------------------------------------------------------- one subset

  lemma NoEmptyOrdering(pairs: seq<Pair>)
    requires pairs != []
    ensures forall p :: p in Permutations(pairs) ==> p != []
    ensures [] !in Permutations(pairs)
  {
    forall p | p in Permutations(pairs)
      ensures p != []
    {
      PermutationsSound(pairs, p);
      assert |multiset(p)| == |multiset(pairs)| > 0;
    }
  }

  lemma {:induction false} TrySubsetSound(countries: seq<string>, tuples: seq<seq<string>>, att: Attempts,
                                          hash: string -> string, target: string)
    ensures var s := TrySubset(countries, tuples, att, hash, target).0;
      s.Matched? ==> exists i :: 0 <= i < |tuples| && s.pairs in Permutations(Zip(countries, tuples[i]))
    ensures var s := TrySubset(countries, tuples, att, hash, target).0;
      s.Unpacking? ==> exists i :: 0 <= i < |tuples| && Zip(countries, tuples[i]) == []
    decreases |tuples|
  {
    if tuples != [] {
      var pairs := Zip(countries, tuples[0]);
      var s := FirstMatch(Permutations(pairs), hash, target);
      if s.NoMatch? {
        TrySubsetSound(countries, tuples[1..], Record(att, pairs), hash, target);
        var s' := TrySubset(countries, tuples[1..], Record(att, pairs), hash, target).0;
        if s'.Matched? {
          var i :| 0 <= i < |tuples[1..]| && s'.pairs in Permutations(Zip(countries, tuples[1..][i]));
          assert tuples[1..][i] == tuples[i + 1];
        }
        if s'.Unpacking? {
          var i :| 0 <= i < |tuples[1..]| && Zip(countries, tuples[1..][i]) == [];
          assert tuples[1..][i] == tuples[i + 1];
        }
      } else if s.Unpacking? && pairs != [] {
        NoEmptyOrdering(pairs);
      }
    }
  }

  /** When an ordering of tuple `i` hashes to the target and no tuple gives
      empty pairs, the scan matches, at tuple `i` or an earlier one. */
  lemma {:induction false} TrySubsetComplete(countries: seq<string>, tuples: seq<seq<string>>, att: Attempts,
                                             hash: string -> string, target: string, i: nat, perm: seq<Pair>)
    requires i < |tuples|
    requires forall x :: 0 <= x < |tuples| ==> Zip(countries, tuples[x]) != []
    requires perm in Permutations(Zip(countries, tuples[i])) && hash(HashInput(perm)) == target
    ensures var s := TrySubset(countries, tuples, att, hash, target).0;
      s.Matched? && exists i' :: 0 <= i' <= i && s.pairs in Permutations(Zip(countries, tuples[i']))
    decreases i
  {
    var pairs := Zip(countries, tuples[0]);
    var att' := Record(att, pairs);
    var s := FirstMatch(Permutations(pairs), hash, target);
    assert TrySubset(countries, tuples, att, hash, target) ==
      if !s.NoMatch? then (s, att') else TrySubset(countries, tuples[1..], att', hash, target);
    NoEmptyOrdering(pairs);
    hide TrySubset, FirstMatch, Permutations, Record;
    if i == 0 {
      assert perm in Permutations(pairs);
      assert s.Matched? && s.pairs in Permutations(Zip(countries, tuples[0]));
    } else if s.NoMatch? {
      var rest := tuples[1..];
      assert forall x :: 0 <= x < |rest| ==> rest[x] == tuples[x + 1];
      assert rest[i - 1] == tuples[i];
      TrySubsetComplete(countries, rest, att', hash, target, i - 1, perm);
      var s' := TrySubset(countries, rest, att', hash, target).0;
      var i'' :| 0 <= i'' <= i - 1 && s'.pairs in Permutations(Zip(countries, rest[i'']));
      assert s'.pairs in Permutations(Zip(countries, tuples[i'' + 1]));
    } else {
      assert s.Matched? && s.pairs in Permutations(Zip(countries, tuples[0]));
    }
  }

  /** When no ordering of the tuples before `i` hashes to the target and one
      of tuple `i` does, the scan reports the first hashing ordering of
      tuple `i`. */
  lemma {:induction false} TrySubsetFirst(countries: seq<string>, tuples: seq<seq<string>>, att: Attempts,
                                          hash: string -> string, target: string, i: nat)
    requires i < |tuples|
    requires forall x :: 0 <= x <= i ==> Zip(countries, tuples[x]) != []
    requires forall x, q :: 0 <= x < i && q in Permutations(Zip(countries, tuples[x])) ==> hash(HashInput(q)) != target
    requires exists q :: q in Permutations(Zip(countries, tuples[i])) && hash(HashInput(q)) == target
    ensures var s := FirstMatch(Permutations(Zip(countries, tuples[i])), hash, target);
      s.Matched? && TrySubset(countries, tuples, att, hash, target).0 == s
    decreases i
  {
    var pairs := Zip(countries, tuples[0]);
    var att' := Record(att, pairs);
    var s := FirstMatch(Permutations(pairs), hash, target);
    assert TrySubset(countries, tuples, att, hash, target) ==
      if !s.NoMatch? then (s, att') else TrySubset(countries, tuples[1..], att', hash, target);
    NoEmptyOrdering(pairs);
    hide TrySubset, FirstMatch, Permutations, Record;
    if i == 0 {
      assert s.Matched?;
    } else {
      assert s.NoMatch?;
      var rest := tuples[1..];
      assert forall x :: 0 <= x < |rest| ==> rest[x] == tuples[x + 1];
      TrySubsetFirst(countries, rest, att', hash, target, i - 1);
    }
  }

  lemma OfferedMonotone(att: Attempts, vs: seq<Variant>, subsets: seq<seq<nat>>, upto: nat, upto': nat)
    requires Below(subsets, |vs|) && upto <= upto' <= |subsets|
    requires Offered(att, vs, subsets, upto)
    ensures Offered(att, vs, subsets, upto')
  {
  }

  /** Recording a product tuple of subset `x` keeps the keys and records
      only candidates offered in subsets up to `x`. */
  lemma RecordOffered(att: Attempts, vs: seq<Variant>, subsets: seq<seq<nat>>, x: nat, tuple: seq<string>)
    requires Below(subsets, |vs|) && x < |subsets|
    requires tuple in Product(CapitalLists(vs, subsets[x]))
    requires forall v :: v in vs ==> v.country in att
    requires Offered(att, vs, subsets, x + 1)
    ensures Record(att, Zip(Countries(vs, subsets[x]), tuple)).Keys == att.Keys
    ensures Offered(Record(att, Zip(Countries(vs, subsets[x]), tuple)), vs, subsets, x + 1)
  {
    var idx := subsets[x];
    var pairs := Zip(Countries(vs, idx), tuple);
    ProductMember(CapitalLists(vs, idx), tuple);
    RecordFrame(att, pairs);
    var r := Record(att, pairs);
    forall p | p in pairs
      ensures p.0 in att
    {
      var t :| 0 <= t < |pairs| && pairs[t] == p;
      assert vs[idx[t]] in vs;
    }
    forall c | c in r && r[c].Some?
      ensures exists y, t :: (0 <= y < x + 1 && 0 <= t < |subsets[y]| &&
        vs[subsets[y][t]].country == c && r[c].value in vs[subsets[y][t]].capitals)
    {
      if !(c in att && r[c] == att[c]) {
        var t :| 0 <= t < |pairs| && pairs[t].0 == c && r[c] == Some(pairs[t].1);
        assert vs[subsets[x][t]].country == c && r[c].value in vs[subsets[x][t]].capitals;
      }
    }
  }

  lemma {:induction false} TrySubsetAttempts(vs: seq<Variant>, subsets: seq<seq<nat>>, x: nat,
                                             tuples: seq<seq<string>>, att: Attempts,
                                             hash: string -> string, target: string)
    requires Below(subsets, |vs|) && x < |subsets|
    requires forall tuple :: tuple in tuples ==> tuple in Product(CapitalLists(vs, subsets[x]))
    requires forall v :: v in vs ==> v.country in att
    requires Offered(att, vs, subsets, x + 1)
    ensures var r := TrySubset(Countries(vs, subsets[x]), tuples, att, hash, target).1;
      r.Keys == att.Keys && Offered(r, vs, subsets, x + 1)
    decreases |tuples|
  {
    if tuples != [] {
      var pairs := Zip(Countries(vs, subsets[x]), tuples[0]);
      RecordOffered(att, vs, subsets, x, tuples[0]);
      assert forall tuple :: tuple in tuples[1..] ==> tuple in tuples;
      TrySubsetAttempts(vs, subsets, x, tuples[1..], Record(att, pairs), hash, target);
    }
  }

  // ----------------------------------------------------------- all subsets

  /** A returned match is an ordering of one product tuple of the subset the
      search stopped in, and it hashes to the target. */
  lemma {:induction false} SearchSound(vs: seq<Variant>, subsets: seq<seq<nat>>, j: nat, att: Attempts,
                                       timedOut: nat -> bool, hash: string -> string, target: string)
    requires j <= |subsets| && Below(subsets, |vs|)
    ensures var o := Search(vs, subsets, j, att, timedOut, hash, target).0;
      o.Found? ==> (j <= o.subset < |subsets| && o.pairs != [] && hash(HashInput(o.pairs)) == target &&
        FromSubset(vs, subsets[o.subset], o.pairs))
    decreases |subsets| - j
  {
    hide TrySubset;
    if j < |subsets| && !timedOut(j) {
      var tuples := Product(CapitalLists(vs, subsets[j]));
      var r := TrySubset(Countries(vs, subsets[j]), tuples, att, hash, target);
      SearchStep(vs, subsets, j, att, timedOut, hash, target, r.0, r.1);
      TrySubsetSound(Countries(vs, subsets[j]), tuples, att, hash, target);
      if r.0.NoMatch? {
        SearchSound(vs, subsets, j + 1, r.1, timedOut, hash, target);
      } else if r.0.Matched? {
        var i :| 0 <= i < |tuples| && r.0.pairs in Permutations(Zip(Countries(vs, subsets[j]), tuples[i]));
        assert tuples[i] in tuples;
        assert FromSubset(vs, subsets[j], r.0.pairs);
      }
    }
  }

  /** A subset whose scan hits the unpacking error is the empty subset. */
  lemma UnpackingEmpty(vs: seq<Variant>, idx: seq<nat>, att: Attempts, hash: string -> string, target: string)
    requires forall t :: 0 <= t < |idx| ==> idx[t] < |vs|
    requires TrySubset(Countries(vs, idx), Product(CapitalLists(vs, idx)), att, hash, target).0.Unpacking?
    ensures idx == []
  {
    var tuples := Product(CapitalLists(vs, idx));
    TrySubsetSound(Countries(vs, idx), tuples, att, hash, target);
    var i :| 0 <= i < |tuples| && Zip(Countries(vs, idx), tuples[i]) == [];
    ProductMember(CapitalLists(vs, idx), tuples[i]);
  }

  /** No timeout check fires for subsets j, ..., k - 1. */
  ghost predicate Quiet(timedOut: nat -> bool, j: nat, k: nat)
  {
    forall x :: j <= x < k ==> !timedOut(x)
  }

  /** A timeout is reported at the first subset whose check fires. */
  lemma {:induction false} SearchTimeout(vs: seq<Variant>, subsets: seq<seq<nat>>, j: nat, att: Attempts,
                                         timedOut: nat -> bool, hash: string -> string, target: string)
    requires j <= |subsets| && Below(subsets, |vs|)
    ensures var o := Search(vs, subsets, j, att, timedOut, hash, target).0;
      o.TimedOut? ==> j <= o.subset < |subsets| && timedOut(o.subset) && Quiet(timedOut, j, o.subset)
    decreases |subsets| - j
  {
    hide TrySubset;
    if j < |subsets| && !timedOut(j) {
      var r := TrySubset(Countries(vs, subsets[j]), Product(CapitalLists(vs, subsets[j])), att, hash, target);
      SearchStep(vs, subsets, j, att, timedOut, hash, target, r.0, r.1);
      if r.0.NoMatch? {
        SearchTimeout(vs, subsets, j + 1, r.1, timedOut, hash, target);
        var o := Search(vs, subsets, j + 1, r.1, timedOut, hash, target).0;
        if o.TimedOut? {
          assert Quiet(timedOut, j + 1, o.subset);
          assert Quiet(timedOut, j, o.subset);
        }
      }
    } else if j < |subsets| {
      assert Quiet(timedOut, j, j);
    }
  }

  /** Scanning subsets j, ..., x - 1 one after another, with no timeout
      check: whether every scan ended without a match, and the attempts
      after them. */
  ghost function Scanned(vs: seq<Variant>, subsets: seq<seq<nat>>, j: nat, x: nat, att: Attempts,
                         hash: string -> string, target: string): (bool, Attempts)
    requires j <= x <= |subsets| && Below(subsets, |vs|)
    decreases x - j
  {
    if j == x then (true, att)
    else
      var r := TrySubset(Countries(vs, subsets[j]), Product(CapitalLists(vs, subsets[j])), att, hash, target);
      if r.0.NoMatch? then Scanned(vs, subsets, j + 1, x, r.1, hash, target) else (false, r.1)
  }

  /** With no timeout check firing before subset x and no match before it,
      the search reaches subset x with the attempts those scans left. */
  lemma {:induction false} SearchReaches(vs: seq<Variant>, subsets: seq<seq<nat>>, j: nat, x: nat, att: Attempts,
                                         timedOut: nat -> bool, hash: string -> string, target: string)
    requires j <= x <= |subsets| && Below(subsets, |vs|)
    requires Quiet(timedOut, j, x) && Scanned(vs, subsets, j, x, att, hash, target).0
    ensures Search(vs, subsets, j, att, timedOut, hash, target) ==
      Search(vs, subsets, x, Scanned(vs, subsets, j, x, att, hash, target).1, timedOut, hash, target)
    decreases x - j
  {
    hide TrySubset;
    if j < x {
      var r := TrySubset(Countries(vs, subsets[j]), Product(CapitalLists(vs, subsets[j])), att, hash, target);
      assert r.0.NoMatch? && Scanned(vs, subsets, j, x, att, hash, target) == Scanned(vs, subsets, j + 1, x, r.1, hash, target);
      hide Search, Scanned;
      SearchStep(vs, subsets, j, att, timedOut, hash, target, r.0, r.1);
      SearchReaches(vs, subsets, j + 1, x, r.1, timedOut, hash, target);
    }
  }

  /** The search raises the unpacking error only in an empty subset. */
  lemma {:induction false} SearchRaised(vs: seq<Variant>, subsets: seq<seq<nat>>, j: nat, att: Attempts,
                                        timedOut: nat -> bool, hash: string -> string, target: string)
    requires j <= |subsets| && Below(subsets, |vs|)
    ensures var o := Search(vs, subsets, j, att, timedOut, hash, target).0;
      o.Raised? ==> j <= o.subset < |subsets| && subsets[o.subset] == []
    decreases |subsets| - j
  {
    hide TrySubset;
    if j < |subsets| && !timedOut(j) {
      var r := TrySubset(Countries(vs, subsets[j]), Product(CapitalLists(vs, subsets[j])), att, hash, target);
      SearchStep(vs, subsets, j, att, timedOut, hash, target, r.0, r.1);
      if r.0.NoMatch? {
        SearchRaised(vs, subsets, j + 1, r.1, timedOut, hash, target);
      } else if r.0.Unpacking? {
        UnpackingEmpty(vs, subsets[j], att, hash, target);
      }
    }
  }

  /** A non-empty subset whose product holds a tuple with an ordering that
      hashes to the target is matched by its scan. */
  lemma TrySubsetFinds(vs: seq<Variant>, idx: seq<nat>, att: Attempts, hash: string -> string, target: string,
                       tuple: seq<string>, perm: seq<Pair>)
    requires forall t :: 0 <= t < |idx| ==> idx[t] < |vs|
    requires idx != [] && tuple in Product(CapitalLists(vs, idx))
    requires perm in Permutations(Zip(Countries(vs, idx), tuple)) && hash(HashInput(perm)) == target
    ensures TrySubset(Countries(vs, idx), Product(CapitalLists(vs, idx)), att, hash, target).0.Matched?
  {
    var tuples := Product(CapitalLists(vs, idx));
    var countries := Countries(vs, idx);
    forall x | 0 <= x < |tuples|
      ensures Zip(countries, tuples[x]) != []
    {
      ProductMember(CapitalLists(vs, idx), tuples[x]);
    }
    var i :| 0 <= i < |tuples| && tuples[i] == tuple;
    TrySubsetComplete(countries, tuples, att, hash, target, i, perm);
  }

  /** With no timeout and non-empty subsets, an ordering that hashes to the
      target in subset `w` is found there or in an earlier subset. */
  lemma {:induction false} SearchComplete(vs: seq<Variant>, subsets: seq<seq<nat>>, j: nat, att: Attempts,
                                          timedOut: nat -> bool, hash: string -> string, target: string,
                                          w: nat, tuple: seq<string>, perm: seq<Pair>)
    requires Below(subsets, |vs|) && j <= w < |subsets|
    requires forall x :: j <= x <= w ==> !timedOut(x) && subsets[x] != []
    requires tuple in Product(CapitalLists(vs, subsets[w]))
    requires perm in Permutations(Zip(Countries(vs, subsets[w]), tuple)) && hash(HashInput(perm)) == target
    ensures var o := Search(vs, subsets, j, att, timedOut, hash, target).0;
      o.Found? && o.subset <= w
    decreases w - j
  {
    hide TrySubset;
    var r := TrySubset(Countries(vs, subsets[j]), Product(CapitalLists(vs, subsets[j])), att, hash, target);
    SearchStep(vs, subsets, j, att, timedOut, hash, target, r.0, r.1);
    if j == w {
      TrySubsetFinds(vs, subsets[j], att, hash, target, tuple, perm);
    } else if r.0.Unpacking? {
      UnpackingEmpty(vs, subsets[j], att, hash, target);
    } else if r.0.NoMatch? {
      SearchComplete(vs, subsets, j + 1, r.1, timedOut, hash, target, w, tuple, perm);
    }
  }

  /** The search keeps the keys of `last_attempts`, and every value it
      records is a candidate of that country in a subset it actually began. */
  lemma {:induction false} SearchAttempts(vs: seq<Variant>, subsets: seq<seq<nat>>, j: nat, att: Attempts,
                                          timedOut: nat -> bool, hash: string -> string, target: string)
    requires j <= |subsets| && Below(subsets, |vs|)
    requires forall v :: v in vs ==> v.country in att
    requires Offered(att, vs, subsets, j)
    ensures var r := Search(vs, subsets, j, att, timedOut, hash, target);
      r.1.Keys == att.Keys && j <= Tried(r.0, |subsets|) <= |subsets| &&
      Offered(r.1, vs, subsets, Tried(r.0, |subsets|))
    decreases |subsets| - j
  {
    hide TrySubset;
    if j < |subsets| && !timedOut(j) {
      var r := TrySubset(Countries(vs, subsets[j]), Product(CapitalLists(vs, subsets[j])), att, hash, target);
      SearchStep(vs, subsets, j, att, timedOut, hash, target, r.0, r.1);
      ScanAttempts(vs, subsets, j, att, hash, target);
      if r.0.NoMatch? {
        SearchAttempts(vs, subsets, j + 1, r.1, timedOut, hash, target);
      }
    }
  }

  /** Scanning subset j keeps the keys and records only candidates offered
      in subsets up to j. */
  lemma ScanAttempts(vs: seq<Variant>, subsets: seq<seq<nat>>, j: nat, att: Attempts,
                     hash: string -> string, target: string)
    requires j < |subsets| && Below(subsets, |vs|)
    requires forall v :: v in vs ==> v.country in att
    requires Offered(att, vs, subsets, j)
    ensures var r := TrySubset(Countries(vs, subsets[j]), Product(CapitalLists(vs, subsets[j])), att, hash, target).1;
      r.Keys == att.Keys && (forall v :: v in vs ==> v.country in r) && Offered(r, vs, subsets, j + 1)
  {
    OfferedMonotone(att, vs, subsets, j, j + 1);
    TrySubsetAttempts(vs, subsets, j, Product(CapitalLists(vs, subsets[j])), att, hash, target);
  }

  // ------------------------------------------------------- find_validation_set

  lemma VariantsOfRows(rows: seq<AnswerRow>, v: Variant)
    requires v in Variants(rows)
    ensures exists r :: r in rows && v == ParseRow(r)
  {
    SortByCountProperties(ParseRows(rows));
    assert v in multiset(ParseRows(rows));
    var i :| 0 <= i < |rows| && ParseRows(rows)[i] == v;
  }

  lemma VariantsCount(rows: seq<AnswerRow>)
    ensures |Variants(rows)| == |rows|
  {
    SortByCountProperties(ParseRows(rows));
    assert |multiset(Variants(rows))| == |multiset(ParseRows(rows))|;
  }

  /** The degenerate cases: no answers give ([], {}); a negative k gives []
      with every attempt None; k > n gives [] without hashing anything; k == 0
      gives [] (the empty ordering cannot be unpacked) unless the timeout
      check fires first; otherwise a timeout at the first check gives
      `['timeout']` with every attempt None. */
  lemma GuessedEdgeCases(rows: seq<AnswerRow>, k: int, timedOut: nat -> bool, hash: string -> string, target: string)
    ensures rows == [] ==> Guessed(rows, k, timedOut, hash, target) == (Pairs([]), map[])
    ensures rows != [] && k < 0 ==> Guessed(rows, k, timedOut, hash, target) == (Pairs([]), InitialAttempts(rows))
    ensures rows != [] && k > |rows| ==> Guessed(rows, k, timedOut, hash, target) == (Pairs([]), InitialAttempts(rows))
    ensures rows != [] && k == 0 ==>
      Guessed(rows, k, timedOut, hash, target) == (if timedOut(0) then Timeout else Pairs([]), InitialAttempts(rows))
    ensures rows != [] && 0 <= k <= |rows| && timedOut(0) ==>
      Guessed(rows, k, timedOut, hash, target) == (Timeout, InitialAttempts(rows))
  {
    if rows != [] && k >= 0 {
      var vs := Variants(rows);
      VariantsCount(rows);
      CombinationsEdges(|vs|, k);
      if k == 0 && !timedOut(0) {
        var subsets := Combinations(|vs|, k);
        assert subsets == [[]];
        var countries := Countries(vs, subsets[0]);
        var lists := CapitalLists(vs, subsets[0]);
        assert countries == [] && lists == [];
        assert Product(lists) == [[]];
        var pairs := Zip(countries, []);
        assert pairs == [];
        assert Permutations(pairs) == [[]];
        assert FirstMatch(Permutations(pairs), hash, target) == Unpacking;
        assert Record(InitialAttempts(rows), pairs) == InitialAttempts(rows);
      }
    }
  }

  /** `['timeout']` is returned only for non-empty answers and k >= 0, when
      the check before some subset fires and none of the checks before it did. */
  lemma GuessedTimeout(rows: seq<AnswerRow>, k: int, timedOut: nat -> bool, hash: string -> string, target: string)
    ensures Guessed(rows, k, timedOut, hash, target).0 == Timeout ==>
      rows != [] && k >= 0 &&
      exists x: nat :: x < |Combinations(|rows|, k)| && timedOut(x) && Quiet(timedOut, 0, x)
  {
    if rows != [] && k >= 0 {
      var vs := Variants(rows);
      VariantsCount(rows);
      var subsets := Combinations(|vs|, k);
      var att := InitialAttempts(rows);
      var o := Search(vs, subsets, 0, att, timedOut, hash, target).0;
      assert Guessed(rows, k, timedOut, hash, target).0 == Visible(o);
      SearchTimeout(vs, subsets, 0, att, timedOut, hash, target);
      if o.TimedOut? {
        assert o.subset < |subsets| && timedOut(o.subset) && Quiet(timedOut, 0, o.subset);
      }
    }
  }

  /** Conversely, when the check before subset x fires, none before it did,
      and subsets 0, ..., x - 1 are scanned without a match, the result is
      `['timeout']` with the attempts those scans left. */
  lemma GuessedTimesOut(rows: seq<AnswerRow>, k: nat, timedOut: nat -> bool, hash: string -> string,
                        target: string, x: nat)
    requires rows != [] && x < |Combinations(|rows|, k)|
    requires timedOut(x) && Quiet(timedOut, 0, x)
    requires Scanned(Variants(rows), Combinations(|rows|, k), 0, x, InitialAttempts(rows), hash, target).0
    ensures Guessed(rows, k, timedOut, hash, target) ==
      (Timeout, Scanned(Variants(rows), Combinations(|rows|, k), 0, x, InitialAttempts(rows), hash, target).1)
  {
    var vs := Variants(rows);
    SearchReaches(vs, Combinations(|vs|, k), 0, x, InitialAttempts(rows), timedOut, hash, target);
  }

  /** A match found among the k-subsets is a preimage of the target. */
  lemma FoundIsPreimage(vs: seq<Variant>, k: nat, att: Attempts, timedOut: nat -> bool,
                        hash: string -> string, target: string)
    requires Below(Combinations(|vs|, k), |vs|)
    ensures var o := Search(vs, Combinations(|vs|, k), 0, att, timedOut, hash, target).0;
      o.Found? ==> |o.pairs| == k && exists idx, tuple :: IsPreimage(vs, k, idx, tuple, o.pairs, hash, target)
  {
    var subsets := Combinations(|vs|, k);
    var o := Search(vs, subsets, 0, att, timedOut, hash, target).0;
    SearchSound(vs, subsets, 0, att, timedOut, hash, target);
    if o.Found? {
      var ps := o.pairs;
      var idx := subsets[o.subset];
      var tuple :| tuple in Product(CapitalLists(vs, idx)) && ps in Permutations(Zip(Countries(vs, idx), tuple));
      CombinationsSound(|vs|, k, idx);
      ProductMember(CapitalLists(vs, idx), tuple);
      PermutationsSound(Zip(Countries(vs, idx), tuple), ps);
      assert |ps| == |multiset(ps)| == |multiset(Zip(Countries(vs, idx), tuple))| == k;
      assert IsPreimage(vs, k, idx, tuple, ps, hash, target);
    }
  }

  /** Every pair of a preimage is a country of the answers with one of its
      candidates. */
  lemma PreimageCandidates(rows: seq<AnswerRow>, k: nat, idx: seq<nat>, tuple: seq<string>, ps: seq<Pair>,
                           hash: string -> string, target: string)
    requires IsPreimage(Variants(rows), k, idx, tuple, ps, hash, target)
    ensures forall p :: p in ps ==> exists r :: r in rows && r.country == p.0 && p.1 in Split(r.capitals, Pipe)
  {
    var vs := Variants(rows);
    forall p | p in ps
      ensures exists r :: r in rows && r.country == p.0 && p.1 in Split(r.capitals, Pipe)
    {
      assert p in multiset(Zip(Countries(vs, idx), tuple));
      var t :| 0 <= t < k && Zip(Countries(vs, idx), tuple)[t] == p;
      assert vs[idx[t]] in vs;
      VariantsOfRows(rows, vs[idx[t]]);
    }
  }

  /** A non-empty returned list has k pairs, hashes to the target, is an
      ordering of (country, capital) pairs for some k-subset of the rows with
      one candidate chosen per country, and so every capital in it is one of
      its country's candidates in the answers. */
  lemma GuessedSound(rows: seq<AnswerRow>, k: int, timedOut: nat -> bool, hash: string -> string, target: string,
                     ps: seq<Pair>)
    requires Guessed(rows, k, timedOut, hash, target).0 == Pairs(ps) && ps != []
    ensures k >= 0 && |ps| == k && hash(HashInput(ps)) == target
    ensures exists idx, tuple :: IsPreimage(Variants(rows), k, idx, tuple, ps, hash, target)
    ensures forall p :: p in ps ==> exists r :: r in rows && r.country == p.0 && p.1 in Split(r.capitals, Pipe)
  {
    var vs := Variants(rows);
    var subsets := Combinations(|vs|, k);
    var o := Search(vs, subsets, 0, InitialAttempts(rows), timedOut, hash, target).0;
    assert Guessed(rows, k, timedOut, hash, target).0 == Visible(o);
    assert o.Found? && o.pairs == ps;
    FoundIsPreimage(vs, k, InitialAttempts(rows), timedOut, hash, target);
    var idx, tuple :| IsPreimage(vs, k, idx, tuple, ps, hash, target);
    PreimageCandidates(rows, k, idx, tuple, ps, hash, target);
  }

  /** With no timeout and k > 0, the result is a list, and it is non-empty
      exactly when some k-subset, choice of candidates and ordering hashes
      to the target. */
  lemma GuessedComplete(rows: seq<AnswerRow>, k: int, timedOut: nat -> bool, hash: string -> string, target: string)
    requires rows != [] && k > 0
    requires forall x :: !timedOut(x)
    ensures Guessed(rows, k, timedOut, hash, target).0.Pairs?
    ensures Guessed(rows, k, timedOut, hash, target).0.pairs != [] <==> HasPreimage(Variants(rows), k, hash, target)
  {
    var vs := Variants(rows);
    var subsets := Combinations(|vs|, k);
    var att := InitialAttempts(rows);
    var o := Search(vs, subsets, 0, att, timedOut, hash, target).0;
    assert Guessed(rows, k, timedOut, hash, target).0 == Visible(o);
    SearchTimeout(vs, subsets, 0, att, timedOut, hash, target);
    SearchRaised(vs, subsets, 0, att, timedOut, hash, target);
    SearchSound(vs, subsets, 0, att, timedOut, hash, target);
    if o.Raised? {
      CombinationsSound(|vs|, k, subsets[o.subset]);
    }
    if o.Found? {
      GuessedSound(rows, k, timedOut, hash, target, o.pairs);
    }
    if HasPreimage(vs, k, hash, target) {
      PreimageFound(vs, k, timedOut, hash, target, att);
    }
  }

  /** With no timeout, a preimage among the k-subsets is found. */
  lemma PreimageFound(vs: seq<Variant>, k: nat, timedOut: nat -> bool, hash: string -> string, target: string,
                      att: Attempts)
    requires k > 0 && forall x :: !timedOut(x)
    requires HasPreimage(vs, k, hash, target)
    ensures Below(Combinations(|vs|, k), |vs|)
    ensures Search(vs, Combinations(|vs|, k), 0, att, timedOut, hash, target).0.Found?
  {
    var subsets := Combinations(|vs|, k);
    var idx, tuple, perm :| IsPreimage(vs, k, idx, tuple, perm, hash, target);
    CombinationsComplete(|vs|, k, idx);
    var w :| 0 <= w < |subsets| && subsets[w] == idx;
    ProductMember(CapitalLists(vs, idx), tuple);
    PermutationsComplete(Zip(Countries(vs, idx), tuple), perm);
    forall x | 0 <= x <= w
      ensures subsets[x] != []
    {
      CombinationsSound(|vs|, k, subsets[x]);
    }
    SearchComplete(vs, subsets, 0, att, timedOut, hash, target, w, tuple, perm);
  }

  /** The countries of the returned attempts, in the dict's key order, are
      `AttemptsOrder(rows)`: distinct, and exactly the keys of the attempts,
      as the table of the other countries on the quiz page needs. */
  lemma GuessedAttemptsOrder(rows: seq<AnswerRow>, k: int, timedOut: nat -> bool, hash: string -> string, target: string)
    ensures Distinct(AttemptsOrder(rows))
    ensures forall c :: c in AttemptsOrder(rows) <==> c in Guessed(rows, k, timedOut, hash, target).1
  {
    if rows != [] {
      GuessedAttempts(rows, k, timedOut, hash, target);
    }
  }

  /** `last_attempts` has exactly the answer rows' countries as keys, and a
      value is recorded for a country only if it is one of that country's
      candidates at a position of a subset the search actually began. */
  lemma GuessedAttempts(rows: seq<AnswerRow>, k: int, timedOut: nat -> bool, hash: string -> string, target: string)
    requires rows != []
    ensures Guessed(rows, k, timedOut, hash, target).1.Keys == RowCountries(rows)
    ensures k >= 0 ==>
      var vs := Variants(rows);
      var subsets := Combinations(|vs|, k);
      var r := Run(rows, k, timedOut, hash, target);
      Below(subsets, |vs|) && Tried(r.0, |subsets|) <= |subsets| && Offered(r.1, vs, subsets, Tried(r.0, |subsets|))
    ensures var att := Guessed(rows, k, timedOut, hash, target).1;
      forall c :: c in att && att[c].Some? ==>
        exists r :: r in rows && r.country == c && att[c].value in Split(r.capitals, Pipe)
  {
    if k >= 0 {
      var vs := Variants(rows);
      var subsets := Combinations(|vs|, k);
      var init := InitialAttempts(rows);
      forall v | v in vs
        ensures v.country in init
      {
        VariantsOfRows(rows, v);
      }
      SearchAttempts(vs, subsets, 0, init, timedOut, hash, target);
      var r := Run(rows, k, timedOut, hash, target);
      forall c | c in r.1 && r.1[c].Some?
        ensures exists row :: row in rows && row.country == c && r.1[c].value in Split(row.capitals, Pipe)
      {
        var x, t :| 0 <= x < Tried(r.0, |subsets|) && 0 <= t < |subsets[x]| &&
          vs[subsets[x][t]].country == c && r.1[c].value in vs[subsets[x][t]].capitals;
        assert vs[subsets[x][t]] in vs;
        VariantsOfRows(rows, vs[subsets[x][t]]);
      }
    }
  }
}
