/** The two enumerations the search takes from Python's `itertools`:
    `product(*lists)` (the Cartesian product, last position varying fastest,
    like an odometer) and `permutations(xs)` (every ordering of the
    positions of `xs`, in lexicographic order of positions). */
module Itertools {

  /** `x` put in front of every sequence of `ps`, order kept. */
  function Prepend<T>(x: T, ps: seq<seq<T>>): (r: seq<seq<T>>)
    ensures |r| == |ps|
    ensures forall i :: 0 <= i < |r| ==> r[i] == [x] + ps[i]
  {
    seq(|ps|, i requires 0 <= i < |ps| => [x] + ps[i])
  }

  lemma PrependMember<T>(x: T, ps: seq<seq<T>>, t: seq<T>)
    ensures t in Prepend(x, ps) <==> t != [] && t[0] == x && t[1..] in ps
  {
    var r := Prepend(x, ps);
    if t in r {
      var i :| 0 <= i < |r| && r[i] == t;
      assert t[1..] == ps[i];
    }
    if t != [] && t[0] == x && t[1..] in ps {
      var i :| 0 <= i < |ps| && ps[i] == t[1..];
      assert r[i] == [x] + t[1..] == t;
    }
  }

  // ---------------------------------------------------------------- product

  /** `itertools.product(*lists)`: one tuple per choice of an element from
      each list; the first position varies slowest, the last fastest. */
  function Product<T>(lists: seq<seq<T>>): (r: seq<seq<T>>)
    ensures forall t :: 0 <= t < |r| ==> |r[t]| == |lists|
  {
    if lists == [] then [[]] else PrependEach(lists[0], Product(lists[1..]))
  }

  /** For each choice in turn, that choice in front of every tail. */
  function PrependEach<T>(choices: seq<T>, tails: seq<seq<T>>): (r: seq<seq<T>>)
    ensures forall t :: 0 <= t < |r| ==> r[t] != [] && r[t][0] in choices && r[t][1..] in tails
  {
    if choices == [] then [] else Prepend(choices[0], tails) + PrependEach(choices[1..], tails)
  }

  /** Product of the lengths of the lists. */
  function Radix<T>(lists: seq<seq<T>>): nat
  {
    if lists == [] then 1 else |lists[0]| * Radix(lists[1..])
  }

  lemma {:induction false} PrependEachMember<T>(choices: seq<T>, tails: seq<seq<T>>, t: seq<T>)
    ensures t in PrependEach(choices, tails) <==> t != [] && t[0] in choices && t[1..] in tails
  {
    if choices != [] {
      PrependMember(choices[0], tails, t);
      PrependEachMember(choices[1..], tails, t);
      assert choices == [choices[0]] + choices[1..];
    }
  }

  lemma {:induction false} PrependEachSize<T>(choices: seq<T>, tails: seq<seq<T>>)
    ensures |PrependEach(choices, tails)| == |choices| * |tails|
  {
    if choices != [] {
      PrependEachSize(choices[1..], tails);
      assert |choices| * |tails| == (|choices| - 1) * |tails| + |tails|;
    }
  }

  /** A tuple is produced exactly when it has one entry per list and each
      entry is taken from its own list. */
  lemma {:induction false} ProductMember<T>(lists: seq<seq<T>>, t: seq<T>)
    ensures t in Product(lists) <==>
      |t| == |lists| && forall i :: 0 <= i < |t| ==> t[i] in lists[i]
  {
    if lists == [] {
    } else {
      PrependEachMember(lists[0], Product(lists[1..]), t);
      if t != [] {
        ProductMember(lists[1..], t[1..]);
        if |t| == |lists| && forall i :: 0 <= i < |t| ==> t[i] in lists[i] {
          assert forall i :: 0 <= i < |t[1..]| ==> t[1..][i] == t[i + 1];
        }
        if t in Product(lists) {
          forall i | 0 <= i < |t|
            ensures t[i] in lists[i]
          {
            if i > 0 {
              assert t[1..][i - 1] == t[i];
            }
          }
        }
      }
    }
  }

  /** The product visits exactly as many tuples as the product of the list
      lengths (so none twice when the lists have no repeated entries). */
  lemma {:induction false} ProductSize<T>(lists: seq<seq<T>>)
    ensures |Product(lists)| == Radix(lists)
  {
    if lists != [] {
      ProductSize(lists[1..]);
      PrependEachSize(lists[0], Product(lists[1..]));
    }
  }

  /** Division by a positive number has one quotient and one remainder. */
  lemma DivUnique(i: nat, m: nat, q: nat, r: nat)
    requires m > 0 && r < m && i == q * m + r
    ensures i / m == q && i % m == r
  {
    var q', r' := i / m, i % m;
    assert i == q' * m + r';
    if q' < q {
      assert (q - q') * m == r' - r;
      MulAtLeast(q - q', m);
    } else if q < q' {
      assert (q' - q) * m == r - r';
      MulAtLeast(q' - q, m);
    }
  }

  lemma MulAtLeast(a: nat, m: nat)
    requires a >= 1
    ensures a * m >= m
  {
    assert a * m == (a - 1) * m + m;
  }

  /** One whole block of `m` less: the quotient drops by one, the remainder stays. */
  lemma DivSub(i: nat, m: nat)
    requires 0 < m <= i
    ensures (i - m) / m == i / m - 1 && (i - m) % m == i % m
  {
    var q, r := (i - m) / m, (i - m) % m;
    assert i == (q + 1) * m + r;
    DivUnique(i, m, q + 1, r);
  }

  /** Below a product `a * m`, the quotient by `m` is below `a`. */
  lemma DivBelow(i: nat, a: nat, m: nat)
    requires i < a * m
    ensures m > 0 && i / m < a
  {
    assert m != 0;
    var q := i / m;
    if q >= a {
      MulMono(a, q, m);
    }
  }

  lemma MulMono(a: nat, q: nat, m: nat)
    requires a <= q
    ensures a * m <= q * m
  {
    assert q * m == a * m + (q - a) * m;
  }

  /** Below the product of the lengths, the leading digit is a position of
      the first list and the rest is below the product of the other lengths. */
  lemma RadixSplit<T>(lists: seq<seq<T>>, i: nat)
    requires lists != [] && i < Radix(lists)
    ensures Radix(lists[1..]) > 0
    ensures i / Radix(lists[1..]) < |lists[0]| && i % Radix(lists[1..]) < Radix(lists[1..])
  {
    DivBelow(i, |lists[0]|, Radix(lists[1..]));
  }

  /** The mixed-radix digits of `i`, most significant first, where digit j
      counts in base `|lists[j]|`. */
  function Digits<T>(lists: seq<seq<T>>, i: nat): (d: seq<nat>)
    ensures |d| == |lists|
    decreases |lists|
  {
    if lists == [] then []
    else
      var m := Radix(lists[1..]);
      if m == 0 then [0] + Digits(lists[1..], 0) else [i / m] + Digits(lists[1..], i % m)
  }

  /** Below the product of the lengths, every digit is a position of its list. */
  lemma {:induction false} DigitsBound<T>(lists: seq<seq<T>>, i: nat)
    requires i < Radix(lists)
    ensures forall j :: 0 <= j < |lists| ==> Digits(lists, i)[j] < |lists[j]|
    decreases |lists|
  {
    if lists != [] {
      var m := Radix(lists[1..]);
      RadixSplit(lists, i);
      DigitsBound(lists[1..], i % m);
      var d := Digits(lists, i);
      assert d[1..] == Digits(lists[1..], i % m);
      forall j | 0 < j < |lists|
        ensures d[j] < |lists[j]|
      {
        assert d[j] == d[1..][j - 1] && lists[j] == lists[1..][j - 1];
      }
    }
  }

  /** The number the mixed-radix digits `d` stand for. */
  function Value<T>(lists: seq<seq<T>>, d: seq<nat>): nat
    requires |d| == |lists|
    decreases |lists|
  {
    if lists == [] then 0 else d[0] * Radix(lists[1..]) + Value(lists[1..], d[1..])
  }

  /** The digits of `i` stand for `i`. */
  lemma {:induction false} DigitsValue<T>(lists: seq<seq<T>>, i: nat)
    requires i < Radix(lists)
    ensures Value(lists, Digits(lists, i)) == i
    decreases |lists|
  {
    if lists != [] {
      var m := Radix(lists[1..]);
      RadixSplit(lists, i);
      var q, r := i / m, i % m;
      DigitsValue(lists[1..], r);
      var d, rest := Digits(lists, i), Digits(lists[1..], r);
      assert d == [q] + rest;
      assert d[0] == q && d[1..] == rest;
      assert Value(lists, d) == q * m + Value(lists[1..], rest);
      DivMod(i, m);
    }
  }

  lemma DivMod(i: nat, m: nat)
    requires m > 0
    ensures i == (i / m) * m + i % m
  {
  }

  /** Entry i of `PrependEach`: choice `i / |tails|` in front of tail `i % |tails|`. */
  lemma {:induction false} PrependEachAt<T>(choices: seq<T>, tails: seq<seq<T>>, i: nat)
    requires i < |choices| * |tails|
    ensures |tails| > 0 && i / |tails| < |choices|
    ensures i < |PrependEach(choices, tails)|
    ensures PrependEach(choices, tails)[i] == [choices[i / |tails|]] + tails[i % |tails|]
  {
    var m := |tails|;
    DivBelow(i, |choices|, m);
    PrependEachSize(choices, tails);
    if i < m {
      DivUnique(i, m, 0, i);
    } else {
      assert (|choices| - 1) * m == |choices| * m - m;
      PrependEachAt(choices[1..], tails, i - m);
      DivSub(i, m);
    }
  }

  /** Tuple i of the product takes from each list the entry at the matching
      mixed-radix digit of i, so the tuples come in increasing order of their
      digit vectors: the last position turns fastest, like an odometer. */
  lemma {:induction false} ProductAt<T>(lists: seq<seq<T>>, i: nat)
    requires i < |Product(lists)|
    ensures i < Radix(lists)
    ensures |Product(lists)[i]| == |lists|
    ensures forall j :: 0 <= j < |lists| ==> Digits(lists, i)[j] < |lists[j]|
    ensures forall j :: 0 <= j < |lists| ==> Product(lists)[i][j] == lists[j][Digits(lists, i)[j]]
    decreases |lists|
  {
    ProductSize(lists);
    DigitsBound(lists, i);
    if lists != [] {
      var tails := Product(lists[1..]);
      var m := Radix(lists[1..]);
      ProductSize(lists[1..]);
      PrependEachAt(lists[0], tails, i);
      ProductAt(lists[1..], i % m);
      var d := Digits(lists, i);
      assert d[0] == i / m && d[1..] == Digits(lists[1..], i % m);
      forall j | 0 <= j < |lists|
        ensures Product(lists)[i][j] == lists[j][d[j]]
      {
        if j > 0 {
          assert Product(lists)[i][j] == tails[i % m][j - 1];
          assert lists[j] == lists[1..][j - 1] && d[j] == d[1..][j - 1];
        }
      }
    }
  }

  // ----------------------------------------------------------- permutations

  /** `s` with the element at position `i` taken out. */
  function Without<T>(s: seq<T>, i: nat): (r: seq<T>)
    requires i < |s|
    ensures |r| == |s| - 1
    ensures multiset(r) == multiset(s) - multiset{s[i]}
  {
    assert s == s[..i] + [s[i]] + s[i + 1..];
    s[..i] + s[i + 1..]
  }

  /** `itertools.permutations(s)`: the element at each position in turn comes
      first, followed by every ordering of the remaining positions. */
  function Permutations<T>(s: seq<T>): (r: seq<seq<T>>)
    ensures forall t :: 0 <= t < |r| ==> |r[t]| == |s|
    decreases |s|, 1, 0
  {
    if s == [] then [[]] else Picking(s, 0)
  }

  /** The orderings whose first element is taken from position `i` or later. */
  function Picking<T>(s: seq<T>, i: nat): (r: seq<seq<T>>)
    requires i <= |s|
    ensures forall t :: 0 <= t < |r| ==> |r[t]| == |s|
    decreases |s|, 0, |s| - i
  {
    if i == |s| then []
    else Prepend(s[i], Permutations(Without(s, i))) + Picking(s, i + 1)
  }

  function Factorial(n: nat): nat
  {
    if n == 0 then 1 else n * Factorial(n - 1)
  }

  /** Every produced ordering has exactly the elements of `s`. */
  lemma {:induction false} PermutationsSound<T>(s: seq<T>, p: seq<T>)
    requires p in Permutations(s)
    ensures multiset(p) == multiset(s)
    decreases |s|, 1, 0
  {
    if s != [] {
      PickingSound(s, 0, p);
    }
  }

  lemma {:induction false} PickingSound<T>(s: seq<T>, i: nat, p: seq<T>)
    requires i <= |s|
    requires p in Picking(s, i)
    ensures multiset(p) == multiset(s)
    decreases |s|, 0, |s| - i
  {
    if i < |s| {
      var first := Prepend(s[i], Permutations(Without(s, i)));
      if p in first {
        PrependMember(s[i], Permutations(Without(s, i)), p);
        PermutationsSound(Without(s, i), p[1..]);
        assert p == [s[i]] + p[1..];
      } else {
        PickingSound(s, i + 1, p);
      }
    }
  }

  /** Every ordering of the elements of `s` is produced. */
  lemma {:induction false} PermutationsComplete<T>(s: seq<T>, p: seq<T>)
    requires multiset(p) == multiset(s)
    ensures p in Permutations(s)
    decreases |s|
  {
    if s == [] {
      assert |p| == |multiset(p)| == 0;
    } else {
      assert |p| == |multiset(p)| == |s| > 0;
      assert p[0] in multiset(s) by {
        assert p == [p[0]] + p[1..];
      }
      var i :| 0 <= i < |s| && s[i] == p[0];
      assert p == [p[0]] + p[1..];
      assert multiset(p[1..]) == multiset(Without(s, i));
      PermutationsComplete(Without(s, i), p[1..]);
      PrependMember(s[i], Permutations(Without(s, i)), p);
      PickingContains(s, 0, i, p);
    }
  }

  lemma {:induction false} PickingContains<T>(s: seq<T>, from: nat, i: nat, p: seq<T>)
    requires from <= i < |s|
    requires p in Prepend(s[i], Permutations(Without(s, i)))
    ensures p in Picking(s, from)
    decreases i - from
  {
    if from < i {
      PickingContains(s, from + 1, i, p);
    }
  }

  /** There are `|s|!` orderings, one per arrangement of positions. */
  lemma {:induction false} PermutationsSize<T>(s: seq<T>)
    ensures |Permutations(s)| == Factorial(|s|)
    decreases |s|, 1
  {
    if s != [] {
      PickingSize(s, 0);
    }
  }

  lemma {:induction false} PickingSize<T>(s: seq<T>, i: nat)
    requires i <= |s| && s != []
    ensures |Picking(s, i)| == (|s| - i) * Factorial(|s| - 1)
    decreases |s|, 0, |s| - i
  {
    if i < |s| {
      PermutationsSize(Without(s, i));
      PickingSize(s, i + 1);
      var f := Factorial(|s| - 1);
      assert (|s| - i) * f == f + (|s| - (i + 1)) * f;
    }
  }

  // ---------------------------------------------- orderings by position

  /** The positions 0, ..., n-1 in order. */
  function Positions(n: nat): (r: seq<nat>)
    ensures |r| == n
    ensures forall j :: 0 <= j < n ==> r[j] == j
  {
    seq(n, j requires 0 <= j < n => j)
  }

  /** `f` applied to every element. */
  function Map<U, T>(f: U -> T, xs: seq<U>): (r: seq<T>)
    ensures |r| == |xs|
    ensures forall j :: 0 <= j < |xs| ==> r[j] == f(xs[j])
  {
    seq(|xs|, j requires 0 <= j < |xs| => f(xs[j]))
  }

  /** `f` applied to every element of every sequence. */
  function MapEach<U, T>(f: U -> T, ps: seq<seq<U>>): (r: seq<seq<T>>)
    ensures |r| == |ps|
    ensures forall t :: 0 <= t < |ps| ==> r[t] == Map(f, ps[t])
  {
    seq(|ps|, t requires 0 <= t < |ps| => Map(f, ps[t]))
  }

  lemma WithoutMap<U, T>(f: U -> T, xs: seq<U>, i: nat)
    requires i < |xs|
    ensures Without(Map(f, xs), i) == Map(f, Without(xs, i))
  {
    var a := Without(Map(f, xs), i);
    var b := Map(f, Without(xs, i));
    forall j | 0 <= j < |a|
      ensures a[j] == b[j]
    {
      if j < i {
        assert a[j] == Map(f, xs)[j] && Without(xs, i)[j] == xs[j];
      } else {
        assert a[j] == Map(f, xs)[j + 1] && Without(xs, i)[j] == xs[j + 1];
      }
    }
  }

  lemma PrependMap<U, T>(f: U -> T, x: U, ps: seq<seq<U>>)
    ensures Prepend(f(x), MapEach(f, ps)) == MapEach(f, Prepend(x, ps))
  {
    forall t | 0 <= t < |ps|
      ensures Prepend(f(x), MapEach(f, ps))[t] == MapEach(f, Prepend(x, ps))[t]
    {
      assert Map(f, [x] + ps[t]) == [f(x)] + Map(f, ps[t]);
    }
  }

  lemma MapEachConcat<U, T>(f: U -> T, a: seq<seq<U>>, b: seq<seq<U>>)
    ensures MapEach(f, a + b) == MapEach(f, a) + MapEach(f, b)
  {
    var l := MapEach(f, a + b);
    var r := MapEach(f, a) + MapEach(f, b);
    forall t | 0 <= t < |l|
      ensures l[t] == r[t]
    {
      if t < |a| {
        assert (a + b)[t] == a[t];
      } else {
        assert (a + b)[t] == b[t - |a|];
      }
    }
  }

  /** Renaming the elements commutes with taking all orderings: the
      orderings depend only on positions, not on the values there. */
  lemma {:induction false} PermutationsMap<U, T>(f: U -> T, xs: seq<U>)
    ensures Permutations(Map(f, xs)) == MapEach(f, Permutations(xs))
    decreases |xs|, 1, 0
  {
    if xs == [] {
      assert Map(f, xs) == [];
      assert Map(f, []) == [];
    } else {
      PickingMap(f, xs, 0);
    }
  }

  lemma {:induction false} PickingMap<U, T>(f: U -> T, xs: seq<U>, i: nat)
    requires i <= |xs|
    ensures Picking(Map(f, xs), i) == MapEach(f, Picking(xs, i))
    decreases |xs|, 0, |xs| - i
  {
    if i < |xs| {
      var ys, w := Map(f, xs), Without(xs, i);
      var first, rest := Prepend(xs[i], Permutations(w)), Picking(xs, i + 1);
      assert Picking(ys, i) == Prepend(ys[i], Permutations(Without(ys, i))) + Picking(ys, i + 1);
      assert Picking(xs, i) == first + rest;
      assert ys[i] == f(xs[i]);
      WithoutMap(f, xs, i);
      PermutationsMap(f, w);
      PickingMap(f, xs, i + 1);
      PrependMap(f, xs[i], Permutations(w));
      MapEachConcat(f, first, rest);
      hide Picking, Permutations, Map, MapEach, Prepend, Without;
      calc {
        Picking(ys, i);
        Prepend(f(xs[i]), Permutations(Map(f, w))) + Picking(ys, i + 1);
        Prepend(f(xs[i]), MapEach(f, Permutations(w))) + MapEach(f, rest);
        MapEach(f, first) + MapEach(f, rest);
        MapEach(f, first + rest);
      }
    }
  }

  /** `permutations(s)` lists one ordering per arrangement of the positions
      of `s`: ordering t puts at place j the element at position
      `Permutations(Positions(|s|))[t][j]`, whatever the values are, so
      repeated values give repeated orderings. */
  lemma PermutationsByPosition<T>(s: seq<T>)
    ensures |Permutations(s)| == |Permutations(Positions(|s|))|
    ensures forall t :: 0 <= t < |Permutations(Positions(|s|))| ==>
      |Permutations(Positions(|s|))[t]| == |s| && Arranges(Permutations(Positions(|s|))[t], |s|)
    ensures forall t :: 0 <= t < |Permutations(s)| ==>
      Permutations(s)[t] == Arrange(s, Permutations(Positions(|s|))[t])
  {
    var n := |s|;
    var ps := Permutations(Positions(n));
    PositionsArranged(n);
    if s != [] {
      var f := (j: nat) => if j < n then s[j] else s[0];
      assert Map(f, Positions(n)) == s;
      PermutationsMap(f, Positions(n));
      hide Permutations, Positions;
      forall t | 0 <= t < |ps|
        ensures Permutations(s)[t] == Arrange(s, ps[t])
      {
        assert Permutations(s)[t] == Map(f, ps[t]);
      }
    }
  }

  /** Every arrangement of the positions below `n` has length `n` and only
      such positions as entries. */
  lemma PositionsArranged(n: nat)
    ensures forall t :: 0 <= t < |Permutations(Positions(n))| ==>
      |Permutations(Positions(n))[t]| == n && Arranges(Permutations(Positions(n))[t], n)
  {
    var ps := Permutations(Positions(n));
    forall t | 0 <= t < |ps|
      ensures |ps[t]| == n && Arranges(ps[t], n)
    {
      PermutationsSound(Positions(n), ps[t]);
      assert |ps[t]| == |multiset(ps[t])| == n;
      forall j | 0 <= j < n
        ensures ps[t][j] < n
      {
        assert ps[t][j] in multiset(Positions(n));
      }
    }
  }

  /** The elements of `s` at the positions `p`, in that order. */
  function Arrange<T>(s: seq<T>, p: seq<nat>): (r: seq<T>)
    requires Arranges(p, |s|)
    ensures |r| == |p|
    ensures forall j :: 0 <= j < |p| ==> r[j] == s[p[j]]
  {
    seq(|p|, j requires 0 <= j < |p| => s[p[j]])
  }

  /** Every entry of `p` is a position below `n`. */
  ghost predicate Arranges(p: seq<nat>, n: nat)
  {
    forall j :: 0 <= j < |p| ==> p[j] < n
  }

  /** Lexicographic order on sequences of numbers. */
  predicate LexLess(a: seq<nat>, b: seq<nat>)
    decreases |a|
  {
    a != [] && b != [] && (a[0] < b[0] || (a[0] == b[0] && LexLess(a[1..], b[1..])))
  }

  /** Each sequence comes lexicographically before every later one. */
  ghost predicate LexSorted(ps: seq<seq<nat>>)
  {
    forall x, y :: 0 <= x < y < |ps| ==> LexLess(ps[x], ps[y])
  }

  predicate Ascending(xs: seq<nat>)
  {
    forall a, b :: 0 <= a < b < |xs| ==> xs[a] < xs[b]
  }

  lemma {:induction false} LexIrreflexive(a: seq<nat>)
    ensures !LexLess(a, a)
    decreases |a|
  {
    if a != [] {
      LexIrreflexive(a[1..]);
    }
  }

  lemma WithoutAscending(xs: seq<nat>, i: nat)
    requires Ascending(xs) && i < |xs|
    ensures Ascending(Without(xs, i))
  {
    var w := Without(xs, i);
    forall a, b | 0 <= a < b < |w|
      ensures w[a] < w[b]
    {
      var a' := if a < i then a else a + 1;
      var b' := if b < i then b else b + 1;
      assert w[a] == xs[a'] && w[b] == xs[b'];
    }
  }

  lemma PrependLex(x: nat, ps: seq<seq<nat>>)
    requires LexSorted(ps)
    ensures LexSorted(Prepend(x, ps))
  {
    var r := Prepend(x, ps);
    forall a, b | 0 <= a < b < |r|
      ensures LexLess(r[a], r[b])
    {
      assert r[a][1..] == ps[a] && r[b][1..] == ps[b];
    }
  }

  lemma LexSortedConcat(a: seq<seq<nat>>, b: seq<seq<nat>>)
    requires LexSorted(a) && LexSorted(b)
    requires forall p, q :: p in a && q in b ==> LexLess(p, q)
    ensures LexSorted(a + b)
  {
    var c := a + b;
    forall x, y | 0 <= x < y < |c|
      ensures LexLess(c[x], c[y])
    {
      if y < |a| {
        assert c[x] == a[x] && c[y] == a[y];
      } else if x < |a| {
        assert c[x] in a && c[y] in b;
      } else {
        assert c[x] == b[x - |a|] && c[y] == b[y - |a|];
      }
    }
  }

  /** The orderings picked from position `i` on start with `xs[i]` or a
      later, larger element. */
  lemma {:induction false} PickingFirst(xs: seq<nat>, i: nat)
    requires Ascending(xs) && i < |xs|
    ensures forall p :: p in Picking(xs, i) ==> p != [] && xs[i] <= p[0]
    decreases |xs| - i
  {
    if i + 1 < |xs| {
      PickingFirst(xs, i + 1);
    }
    forall p | p in Prepend(xs[i], Permutations(Without(xs, i)))
      ensures p != [] && p[0] == xs[i]
    {
      PrependMember(xs[i], Permutations(Without(xs, i)), p);
    }
  }

  /** The orderings of an ascending list come in strictly increasing
      lexicographic order. */
  lemma {:induction false} PermutationsLex(xs: seq<nat>)
    requires Ascending(xs)
    ensures LexSorted(Permutations(xs))
    decreases |xs|, 1, 0
  {
    if xs != [] {
      PickingLex(xs, 0);
    }
  }

  lemma {:induction false} PickingLex(xs: seq<nat>, i: nat)
    requires Ascending(xs) && i <= |xs|
    ensures LexSorted(Picking(xs, i))
    decreases |xs|, 0, |xs| - i
  {
    if i < |xs| {
      var w := Without(xs, i);
      var first := Prepend(xs[i], Permutations(w));
      var rest := Picking(xs, i + 1);
      WithoutAscending(xs, i);
      PermutationsLex(w);
      PrependLex(xs[i], Permutations(w));
      PickingLex(xs, i + 1);
      if i + 1 < |xs| {
        PickingFirst(xs, i + 1);
      }
      forall p, q | p in first && q in rest
        ensures LexLess(p, q)
      {
        PrependMember(xs[i], Permutations(w), p);
      }
      LexSortedConcat(first, rest);
    }
  }

  /** The arrangements of positions come in strictly increasing
      lexicographic order, so none twice, and every arrangement of the
      positions is among them. */
  lemma PositionOrder(n: nat)
    ensures LexSorted(Permutations(Positions(n)))
    ensures forall x, y :: 0 <= x < y < |Permutations(Positions(n))| ==>
      Permutations(Positions(n))[x] != Permutations(Positions(n))[y]
    ensures forall p: seq<nat> :: multiset(p) == multiset(Positions(n)) ==> p in Permutations(Positions(n))
  {
    var ps := Permutations(Positions(n));
    PermutationsLex(Positions(n));
    forall x, y | 0 <= x < y < |ps|
      ensures ps[x] != ps[y]
    {
      LexIrreflexive(ps[x]);
    }
    forall p: seq<nat> | multiset(p) == multiset(Positions(n))
      ensures p in ps
    {
      PermutationsComplete(Positions(n), p);
    }
  }
}
