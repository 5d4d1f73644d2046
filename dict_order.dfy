/** Key order of a Python dict built by inserting keys one after another:
    a key keeps the position of its first insertion. */
module DictOrder {

  predicate Distinct<T(==)>(s: seq<T>)
  {
    forall i, j :: 0 <= i < j < |s| ==> s[i] != s[j]
  }

  /** The keys of a dict after inserting s[0], ..., s[k-1] in turn. */
  function FirstSeenUpTo<T(==,!new)>(s: seq<T>, k: nat): (r: seq<T>)
    requires k <= |s|
    ensures Distinct(r)
    ensures forall x :: x in r <==> exists j :: 0 <= j < k && s[j] == x
    ensures |r| <= k
  {
    if k == 0 then []
    else
      var r := FirstSeenUpTo(s, k - 1);
      if s[k - 1] in r then r else r + [s[k - 1]]
  }

  /** The distinct elements of `s`, each where it first occurs. */
  function FirstSeen<T(==,!new)>(s: seq<T>): (r: seq<T>)
    ensures Distinct(r)
    ensures forall x :: x in r <==> x in s
  {
    FirstSeenUpTo(s, |s|)
  }

  /** Keys inserted in order without repetition keep exactly that order. */
  lemma {:induction false} FirstSeenDistinct<T(!new)>(s: seq<T>, k: nat)
    requires k <= |s| && Distinct(s)
    ensures FirstSeenUpTo(s, k) == s[..k]
  {
    if k > 0 {
      FirstSeenDistinct(s, k - 1);
      assert s[k - 1] !in s[..k - 1];
      assert s[..k] == s[..k - 1] + [s[k - 1]];
    }
  }
  /** Keys inserted after the first k leave the order of those k alone. */
  lemma {:induction false} FirstSeenUpToAppend<T(!new)>(a: seq<T>, b: seq<T>, k: nat)
    requires k <= |a|
    ensures FirstSeenUpTo(a + b, k) == FirstSeenUpTo(a, k)
  {
    if k > 0 {
      FirstSeenUpToAppend(a, b, k - 1);
      assert (a + b)[k - 1] == a[k - 1];
    }
  }

  /** Inserting a run of copies of a new key adds that key once, at the end. */
  lemma {:induction false} FirstSeenRunUpTo<T(!new)>(a: seq<T>, run: seq<T>, v: T, j: nat)
    requires 1 <= j <= |run| && v !in a
    requires forall t :: 0 <= t < |run| ==> run[t] == v
    ensures FirstSeenUpTo(a + run, |a| + j) == FirstSeen(a) + [v]
  {
    assert (a + run)[|a| + j - 1] == run[j - 1] == v;
    if j == 1 {
      FirstSeenUpToAppend(a, run, |a|);
      assert v !in FirstSeen(a);
    } else {
      FirstSeenRunUpTo(a, run, v, j - 1);
      assert v in FirstSeen(a) + [v];
    }
  }

  /** A non-empty run of copies of a key not yet present adds it once, at the end. */
  lemma FirstSeenRun<T(!new)>(a: seq<T>, run: seq<T>, v: T)
    requires run != [] && v !in a
    requires forall t :: 0 <= t < |run| ==> run[t] == v
    ensures FirstSeen(a + run) == FirstSeen(a) + [v]
  {
    FirstSeenRunUpTo(a, run, v, |run|);
  }
}
