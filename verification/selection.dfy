/**
 * First-match selection over a list: the value a partial function gives for
 * the first element, in list order, for which it gives one. Tag selection is
 * this with the tag-name parser as the function; the facts about it are
 * proved here once, for every such function.
 */
module Selection {
  import opened Wrappers

  function FirstSome<T, U>(xs: seq<T>, f: T -> Option<U>): (r: Option<U>)
    ensures r.None? <==> forall i :: 0 <= i < |xs| ==> f(xs[i]).None?
    ensures r.Some? ==> exists k :: 0 <= k < |xs| && f(xs[k]) == r
                                    && forall j :: 0 <= j < k ==> f(xs[j]).None?
  {
    if |xs| == 0 then None
    else if f(xs[0]).Some? then f(xs[0])
    else
      var rest := xs[1..];
      var r := FirstSome(rest, f);
      assert forall i :: 0 <= i < |rest| ==> rest[i] == xs[i + 1];
      r
  }

  /** Elements after one that yields a value are never consulted. */
  lemma {:induction false} FirstSomeAppend<T, U>(a: seq<T>, b: seq<T>, f: T -> Option<U>)
    ensures FirstSome(a + b, f) == if FirstSome(a, f).Some? then FirstSome(a, f) else FirstSome(b, f)
  {
    if |a| > 0 {
      assert (a + b)[0] == a[0];
      assert (a + b)[1..] == a[1..] + b;
      FirstSomeAppend(a[1..], b, f);
    } else {
      assert a + b == b;
    }
  }

  /** A first element that yields nothing is passed over. */
  lemma FirstSomeTail<T, U>(xs: seq<T>, f: T -> Option<U>)
    requires |xs| > 0 && f(xs[0]).None?
    ensures FirstSome(xs, f) == FirstSome(xs[1..], f)
  {
  }

  /** Removing an element that yields nothing leaves the selection unchanged. */
  lemma FirstSomeSkips<T, U>(xs: seq<T>, i: nat, f: T -> Option<U>)
    requires i < |xs| && f(xs[i]).None?
    ensures FirstSome(xs[..i] + xs[i + 1..], f) == FirstSome(xs, f)
  {
    var pre, rest := xs[..i], xs[i + 1..];
    var mid := [xs[i]] + rest;
    assert xs == pre + mid;
    FirstSomeAppend(pre, mid, f);
    assert mid[0] == xs[i] && mid[1..] == rest;
    FirstSomeTail(mid, f);
    FirstSomeAppend(pre, rest, f);
  }

  /** `r` is `xs` with some elements left out and the rest in their original order. */
  predicate IsSubsequence<T(==)>(r: seq<T>, xs: seq<T>)
    decreases |xs|
  {
    if |r| == 0 then true
    else if |xs| == 0 then false
    else if r[0] == xs[0] then IsSubsequence(r[1..], xs[1..])
    else IsSubsequence(r, xs[1..])
  }

  /**
   * The elements that yield a value, in their original order: every
   * occurrence of such an element is kept and every other one dropped.
   */
  function Keep<T(==,!new), U>(xs: seq<T>, f: T -> Option<U>): (r: seq<T>)
    ensures forall i :: 0 <= i < |r| ==> f(r[i]).Some?
    ensures forall x :: x in r <==> x in xs && f(x).Some?
    ensures forall x :: multiset(r)[x] == if f(x).Some? then multiset(xs)[x] else 0
    ensures IsSubsequence(r, xs)
  {
    if |xs| == 0 then []
    else
      var rest := Keep(xs[1..], f);
      assert xs == [xs[0]] + xs[1..];
      if f(xs[0]).Some? then
        var r := [xs[0]] + rest;
        assert r[1..] == rest;
        r
      else rest
  }

  /** Dropping every element that yields nothing leaves the selection unchanged. */
  lemma {:induction false} FirstSomeOfKeep<T(!new), U>(xs: seq<T>, f: T -> Option<U>)
    ensures FirstSome(Keep(xs, f), f) == FirstSome(xs, f)
  {
    if |xs| > 0 {
      FirstSomeOfKeep(xs[1..], f);
      if f(xs[0]).Some? {
        assert ([xs[0]] + Keep(xs[1..], f))[0] == xs[0];
      }
    }
  }
}
