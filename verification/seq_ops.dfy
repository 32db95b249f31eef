/**
 The list operations the panel code performs on a side's `minimized` array:
 `indexOf`, `push`, `splice(i, 1)` and `pop`, over immutable sequences.
 */
module SeqOps {

  /** No element occurs twice. */
  predicate NoDup<T(==)>(xs: seq<T>)
  {
    forall i, j :: 0 <= i < j < |xs| ==> xs[i] != xs[j]
  }

  lemma NoDupCons<T>(x: T, xs: seq<T>)
    ensures NoDup([x] + xs) <==> x !in xs && NoDup(xs)
  {
    if x in xs {
      var j :| 0 <= j < |xs| && xs[j] == x;
      assert ([x] + xs)[0] == ([x] + xs)[j + 1];
    } else if NoDup([x] + xs) {
      forall i, j | 0 <= i < j < |xs|
        ensures xs[i] != xs[j]
      {
        assert ([x] + xs)[i + 1] == xs[i] && ([x] + xs)[j + 1] == xs[j];
      }
    }
  }

  /** `xs` with every occurrence of `x` dropped, the others in their original order. */
  function Without<T(==,!new)>(xs: seq<T>, x: T): (r: seq<T>)
    ensures forall y :: y in r <==> y in xs && y != x
  {
    if xs == [] then []
    else (if xs[0] == x then [] else [xs[0]]) + Without(xs[1..], x)
  }

  lemma {:induction false} WithoutConcat<T(!new)>(a: seq<T>, b: seq<T>, x: T)
    ensures Without(a + b, x) == Without(a, x) + Without(b, x)
  {
    if a == [] {
      assert a + b == b;
    } else {
      assert (a + b)[1..] == a[1..] + b;
      WithoutConcat(a[1..], b, x);
    }
  }

  /** Position of the first occurrence of `x`, or -1 when there is none (`Array.indexOf`). */
  function IndexOf<T(==)>(xs: seq<T>, x: T): (r: int)
    ensures -1 <= r < |xs|
    ensures r == -1 <==> x !in xs
    ensures 0 <= r ==> xs[r] == x && x !in xs[..r]
  {
    if xs == [] then -1
    else if xs[0] == x then 0
    else
      var i := IndexOf(xs[1..], x);
      if i == -1 then -1
      else
        assert xs[..i + 1] == [xs[0]] + xs[1..][..i];
        i + 1
  }

  lemma IndexOfDistinct<T>(xs: seq<T>, k: int)
    requires NoDup(xs) && 0 <= k < |xs|
    ensures IndexOf(xs, xs[k]) == k
  {
  }

  /** `splice(i, 1)`: remove the element at position `i`. */
  function RemoveAt<T>(xs: seq<T>, i: nat): (r: seq<T>)
    requires i < |xs|
    ensures |r| == |xs| - 1
    ensures forall j :: 0 <= j < |r| ==> r[j] == (if j < i then xs[j] else xs[j + 1])
  {
    xs[..i] + xs[i + 1..]
  }

  lemma RemoveAtMembers<T(!new)>(xs: seq<T>, i: nat)
    requires i < |xs|
    ensures forall y :: y != xs[i] ==> (y in RemoveAt(xs, i) <==> y in xs)
  {
    var r := RemoveAt(xs, i);
    forall y | y != xs[i] && y in xs
      ensures y in r
    {
      var j :| 0 <= j < |xs| && xs[j] == y;
      assert r[if j < i then j else j - 1] == y;
    }
  }

  lemma RemoveAtNoDup<T>(xs: seq<T>, i: nat)
    requires i < |xs|
    ensures NoDup(xs) ==> xs[i] !in RemoveAt(xs, i) && NoDup(RemoveAt(xs, i))
  {
  }

  lemma RemoveAtWithout<T(!new)>(xs: seq<T>, i: nat)
    requires i < |xs|
    ensures Without(RemoveAt(xs, i), xs[i]) == Without(xs, xs[i])
  {
    var x := xs[i];
    assert xs == xs[..i] + ([x] + xs[i + 1..]);
    WithoutConcat(xs[..i], [x] + xs[i + 1..], x);
    WithoutConcat([x], xs[i + 1..], x);
    WithoutConcat(xs[..i], xs[i + 1..], x);
  }

  /**
   One click on a panel: append `x` when absent, otherwise splice out its
   first occurrence.
   */
  function Toggle<T(==,!new)>(xs: seq<T>, x: T): (r: seq<T>)
    ensures x !in xs ==> r == xs + [x]
    ensures x in xs ==> |r| == |xs| - 1
    ensures NoDup(xs) ==> (x in r <==> x !in xs)
    ensures forall y :: y != x ==> (y in r <==> y in xs)
    ensures NoDup(xs) ==> NoDup(r)
    ensures Without(r, x) == Without(xs, x)
  {
    var i := IndexOf(xs, x);
    if i == -1 then
      WithoutConcat(xs, [x], x);
      xs + [x]
    else
      RemoveAtMembers(xs, i);
      RemoveAtNoDup(xs, i);
      RemoveAtWithout(xs, i);
      RemoveAt(xs, i)
  }

  /** `Array.pop`: drop the last element; an empty list stays empty. */
  function Pop<T>(xs: seq<T>): (r: seq<T>)
    ensures |xs| == 0 ==> r == xs
    ensures |xs| > 0 ==> r + [xs[|xs| - 1]] == xs
  {
    if |xs| == 0 then xs else xs[..|xs| - 1]
  }
}
