/** The array builtins the core relies on (`find`, `findIndex`, `filter`, `slice`, `reverse`), on sequences. */
module Seqs {

  function Min(a: int, b: int): int {
    if a <= b then a else b
  }

  /** `Array.prototype.findIndex`: the index of the first element satisfying `p`, or -1. */
  function FirstIndex<T>(p: T -> bool, s: seq<T>): (k: int)
    ensures -1 <= k < |s|
    ensures k == -1 <==> forall i :: 0 <= i < |s| ==> !p(s[i])
    ensures 0 <= k ==> p(s[k]) && forall i :: 0 <= i < k ==> !p(s[i])
    decreases |s|
  {
    if |s| == 0 then -1
    else if p(s[0]) then 0
    else
      var k := FirstIndex(p, s[1..]);
      if k == -1 then -1 else k + 1
  }

  /** Appending an element only matters to `FirstIndex` when nothing before it satisfies `p`. */
  lemma FirstIndexAppend<T>(p: T -> bool, s: seq<T>, x: T)
    ensures FirstIndex(p, s + [x]) == if 0 <= FirstIndex(p, s) then FirstIndex(p, s) else if p(x) then |s| else -1
  {
    var a, b := FirstIndex(p, s), FirstIndex(p, s + [x]);
    assert forall i :: 0 <= i < |s| ==> (s + [x])[i] == s[i];
    assert (s + [x])[|s|] == x;
  }

  /** `Array.prototype.filter`: the elements satisfying `p`, in their original order. */
  function Filter<T(!new)>(p: T -> bool, s: seq<T>): (r: seq<T>)
    ensures |r| <= |s|
    ensures forall x :: x in r <==> x in s && p(x)
    decreases |s|
  {
    if |s| == 0 then []
    else (if p(s[0]) then [s[0]] else []) + Filter(p, s[1..])
  }

  /** Filtering keeps order: filtering a concatenation concatenates the filtered parts. */
  lemma {:induction false} FilterConcat<T(!new)>(p: T -> bool, a: seq<T>, b: seq<T>)
    ensures Filter(p, a + b) == Filter(p, a) + Filter(p, b)
    decreases |a|
  {
    if |a| == 0 {
      assert a + b == b;
    } else {
      assert (a + b)[1..] == a[1..] + b;
      FilterConcat(p, a[1..], b);
    }
  }


  /** `slice(0, n)`: the first `n` elements, or all of them when there are fewer. */
  function Take<T>(n: nat, s: seq<T>): (r: seq<T>)
    ensures |r| == Min(n, |s|)
    ensures r == s[..|r|]
  {
    if |s| <= n then s else s[..n]
  }

  /** Taking `n` after a prefix of at most `n` elements from `b` is taking `n` of the whole. */
  lemma TakeConcatTake<T>(n: nat, a: seq<T>, b: seq<T>)
    ensures Take(n, a + Take(n, b)) == Take(n, a + b)
  {
    var l := Take(n, a + b);
    var r := Take(n, a + Take(n, b));
    assert |r| == |l|;
    forall i | 0 <= i < |l| ensures r[i] == l[i] {
      if i >= |a| {
        assert r[i] == Take(n, b)[i - |a|];
      }
    }
  }

  /** `reverse`: the elements in the opposite order. */
  function Reverse<T>(s: seq<T>): (r: seq<T>)
    ensures |r| == |s|
    ensures forall i :: 0 <= i < |s| ==> r[i] == s[|s| - 1 - i]
    decreases |s|
  {
    if |s| == 0 then [] else Reverse(s[1..]) + [s[0]]
  }

  /** Reversing keeps every element with its multiplicity. */
  lemma {:induction false} ReversePermutes<T>(s: seq<T>)
    ensures multiset(Reverse(s)) == multiset(s)
    decreases |s|
  {
    if |s| != 0 {
      ReversePermutes(s[1..]);
      assert s == [s[0]] + s[1..];
    }
  }
}
