/** Sequence operations the matcher relies on: the value-based removal of a
    mutable list (find the first equal element, delete it), positional
    deletion, and the order-preserving subsequence relation. */
module Lists {
  import opened Wrappers

  /** The position of the first element equal to x, or None if x does not occur. */
  function IndexOf<T(==)>(s: seq<T>, x: T): (r: Option<nat>)
    ensures r.None? <==> x !in s
    ensures r.Some? ==> r.value < |s| && s[r.value] == x
    ensures r.Some? ==> forall k :: 0 <= k < r.value ==> s[k] != x
  {
    if s == [] then None
    else if s[0] == x then Some(0)
    else match IndexOf(s[1..], x)
      case None => None
      case Some(i) => Some(i + 1)
  }

  /** s without its element at position i; everything else keeps its order. */
  function Delete<T>(s: seq<T>, i: nat): (r: seq<T>)
    requires i < |s|
    ensures |r| == |s| - 1
    ensures forall k {:trigger r[k]} :: 0 <= k < |r| ==> r[k] == if k < i then s[k] else s[k + 1]
  {
    s[..i] + s[i + 1..]
  }

  /** Deletion takes exactly one occurrence of the deleted element away. */
  lemma DeleteMultiset<T>(s: seq<T>, i: nat)
    requires i < |s|
    ensures multiset(Delete(s, i)) + multiset{s[i]} == multiset(s)
  {
    assert s == s[..i] + [s[i]] + s[i + 1..];
  }

  /** Value-based removal from a list: the first element equal to x goes.
      None stands for the error a list raises when x does not occur. */
  function Remove<T(==)>(s: seq<T>, x: T): (r: Option<seq<T>>)
    ensures r.None? <==> x !in s
    ensures r.Some? ==> |r.value| == |s| - 1 && multiset(r.value) + multiset{x} == multiset(s)
    ensures r.Some? ==> exists i :: 0 <= i < |s| && s[i] == x && x !in s[..i] && r.value == s[..i] + s[i + 1..]
  {
    match IndexOf(s, x)
    case None => None
    case Some(i) =>
      DeleteMultiset(s, i);
      assert x !in s[..i];
      Some(Delete(s, i))
  }

  /** a is obtained from b by dropping some elements, the rest in their order. */
  predicate IsSubseq<T(==)>(a: seq<T>, b: seq<T>)
    decreases |b|
  {
    a == [] || (b != [] && ((a[0] == b[0] && IsSubseq(a[1..], b[1..])) || IsSubseq(a, b[1..])))
  }

  /** Extending the larger sequence at the front keeps a subsequence one, and
      extending both by the same element does too. */
  lemma SubseqExtend<T>(x: T, a: seq<T>, b: seq<T>, keep: bool)
    requires IsSubseq(a, b)
    ensures IsSubseq((if keep then [x] else []) + a, [x] + b)
  {
    assert ([x] + b)[1..] == b;
    if keep {
      assert ([x] + a)[1..] == a;
    } else {
      assert [] + a == a;
    }
  }

  lemma {:induction false} SubseqRefl<T>(s: seq<T>)
    ensures IsSubseq(s, s)
  {
    if s != [] {
      SubseqRefl(s[1..]);
    }
  }

  lemma {:induction false} DeleteIsSubseq<T>(s: seq<T>, i: nat)
    requires i < |s|
    ensures IsSubseq(Delete(s, i), s)
  {
    if i == 0 {
      assert Delete(s, 0) == s[1..];
      SubseqRefl(s[1..]);
    } else {
      assert Delete(s, i)[1..] == Delete(s[1..], i - 1);
      DeleteIsSubseq(s[1..], i - 1);
    }
  }

  lemma {:induction false} SubseqTrans<T>(a: seq<T>, b: seq<T>, c: seq<T>)
    requires IsSubseq(a, b) && IsSubseq(b, c)
    ensures IsSubseq(a, c)
    decreases |a| + |b| + |c|
  {
    if a != [] {
      assert b != [] && c != [];
      if IsSubseq(b, c[1..]) {
        SubseqTrans(a, b, c[1..]);
      } else if a[0] == b[0] && IsSubseq(a[1..], b[1..]) {
        SubseqTrans(a[1..], b[1..], c[1..]);
      } else {
        SubseqTrans(a, b[1..], c[1..]);
      }
    }
  }

  /** A subsequence uses each element of the larger sequence at most once. */
  lemma {:induction false} SubseqMultiset<T>(a: seq<T>, b: seq<T>)
    requires IsSubseq(a, b)
    ensures multiset(a) <= multiset(b)
    decreases |b|
  {
    if a != [] {
      assert b == [b[0]] + b[1..];
      if a[0] == b[0] && IsSubseq(a[1..], b[1..]) {
        SubseqMultiset(a[1..], b[1..]);
        assert a == [a[0]] + a[1..];
      } else {
        SubseqMultiset(a, b[1..]);
      }
    }
  }

  /** An element of a sequence whose multiset is contained in another's
      occurs in the other. */
  lemma MemberOfLarger<T>(x: T, a: seq<T>, b: seq<T>)
    requires x in a && multiset(a) <= multiset(b)
    ensures x in b
  {
    assert x in multiset(a);
    assert multiset(a)[x] <= multiset(b)[x];
    assert x in multiset(b);
  }

  /** Every element of a sequence whose multiset is contained in another's
      occurs in the other. */
  lemma MembersOfLarger<T>(a: seq<T>, b: seq<T>)
    requires multiset(a) <= multiset(b)
    ensures forall k :: 0 <= k < |a| ==> a[k] in b
  {
    forall k | 0 <= k < |a|
      ensures a[k] in b
    {
      MemberOfLarger(a[k], a, b);
    }
  }

  /** Putting x in front adds one occurrence of x and none of anything else. */
  lemma CountCons<T>(x: T, s: seq<T>, a: T)
    ensures multiset([x] + s)[a] == (if x == a then 1 else 0) + multiset(s)[a]
  {
    assert multiset([x] + s) == multiset{x} + multiset(s);
  }
}
