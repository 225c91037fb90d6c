/** Sequence facts shared by the task operations: an order-preserving
    filter (JavaScript's `Array.prototype.filter`) and the subsequence
    relation that describes its result. */
module Seqs {

  /** `sub` is obtained from `s` by deleting elements and keeping the rest in order. */
  predicate IsSubsequence<T(==)>(sub: seq<T>, s: seq<T>)
    decreases |s|
  {
    if |sub| == 0 then true
    else if |s| == 0 then false
    else if sub[0] == s[0] then IsSubsequence(sub[1..], s[1..])
    else IsSubsequence(sub, s[1..])
  }

  /** Every element of a subsequence comes from the sequence, and it is no longer. */
  lemma {:induction false} SubsequenceBounds<T>(sub: seq<T>, s: seq<T>)
    requires IsSubsequence(sub, s)
    ensures |sub| <= |s|
    ensures forall x :: x in sub ==> x in s
    decreases |s|
  {
    if |sub| == 0 {
    } else if sub[0] == s[0] {
      SubsequenceBounds(sub[1..], s[1..]);
      forall x | x in sub ensures x in s {
        if x != sub[0] {
          assert x in sub[1..];
        }
      }
    } else {
      SubsequenceBounds(sub, s[1..]);
    }
  }

  /** Every sequence is a subsequence of itself. */
  lemma {:induction false} SubsequenceReflexive<T>(s: seq<T>)
    ensures IsSubsequence(s, s)
    decreases |s|
  {
    if |s| > 0 {
      SubsequenceReflexive(s[1..]);
    }
  }

  /** The elements of `s` that satisfy `p`, in their original order
      (the semantics of `Array.prototype.filter`). */
  function Keep<T(==,!new)>(s: seq<T>, p: T -> bool): (r: seq<T>)
    ensures |r| <= |s|
    ensures forall x :: x in r <==> x in s && p(x)
    ensures forall x :: multiset(r)[x] == if p(x) then multiset(s)[x] else 0
    ensures IsSubsequence(r, s)
    decreases |s|
  {
    if |s| == 0 then []
    else
      var rest := Keep(s[1..], p);
      assert s == [s[0]] + s[1..];
      assert multiset(s) == multiset{s[0]} + multiset(s[1..]);
      if p(s[0]) then
        assert ([s[0]] + rest)[1..] == rest;
        assert multiset([s[0]] + rest) == multiset{s[0]} + multiset(rest);
        [s[0]] + rest
      else
        assert |rest| > 0 ==> rest[0] in rest && rest[0] != s[0];
        rest
  }

  /** A filter whose predicate holds everywhere returns its input. */
  lemma {:induction false} KeepAll<T(!new)>(s: seq<T>, p: T -> bool)
    requires forall x :: x in s ==> p(x)
    ensures Keep(s, p) == s
    decreases |s|
  {
    if |s| > 0 {
      assert s[0] in s;
      forall x | x in s[1..] ensures p(x) {
        assert x in s;
      }
      KeepAll(s[1..], p);
      assert s == [s[0]] + s[1..];
    }
  }

  /** Filtering twice with the same predicate is filtering once. */
  lemma KeepIdempotent<T(!new)>(s: seq<T>, p: T -> bool)
    ensures Keep(Keep(s, p), p) == Keep(s, p)
  {
    KeepAll(Keep(s, p), p);
  }

  /** Prepending the same head, kept on the left only when kept on the right,
      preserves the subsequence relation. */
  lemma SubsequenceCons<T>(x: T, left: bool, right: bool, a: seq<T>, b: seq<T>)
    requires left ==> right
    requires IsSubsequence(a, b)
    ensures IsSubsequence((if left then [x] else []) + a, (if right then [x] else []) + b)
  {
    if left {
      assert ([x] + a)[1..] == a;
      assert ([x] + b)[1..] == b;
    } else if right {
      SubsequenceSkip(x, a, b);
      assert [] + a == a;
    } else {
      assert [] + a == a && [] + b == b;
    }
  }

  /** A subsequence of `b` is a subsequence of `b` with one more element in front. */
  lemma {:induction false} SubsequenceSkip<T>(x: T, a: seq<T>, b: seq<T>)
    requires IsSubsequence(a, b)
    ensures IsSubsequence(a, [x] + b)
    decreases |b|, 1
  {
    assert ([x] + b)[1..] == b;
    if |a| > 0 && a[0] == x {
      SubsequenceDropHead(a, b);
    }
  }

  /** Dropping the head of a non-empty subsequence keeps it a subsequence. */
  lemma {:induction false} SubsequenceDropHead<T>(a: seq<T>, b: seq<T>)
    requires |a| > 0 && IsSubsequence(a, b)
    ensures IsSubsequence(a[1..], b)
    decreases |b|, 0
  {
    assert b == [b[0]] + b[1..];
    if a[0] == b[0] {
      SubsequenceSkip(b[0], a[1..], b[1..]);
    } else {
      SubsequenceDropHead(a, b[1..]);
      SubsequenceSkip(b[0], a[1..], b[1..]);
    }
  }

  /** Filtering with a stronger predicate keeps a subsequence of what the
      weaker one keeps. */
  lemma {:induction false} KeepStronger<T(!new)>(s: seq<T>, p: T -> bool, q: T -> bool)
    requires forall x :: p(x) ==> q(x)
    ensures IsSubsequence(Keep(s, p), Keep(s, q))
    decreases |s|
  {
    if |s| > 0 {
      KeepStronger(s[1..], p, q);
      SubsequenceCons(s[0], p(s[0]), q(s[0]), Keep(s[1..], p), Keep(s[1..], q));
      assert Keep(s, p) == (if p(s[0]) then [s[0]] else []) + Keep(s[1..], p);
      assert Keep(s, q) == (if q(s[0]) then [s[0]] else []) + Keep(s[1..], q);
    }
  }
}
