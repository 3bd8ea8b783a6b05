/**
  Sequence helpers shared by the record list: an order-preserving filter
  (the model of `Array.prototype.filter`), the subsequence relation it
  establishes, and substring search (the model of `String.prototype.indexOf`).
 */
module SeqOps {

  /** Keeps, in order, exactly the elements of `s` that satisfy `p`. */
  function Keep<T(!new)>(s: seq<T>, p: T -> bool): (r: seq<T>)
    ensures |r| <= |s|
    ensures forall x :: x in r <==> x in s && p(x)
    ensures forall i :: 0 <= i < |r| ==> p(r[i])
    decreases |s|
  {
    if |s| == 0 then []
    else if p(s[0]) then [s[0]] + Keep(s[1..], p)
    else Keep(s[1..], p)
  }

  /** `a` is obtained from `b` by deleting elements: order kept, nothing invented. */
  predicate IsSubseq<T(==)>(a: seq<T>, b: seq<T>)
    decreases |b|
  {
    |a| == 0 || (|b| > 0 && ((a[0] == b[0] && IsSubseq(a[1..], b[1..])) || IsSubseq(a, b[1..])))
  }

  lemma {:induction false} KeepIsSubseq<T(!new)>(s: seq<T>, p: T -> bool)
    ensures IsSubseq(Keep(s, p), s)
    decreases |s|
  {
    if |s| > 0 {
      KeepIsSubseq(s[1..], p);
    }
  }

  /**
    Filtering keeps every passing occurrence: an element that satisfies `p`
    occurs in the result as often as in `s`, any other element not at all.
   */
  lemma {:induction false} KeepMultiset<T(!new)>(s: seq<T>, p: T -> bool)
    ensures forall x :: multiset(Keep(s, p))[x] == if p(x) then multiset(s)[x] else 0
    decreases |s|
  {
    if |s| > 0 {
      KeepMultiset(s[1..], p);
      assert s == [s[0]] + s[1..];
      assert multiset(s) == multiset{s[0]} + multiset(s[1..]);
      if p(s[0]) {
        assert multiset(Keep(s, p)) == multiset{s[0]} + multiset(Keep(s[1..], p));
      }
    }
  }

  lemma {:induction false} SubseqTransitive<T>(a: seq<T>, b: seq<T>, c: seq<T>)
    requires IsSubseq(a, b) && IsSubseq(b, c)
    ensures IsSubseq(a, c)
    decreases |c|
  {
    if |a| > 0 {
      assert |b| > 0 && |c| > 0;
      if b[0] == c[0] && IsSubseq(b[1..], c[1..]) {
        if a[0] == b[0] && IsSubseq(a[1..], b[1..]) {
          SubseqTransitive(a[1..], b[1..], c[1..]);
        } else {
          SubseqTransitive(a, b[1..], c[1..]);
        }
      } else {
        SubseqTransitive(a, b, c[1..]);
      }
    }
  }

  /** Filtering with pointwise-equal predicates gives the same result. */
  lemma {:induction false} KeepExt<T(!new)>(s: seq<T>, p: T -> bool, q: T -> bool)
    requires forall x :: x in s ==> p(x) == q(x)
    ensures Keep(s, p) == Keep(s, q)
    decreases |s|
  {
    if |s| > 0 {
      assert s[0] in s;
      KeepExt(s[1..], p, q);
    }
  }

  /** Two successive filters are one filter by the conjunction. */
  lemma {:induction false} KeepKeep<T(!new)>(s: seq<T>, p: T -> bool, q: T -> bool, pq: T -> bool)
    requires forall x :: pq(x) == (p(x) && q(x))
    ensures Keep(Keep(s, p), q) == Keep(s, pq)
    decreases |s|
  {
    if |s| > 0 {
      KeepKeep(s[1..], p, q, pq);
    }
  }

  /** A filter that rejects nothing is the identity. */
  lemma {:induction false} KeepAll<T(!new)>(s: seq<T>, p: T -> bool)
    requires forall x :: x in s ==> p(x)
    ensures Keep(s, p) == s
    decreases |s|
  {
    if |s| > 0 {
      assert s[0] in s;
      assert s == [s[0]] + s[1..];
      KeepAll(s[1..], p);
    }
  }

  /** `q` occurs in `s` starting at position `i`. */
  predicate OccursAt(s: string, q: string, i: int)
  {
    0 <= i && i + |q| <= |s| && s[i..i + |q|] == q
  }

  /** `q` is a (case-sensitive) substring of `s`. */
  ghost predicate Contains(s: string, q: string)
  {
    exists i :: OccursAt(s, q, i)
  }

  /** The first position where `q` occurs in `s`, or -1 when it does not occur. */
  function IndexOf(s: string, q: string): (r: int)
    ensures r == -1 || OccursAt(s, q, r)
    ensures r == -1 <==> !Contains(s, q)
    ensures forall i :: 0 <= i < r ==> !OccursAt(s, q, i)
    decreases |s|
  {
    if |q| > |s| then
      assert forall i :: !OccursAt(s, q, i);
      -1
    else if s[..|q|] == q then
      assert OccursAt(s, q, 0);
      0
    else
      var k := IndexOf(s[1..], q);
      assert forall i :: 1 <= i ==> (OccursAt(s, q, i) <==> OccursAt(s[1..], q, i - 1));
      assert !OccursAt(s, q, 0);
      if k == -1 then -1 else k + 1
  }
}
