/** The array operations the site's code uses (`map`, `filter`) and the
    subsequence relation in which their results are stated. */
module Seqs {

  /** `r` is obtained from `s` by deleting elements, keeping the order. */
  ghost predicate Subseq<T>(r: seq<T>, s: seq<T>)
    decreases |s|
  {
    if r == [] then true
    else if s == [] then false
    else if r[0] == s[0] then Subseq(r[1..], s[1..])
    else Subseq(r, s[1..])
  }

  /** `s.map(f)` */
  function Map<T, U>(f: T -> U, s: seq<T>): (r: seq<U>)
    ensures |r| == |s|
    ensures forall k :: 0 <= k < |s| ==> r[k] == f(s[k])
  {
    seq(|s|, k requires 0 <= k < |s| => f(s[k]))
  }

  /** `s.filter(p)`: exactly the elements of `s` that satisfy `p`, in their order. */
  function Filter<T(!new)>(p: T -> bool, s: seq<T>): (r: seq<T>)
    ensures |r| <= |s|
    ensures forall k :: 0 <= k < |r| ==> p(r[k])
    ensures forall k :: 0 <= k < |r| ==> r[k] in s
    ensures forall k :: 0 <= k < |s| && p(s[k]) ==> s[k] in r
    ensures Subseq(r, s)
    ensures forall x {:trigger multiset(r)[x]} :: multiset(r)[x] == if p(x) then multiset(s)[x] else 0
  {
    if s == [] then []
    else if p(s[0]) then
      var rest := Filter(p, s[1..]);
      assert ([s[0]] + rest)[1..] == rest;
      assert s == [s[0]] + s[1..];
      [s[0]] + rest
    else
      assert s == [s[0]] + s[1..];
      Filter(p, s[1..])
  }

  /** A filter that every element passes keeps the whole sequence. */
  lemma {:induction false} FilterKeepsAll<T(!new)>(p: T -> bool, s: seq<T>)
    requires forall k :: 0 <= k < |s| ==> p(s[k])
    ensures Filter(p, s) == s
  {
    if s != [] {
      FilterKeepsAll(p, s[1..]);
    }
  }

  /** A subsequence may keep or drop one more element at the end. */
  lemma {:induction false} SubseqSnoc<T>(r: seq<T>, s: seq<T>, x: T)
    requires Subseq(r, s)
    ensures Subseq(r, s + [x])
    ensures Subseq(r + [x], s + [x])
    decreases |s|
  {
    if r == [] {
      SubseqLast(s, x);
      assert r + [x] == [x];
    } else {
      assert s != [];
      assert (s + [x])[0] == s[0] && (s + [x])[1..] == s[1..] + [x];
      assert (r + [x])[0] == r[0] && (r + [x])[1..] == r[1..] + [x];
      if r[0] == s[0] {
        SubseqSnoc(r[1..], s[1..], x);
      } else {
        SubseqSnoc(r, s[1..], x);
      }
    }
  }

  lemma {:induction false} SubseqLast<T>(s: seq<T>, x: T)
    ensures Subseq([x], s + [x])
    decreases |s|
  {
    if s == [] {
      assert [x][1..] == [];
    } else if s[0] == x {
      assert (s + [x])[0] == x;
      assert [x][1..] == [];
    } else {
      assert (s + [x])[0] == s[0] && (s + [x])[1..] == s[1..] + [x];
      SubseqLast(s[1..], x);
    }
  }
}
