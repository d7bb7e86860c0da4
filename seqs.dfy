/** Generic sequence facts behind the source's `Array.prototype.filter`. */
module Seqs {

  /** `sub` is `s` with some elements removed and the rest kept in order. */
  ghost predicate Subsequence<T>(sub: seq<T>, s: seq<T>)
    decreases |s|
  {
    if sub == [] then true
    else if s == [] then false
    else if sub[0] == s[0] then Subsequence(sub[1..], s[1..])
    else Subsequence(sub, s[1..])
  }

  /** No two elements of `s` share a key. */
  ghost predicate DistinctBy<T, K>(s: seq<T>, key: T -> K) {
    forall i, j :: 0 <= i < j < |s| ==> key(s[i]) != key(s[j])
  }

  /** Number of elements of `s` that satisfy `p`. */
  function CountWhere<T>(s: seq<T>, p: T -> bool): nat {
    if s == [] then 0 else (if p(s[0]) then 1 else 0) + CountWhere(s[1..], p)
  }

  /** `s.filter(p)`: the elements that satisfy `p`, in their original order
    * (membership and order are stated by `FilterMembers`). */
  function Filter<T>(s: seq<T>, p: T -> bool): (r: seq<T>)
    ensures |r| == CountWhere(s, p) <= |s|
    ensures forall i :: 0 <= i < |r| ==> p(r[i])
    ensures (forall i :: 0 <= i < |s| ==> p(s[i])) ==> r == s
    decreases |s|
  {
    if s == [] then []
    else if p(s[0]) then [s[0]] + Filter(s[1..], p)
    else Filter(s[1..], p)
  }

  /** The filter keeps exactly the elements that pass, as a subsequence. */
  lemma {:induction false} FilterMembers<T>(s: seq<T>, p: T -> bool)
    ensures Subsequence(Filter(s, p), s)
    ensures forall i :: 0 <= i < |Filter(s, p)| ==> Filter(s, p)[i] in s
    ensures forall i :: 0 <= i < |s| && p(s[i]) ==> s[i] in Filter(s, p)
    decreases |s|
  {
    if s != [] {
      var rest := Filter(s[1..], p);
      FilterMembers(s[1..], p);
      SubsequenceMembers(rest, s[1..]);
      if p(s[0]) {
        assert ([s[0]] + rest)[1..] == rest;
      } else if rest != [] {
        assert rest[0] in rest;
      }
      SubsequenceMembers(Filter(s, p), s);
      forall i | 0 <= i < |s| && p(s[i]) ensures s[i] in Filter(s, p) {
        if i > 0 {
          assert s[i] == s[1..][i - 1];
        }
      }
    }
  }

  lemma {:induction false} SubsequenceMembers<T>(sub: seq<T>, s: seq<T>)
    requires Subsequence(sub, s)
    ensures forall i :: 0 <= i < |sub| ==> sub[i] in s
    decreases |s|
  {
    if sub != [] && s != [] {
      if sub[0] == s[0] {
        SubsequenceMembers(sub[1..], s[1..]);
        assert forall i :: 0 < i < |sub| ==> sub[i] == sub[1..][i - 1];
      } else {
        SubsequenceMembers(sub, s[1..]);
      }
    }
  }

  /** Removing elements keeps keys distinct. */
  lemma {:induction false} SubsequenceDistinct<T, K>(sub: seq<T>, s: seq<T>, key: T -> K)
    requires Subsequence(sub, s) && DistinctBy(s, key)
    ensures DistinctBy(sub, key)
    decreases |s|
  {
    if sub != [] && s != [] {
      assert DistinctBy(s[1..], key);
      if sub[0] == s[0] {
        SubsequenceDistinct(sub[1..], s[1..], key);
        SubsequenceMembers(sub[1..], s[1..]);
        forall j | 0 < j < |sub| ensures key(sub[0]) != key(sub[j]) {
          assert sub[j] == sub[1..][j - 1];
          var k :| 0 <= k < |s[1..]| && s[1..][k] == sub[j];
          assert s[k + 1] == sub[j];
        }
      } else {
        SubsequenceDistinct(sub, s[1..], key);
      }
    }
  }

  /** Filtering by two complementary predicates splits the elements without loss. */
  lemma {:induction false} FilterSplit<T>(s: seq<T>, p: T -> bool, q: T -> bool)
    requires forall x :: q(x) == !p(x)
    ensures multiset(Filter(s, p)) + multiset(Filter(s, q)) == multiset(s)
    decreases |s|
  {
    if s != [] {
      FilterSplit(s[1..], p, q);
      assert s == [s[0]] + s[1..];
      assert multiset(s) == multiset{s[0]} + multiset(s[1..]);
    }
  }

  /** Filtering distributes over concatenation. */
  lemma {:induction false} FilterConcat<T>(a: seq<T>, b: seq<T>, p: T -> bool)
    ensures Filter(a + b, p) == Filter(a, p) + Filter(b, p)
    decreases |a|
  {
    if a == [] {
      assert a + b == b;
    } else {
      FilterConcat(a[1..], b, p);
      assert (a + b)[0] == a[0];
      assert (a + b)[1..] == a[1..] + b;
      if p(a[0]) {
        assert [a[0]] + (Filter(a[1..], p) + Filter(b, p))
            == ([a[0]] + Filter(a[1..], p)) + Filter(b, p);
      }
    }
  }

  /** When exactly the elements at positions `i..j` pass, the filter keeps that slice. */
  lemma {:induction false} FilterSlice<T>(s: seq<T>, p: T -> bool, i: int, j: int)
    requires 0 <= i <= j <= |s|
    requires forall k :: 0 <= k < |s| ==> (p(s[k]) <==> i <= k < j)
    ensures Filter(s, p) == s[i..j]
    decreases |s|
  {
    if s != [] {
      var t := s[1..];
      var i', j' := if i == 0 then 0 else i - 1, if j == 0 then 0 else j - 1;
      forall k | 0 <= k < |t| ensures p(t[k]) <==> i' <= k < j' {
        assert t[k] == s[k + 1];
      }
      FilterSlice(t, p, i', j');
      if i == 0 && 0 < j {
        assert p(s[0]);
        assert [s[0]] + t[0..j - 1] == s[0..j];
      } else {
        assert !p(s[0]);
        assert t[i'..j'] == s[i..j];
      }
    }
  }
}
