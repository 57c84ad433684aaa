/** Sequence helpers shared by the pipeline: order-keeping filters and flattening.
    Every row filter of the extraction (the date, selection and sign filters) is a
    `Keep`, and the consolidated export is a `Flatten` of the stored batches. */
module Seqs {

  /** The elements of `s` that satisfy `p`, in their original order. */
  function Keep<T>(s: seq<T>, p: T -> bool): (r: seq<T>)
    ensures |r| <= |s|
  {
    if s == [] then []
    else if p(s[0]) then [s[0]] + Keep(s[1..], p)
    else Keep(s[1..], p)
  }

  /** `a` can be obtained from `b` by deleting elements: relative order is kept. */
  predicate IsSubseq<T(==)>(a: seq<T>, b: seq<T>)
    decreases |b|
  {
    if a == [] then true
    else if b == [] then false
    else if a[0] == b[0] then IsSubseq(a[1..], b[1..])
    else IsSubseq(a, b[1..])
  }

  /** Dropping the first element of a subsequence keeps it a subsequence. */
  lemma {:induction false} SubseqTail<T>(a: seq<T>, c: seq<T>)
    requires a != [] && IsSubseq(a, c)
    ensures IsSubseq(a[1..], c)
    decreases |c|, |a|
  {
    if a[0] == c[0] {
      SubseqSkip(a[1..], c);
    } else {
      SubseqTail(a, c[1..]);
      SubseqSkip(a[1..], c);
    }
  }

  /** A subsequence of the tail is a subsequence of the whole. */
  lemma {:induction false} SubseqSkip<T>(a: seq<T>, c: seq<T>)
    requires c != [] && IsSubseq(a, c[1..])
    ensures IsSubseq(a, c)
    decreases |c|, |a|
  {
    if a != [] && a[0] == c[0] {
      SubseqTail(a, c[1..]);
    }
  }

  /** Keeping order is transitive. */
  lemma {:induction false} SubseqTrans<T>(a: seq<T>, b: seq<T>, c: seq<T>)
    requires IsSubseq(a, b) && IsSubseq(b, c)
    ensures IsSubseq(a, c)
    decreases |c|
  {
    if a != [] {
      if b[0] == c[0] {
        if a[0] == b[0] {
          SubseqTrans(a[1..], b[1..], c[1..]);
        } else {
          SubseqTrans(a, b[1..], c[1..]);
          SubseqSkip(a, c);
        }
      } else {
        SubseqTrans(a, b, c[1..]);
        SubseqSkip(a, c);
      }
    }
  }

  /** All elements of a sequence of sequences, first to last. */
  function Flatten<T>(ss: seq<seq<T>>): seq<T>
  {
    if ss == [] then [] else ss[0] + Flatten(ss[1..])
  }

  /** Only elements of `s` that satisfy `p` are kept. */
  lemma {:induction false} KeepSound<T>(s: seq<T>, p: T -> bool)
    ensures forall x :: x in Keep(s, p) ==> x in s && p(x)
  {
    if s != [] {
      KeepSound(s[1..], p);
    }
  }

  /** Nothing that satisfies `p` is lost. */
  lemma {:induction false} KeepComplete<T>(s: seq<T>, p: T -> bool, x: T)
    requires x in s && p(x)
    ensures x in Keep(s, p)
  {
    if s[0] != x {
      assert x in s[1..];
      KeepComplete(s[1..], p, x);
    }
  }

  /** A filter keeps the relative order of the elements it keeps. */
  lemma {:induction false} KeepIsSubseq<T>(s: seq<T>, p: T -> bool)
    ensures IsSubseq(Keep(s, p), s)
  {
    if s != [] {
      KeepIsSubseq(s[1..], p);
      if p(s[0]) {
        assert Keep(s, p)[1..] == Keep(s[1..], p);
      } else {
        var k := Keep(s, p);
        KeepSound(s, p);
        if k != [] {
          assert k[0] in k;
          assert k[0] != s[0];
        }
      }
    }
  }

  /** When every element passes, the filter is the identity. */
  lemma {:induction false} KeepAll<T>(s: seq<T>, p: T -> bool)
    requires forall x :: x in s ==> p(x)
    ensures Keep(s, p) == s
  {
    if s != [] {
      assert s == [s[0]] + s[1..];
      KeepAll(s[1..], p);
    }
  }

  /** Filtering distributes over concatenation. */
  lemma {:induction false} KeepConcat<T>(a: seq<T>, b: seq<T>, p: T -> bool)
    ensures Keep(a + b, p) == Keep(a, p) + Keep(b, p)
  {
    if a == [] {
      assert a + b == b;
    } else {
      assert (a + b)[0] == a[0];
      assert (a + b)[1..] == a[1..] + b;
      KeepConcat(a[1..], b, p);
    }
  }

  /** Filters by two exclusive conditions together take exactly the elements that
      satisfy either, counted with multiplicity. */
  lemma {:induction false} KeepDisjointUnion<T>(s: seq<T>, p: T -> bool, q: T -> bool, either: T -> bool)
    requires forall x :: x in s ==> !(p(x) && q(x))
    requires forall x :: x in s ==> either(x) == (p(x) || q(x))
    ensures multiset(Keep(s, p)) + multiset(Keep(s, q)) == multiset(Keep(s, either))
  {
    if s != [] {
      KeepDisjointUnion(s[1..], p, q, either);
    }
  }

  /** A filter keeps every copy of an element that passes and no copy of one
      that fails. */
  lemma {:induction false} KeepCount<T>(s: seq<T>, p: T -> bool, x: T)
    ensures multiset(Keep(s, p))[x] == if p(x) then multiset(s)[x] else 0
  {
    if s != [] {
      KeepCount(s[1..], p, x);
      assert s == [s[0]] + s[1..];
    }
  }

  /** No element occurs twice. */
  predicate Distinct<T(==)>(s: seq<T>)
  {
    forall i, j :: 0 <= i < j < |s| ==> s[i] != s[j]
  }

  /** A filter of a repetition-free sequence is repetition-free. */
  lemma {:induction false} KeepDistinct<T>(s: seq<T>, p: T -> bool)
    requires Distinct(s)
    ensures Distinct(Keep(s, p))
  {
    if s != [] {
      assert Distinct(s[1..]) by {
        forall i, j | 0 <= i < j < |s[1..]| ensures s[1..][i] != s[1..][j] {
          assert s[1..][i] == s[i + 1] && s[1..][j] == s[j + 1];
        }
      }
      KeepDistinct(s[1..], p);
      var t := Keep(s[1..], p);
      KeepSound(s[1..], p);
      if p(s[0]) {
        assert s[0] !in s[1..] by {
          forall k | 0 <= k < |s[1..]| ensures s[1..][k] != s[0] {
            assert s[1..][k] == s[k + 1];
          }
        }
        var r := Keep(s, p);
        assert r == [s[0]] + t;
        forall i, j | 0 <= i < j < |r| ensures r[i] != r[j] {
          if i == 0 {
            assert r[j] == t[j - 1];
            assert t[j - 1] in t;
          } else {
            assert r[i] == t[i - 1] && r[j] == t[j - 1];
          }
        }
      }
    }
  }

  /** Appending one more batch appends its elements at the end of the flattening. */
  lemma {:induction false} FlattenAppend<T>(ss: seq<seq<T>>, s: seq<T>)
    ensures Flatten(ss + [s]) == Flatten(ss) + s
  {
    if ss == [] {
      assert [] + [s] == [s];
      assert Flatten([s]) == s + Flatten([s][1..]);
    } else {
      assert (ss + [s])[0] == ss[0];
      assert (ss + [s])[1..] == ss[1..] + [s];
      FlattenAppend(ss[1..], s);
    }
  }

  /** Every element of the flattening comes from one of the parts, and back. */
  lemma {:induction false} FlattenMember<T>(ss: seq<seq<T>>, x: T)
    ensures x in Flatten(ss) <==> exists i :: 0 <= i < |ss| && x in ss[i]
  {
    if ss != [] {
      FlattenMember(ss[1..], x);
      if x in Flatten(ss) && x !in ss[0] {
        var i :| 0 <= i < |ss[1..]| && x in ss[1..][i];
        assert x in ss[i + 1];
      }
      if (exists i :: 0 <= i < |ss| && x in ss[i]) && x !in ss[0] {
        var i :| 0 <= i < |ss| && x in ss[i];
        assert i != 0;
        assert x in ss[1..][i - 1];
      }
    }
  }
}
