/** Sequence operations pandas performs on rows and column labels. */
module Sequences {

  /** The concatenation of `f(x)` for each `x` of `s`, in order. */
  function FlatMap<A, B>(f: A -> seq<B>, s: seq<A>): seq<B>
    decreases |s|
  {
    if |s| == 0 then [] else f(s[0]) + FlatMap(f, s[1..])
  }

  /** Mapping a concatenation is concatenating the maps. */
  lemma {:induction false} FlatMapAppend<A, B>(f: A -> seq<B>, a: seq<A>, b: seq<A>)
    ensures FlatMap(f, a + b) == FlatMap(f, a) + FlatMap(f, b)
    decreases |a|
  {
    if |a| > 0 {
      assert (a + b)[0] == a[0];
      assert (a + b)[1..] == a[1..] + b;
      FlatMapAppend(f, a[1..], b);
    } else {
      assert a + b == b;
    }
  }

  /** Index of the first occurrence of `x` in `s`. */
  function IndexOf<T(==)>(s: seq<T>, x: T): (i: nat)
    requires x in s
    ensures i < |s| && s[i] == x && x !in s[..i]
  {
    if s[0] == x then 0 else 1 + IndexOf(s[1..], x)
  }

  /** An index holding `x` with no `x` before it is the one `IndexOf` finds. */
  lemma {:induction false} IndexOfIsFirst<T>(s: seq<T>, x: T, k: nat)
    requires k < |s| && s[k] == x && x !in s[..k]
    ensures IndexOf(s, x) == k
    decreases k
  {
    if k > 0 {
      assert s[..k][0] == s[0];
      assert s[1..][..k - 1] == s[..k][1..];
      IndexOfIsFirst(s[1..], x, k - 1);
    }
  }

  /** Appending elements does not move the first occurrence of an element already present. */
  lemma IndexOfPrefix<T>(a: seq<T>, b: seq<T>, x: T)
    requires x in a
    ensures x in a + b && IndexOf(a + b, x) == IndexOf(a, x)
  {
    var k := IndexOf(a, x);
    assert (a + b)[..k] == a[..k];
    IndexOfIsFirst(a + b, x, k);
  }

  /** Appending elements keeps the relative first occurrences of elements already present. */
  lemma AppendKeepsFirstOccurs<T>(a: seq<T>, b: seq<T>, x: T, y: T)
    requires x in a && y in a
    ensures FirstOccursBefore(a + b, x, y) <==> FirstOccursBefore(a, x, y)
  {
    IndexOfPrefix(a, b, x);
    IndexOfPrefix(a, b, y);
  }

  /** An element appended for the first time occurs after every element already present. */
  lemma NewLastOccursAfter<T>(a: seq<T>, last: T, x: T)
    requires x in a && last !in a
    ensures FirstOccursBefore(a + [last], x, last) && !FirstOccursBefore(a + [last], last, x)
  {
    IndexOfPrefix(a, [last], x);
    assert (a + [last])[..|a|] == a;
    IndexOfIsFirst(a + [last], last, |a|);
  }

  /** No element occurs twice. */
  predicate Distinct<T(==)>(s: seq<T>)
  {
    forall i, j :: 0 <= i < j < |s| ==> s[i] != s[j]
  }

  /**
   * `drop_duplicates()` with its default `keep='first'`: element `s[i]` is kept
   * exactly when it does not already occur in `s[..i]`; the kept elements stay in
   * their input order.
   */
  function FirstOccurrences<T(==)>(s: seq<T>): seq<T>
    decreases |s|
  {
    if |s| == 0 then []
    else
      var init, last := s[..|s| - 1], s[|s| - 1];
      FirstOccurrences(init) + (if last in init then [] else [last])
  }

  /** `a` can be obtained from `b` by deleting elements (matched from the back). */
  predicate IsSubsequence<T(==)>(a: seq<T>, b: seq<T>)
    decreases |b|
  {
    if |a| == 0 then true
    else if |b| == 0 then false
    else if a[|a| - 1] == b[|b| - 1] then IsSubsequence(a[..|a| - 1], b[..|b| - 1])
    else IsSubsequence(a, b[..|b| - 1])
  }

  /** De-duplication loses no value and invents none. */
  lemma {:induction false} FirstOccurrencesElements<T>(s: seq<T>)
    ensures forall x :: x in FirstOccurrences(s) <==> x in s
    decreases |s|
  {
    if |s| > 0 {
      var init := s[..|s| - 1];
      FirstOccurrencesElements(init);
      assert s == init + [s[|s| - 1]];
    }
  }

  /** After de-duplication no two rows are equal. */
  lemma {:induction false} FirstOccurrencesDistinct<T>(s: seq<T>)
    ensures Distinct(FirstOccurrences(s))
    decreases |s|
  {
    if |s| > 0 {
      var init, last := s[..|s| - 1], s[|s| - 1];
      FirstOccurrencesDistinct(init);
      FirstOccurrencesElements(init);
    }
  }

  /** Every element of `f` occurs in `s`, and `f` lists them in the order of their first occurrences in `s`. */
  predicate InFirstOccurrenceOrder<T(==)>(f: seq<T>, s: seq<T>)
  {
    forall p, q :: 0 <= p < q < |f| ==> FirstOccursBefore(s, f[p], f[q])
  }

  /** Both `x` and `y` occur in `s`, and `x` occurs first before `y` does. */
  predicate FirstOccursBefore<T(==)>(s: seq<T>, x: T, y: T)
  {
    x in s && y in s && IndexOf(s, x) < IndexOf(s, y)
  }

  lemma FirstOccurrencesAt<T>(s: seq<T>, p: nat)
    requires p < |FirstOccurrences(s)|
    ensures FirstOccurrences(s)[p] in s
  {
    FirstOccurrencesElements(s);
  }

  /**
   * The kept rows are the first occurrences: they appear in the order in which
   * their values first occur in the input.
   */
  lemma {:induction false} FirstOccurrencesKeepFirst<T>(s: seq<T>)
    ensures InFirstOccurrenceOrder(FirstOccurrences(s), s)
    decreases |s|
  {
    if |s| > 0 {
      var init, last := s[..|s| - 1], s[|s| - 1];
      var f0, f := FirstOccurrences(init), FirstOccurrences(s);
      FirstOccurrencesKeepFirst(init);
      FirstOccurrencesElements(init);
      assert s == init + [last];
      assert f == f0 + (if last in init then [] else [last]);
      forall x | x in init ensures x in s && IndexOf(s, x) == IndexOf(init, x) {
        IndexOfPrefix(init, [last], x);
      }
      if last !in init {
        IndexOfIsFirst(s, last, |init|);
      }
      forall p, q | 0 <= p < q < |f| ensures FirstOccursBefore(s, f[p], f[q]) {
        assert f[p] == f0[p];
        FirstOccurrencesAt(init, p);
        if q < |f0| {
          assert f[q] == f0[q];
          FirstOccurrencesAt(init, q);
        } else {
          assert f[q] == last;
        }
      }
      assert InFirstOccurrenceOrder(f, s);
    }
  }

  lemma InFirstOccurrenceOrderInit<T>(a: seq<T>, s: seq<T>)
    requires |a| > 0 && InFirstOccurrenceOrder(a, s)
    ensures InFirstOccurrenceOrder(a[..|a| - 1], s)
  {
    var a' := a[..|a| - 1];
    forall p, q | 0 <= p < q < |a'| ensures FirstOccursBefore(s, a'[p], a'[q]) {
      assert a'[p] == a[p] && a'[q] == a[q];
    }
    assert InFirstOccurrenceOrder(a', s);
  }

  /** In a sequence listed in first-occurrence order, every other element comes before the last one. */
  lemma InFirstOccurrenceOrderLast<T>(a: seq<T>, s: seq<T>, z: T)
    requires |a| > 0 && Distinct(a) && InFirstOccurrenceOrder(a, s)
    requires z in a && z != a[|a| - 1]
    ensures FirstOccursBefore(s, z, a[|a| - 1])
  {
    var i :| 0 <= i < |a| && a[i] == z;
    assert i < |a| - 1;
  }

  /** Removing the last element of a duplicate-free sequence removes exactly that element. */
  lemma DistinctInit<T>(a: seq<T>)
    requires |a| > 0 && Distinct(a)
    ensures Distinct(a[..|a| - 1])
    ensures forall z :: z in a[..|a| - 1] <==> z in a && z != a[|a| - 1]
  {
    var a' := a[..|a| - 1];
    assert a == a' + [a[|a| - 1]];
    forall z | z in a' ensures z != a[|a| - 1] {
      var i :| 0 <= i < |a'| && a'[i] == z;
      assert a[i] == z;
    }
  }

  /**
   * Two duplicate-free sequences with the same elements, both listed in the
   * order of first occurrence in `s`, are equal: that order fixes the sequence.
   */
  lemma {:induction false} FirstOccurrenceOrderUnique<T>(a: seq<T>, b: seq<T>, s: seq<T>)
    requires Distinct(a) && Distinct(b)
    requires forall x :: x in a <==> x in b
    requires InFirstOccurrenceOrder(a, s) && InFirstOccurrenceOrder(b, s)
    ensures a == b
    decreases |a| + |b|, |b|
  {
    if |a| == 0 {
      if |b| > 0 {
        FirstOccurrenceOrderUnique(b, a, s);
      }
    } else {
      var x := a[|a| - 1];
      assert x in a;
      var y := b[|b| - 1];
      assert y in b;
      if x != y {
        InFirstOccurrenceOrderLast(a, s, y);
        InFirstOccurrenceOrderLast(b, s, x);
      }
      assert x == y;
      DistinctInit(a);
      DistinctInit(b);
      var a', b' := a[..|a| - 1], b[..|b| - 1];
      forall z ensures z in a' <==> z in b' {
        assert z in a <==> z in b;
      }
      InFirstOccurrenceOrderInit(a, s);
      InFirstOccurrenceOrderInit(b, s);
      FirstOccurrenceOrderUnique(a', b', s);
      assert a == a[..|a| - 1] + [x] && b == b[..|b| - 1] + [y];
    }
  }

  /** A sequence without duplicates is left as it is. */
  lemma {:induction false} FirstOccurrencesOfDistinct<T>(s: seq<T>)
    requires Distinct(s)
    ensures FirstOccurrences(s) == s
    decreases |s|
  {
    if |s| > 0 {
      var init, last := s[..|s| - 1], s[|s| - 1];
      assert Distinct(init);
      FirstOccurrencesOfDistinct(init);
      assert last !in init by {
        forall i | 0 <= i < |init| ensures init[i] != last {
          assert s[i] == init[i];
        }
      }
      assert s == init + [last];
    }
  }

  /** De-duplicating twice is de-duplicating once. */
  lemma FirstOccurrencesIdempotent<T>(s: seq<T>)
    ensures FirstOccurrences(FirstOccurrences(s)) == FirstOccurrences(s)
  {
    FirstOccurrencesDistinct(s);
    FirstOccurrencesOfDistinct(FirstOccurrences(s));
  }

  lemma {:induction false} SubsequenceDropLast<T>(a: seq<T>, b: seq<T>)
    requires IsSubsequence(a, b) && |a| > 0
    ensures IsSubsequence(a[..|a| - 1], b)
    decreases |b|, 0
  {
    var a' := a[..|a| - 1];
    if |a'| > 0 {
      var b' := b[..|b| - 1];
      if a[|a| - 1] == b[|b| - 1] {
        SubsequenceExtend(a', b', b[|b| - 1]);
        assert b' + [b[|b| - 1]] == b;
      } else {
        SubsequenceDropLast(a, b');
        SubsequenceExtend(a', b', b[|b| - 1]);
        assert b' + [b[|b| - 1]] == b;
      }
    }
  }

  lemma {:induction false} SubsequenceExtend<T>(a: seq<T>, b: seq<T>, x: T)
    requires IsSubsequence(a, b)
    ensures IsSubsequence(a, b + [x])
    decreases |b|, 1
  {
    var b' := b + [x];
    assert b'[..|b'| - 1] == b;
    if |a| > 0 && a[|a| - 1] == x {
      SubsequenceDropLast(a, b);
    }
  }

  /** The kept rows are a subsequence of the input rows. */
  lemma {:induction false} FirstOccurrencesSubsequence<T>(s: seq<T>)
    ensures IsSubsequence(FirstOccurrences(s), s)
    decreases |s|
  {
    if |s| > 0 {
      var init, last := s[..|s| - 1], s[|s| - 1];
      FirstOccurrencesSubsequence(init);
      assert init + [last] == s;
      if last in init {
        assert FirstOccurrences(s) == FirstOccurrences(init);
        SubsequenceExtend(FirstOccurrences(init), init, last);
      } else {
        var f := FirstOccurrences(init) + [last];
        assert FirstOccurrences(s) == f;
        assert f[..|f| - 1] == FirstOccurrences(init);
      }
    }
  }
}
