/** Searching, filtering and flattening sequences, and what reordering a sequence leaves unchanged. */
module Sequences {
  import opened Wrappers

  /** The first element that satisfies p. */
  function Find<T(!new)>(s: seq<T>, p: T -> bool): (r: Option<T>)
    ensures r.None? <==> forall x | x in s :: !p(x)
    ensures r.Some? ==> r.value in s && p(r.value)
  {
    if s == [] then None else if p(s[0]) then Some(s[0]) else Find(s[1..], p)
  }

  /** The elements that satisfy p, in order. */
  function Filter<T(!new)>(s: seq<T>, p: T -> bool): (r: seq<T>)
    ensures forall x :: x in r <==> x in s && p(x)
    ensures |r| <= |s|
  {
    if s == [] then [] else (if p(s[0]) then [s[0]] else []) + Filter(s[1..], p)
  }

  /** Concatenation of f over the elements, in order. */
  function FlatMap<A(!new), B(!new)>(s: seq<A>, f: A -> seq<B>): (r: seq<B>)
    ensures forall y :: y in r <==> exists x :: x in s && y in f(x)
  {
    if s == [] then []
    else
      assert forall x :: x in s <==> x == s[0] || x in s[1..];
      f(s[0]) + FlatMap(s[1..], f)
  }

  /** The first error of a list of step outcomes. */
  function FirstError<E>(steps: seq<Option<E>>): (r: Option<E>)
    ensures r.None? <==> forall k :: 0 <= k < |steps| ==> steps[k].None?
  {
    if steps == [] then None else if steps[0].Some? then steps[0] else FirstError(steps[1..])
  }

  lemma {:induction false} FirstErrorAt<E>(steps: seq<Option<E>>, k: nat)
    requires k < |steps| && steps[k].Some?
    requires forall i :: 0 <= i < k ==> steps[i].None?
    ensures FirstError(steps) == steps[k]
  {
    if k > 0 { FirstErrorAt(steps[1..], k - 1); }
  }

  lemma SameMembers<T(!new)>(a: seq<T>, b: seq<T>)
    requires multiset(a) == multiset(b)
    ensures forall x :: x in a <==> x in b
    ensures |a| == |b|
  {
    forall x ensures x in a <==> x in b {
      assert x in a <==> x in multiset(a);
      assert x in b <==> x in multiset(b);
    }
    assert |multiset(a)| == |a| && |multiset(b)| == |b|;
  }

  /** An element occurs at two places exactly when its multiplicity exceeds one. */
  lemma {:induction false} Multiplicity<T(!new)>(s: seq<T>, x: T)
    ensures multiset(s)[x] >= 2 <==> exists i, j :: 0 <= i < j < |s| && s[i] == x && s[j] == x
  {
    if s != [] {
      Multiplicity(s[1..], x);
      assert s == [s[0]] + s[1..];
      assert multiset(s) == multiset{s[0]} + multiset(s[1..]);
      if multiset(s)[x] >= 2 {
        if multiset(s[1..])[x] >= 2 {
          var i, j :| 0 <= i < j < |s[1..]| && s[1..][i] == x && s[1..][j] == x;
          assert s[i + 1] == x && s[j + 1] == x;
        } else {
          assert x in s[1..];
          var j :| 0 <= j < |s[1..]| && s[1..][j] == x;
          assert s[0] == x && s[j + 1] == x;
        }
      }
      if i, j :| 0 <= i < j < |s| && s[i] == x && s[j] == x {
        assert s[1..][j - 1] == x;
        if i > 0 { assert s[1..][i - 1] == x; }
      }
    }
  }

  /** No two positions carry the same key. */
  ghost predicate Distinct<T(!new), K>(s: seq<T>, key: T -> K) {
    forall i, j :: 0 <= i < j < |s| ==> key(s[i]) != key(s[j])
  }

  lemma DistinctKeepsUnderReordering<T(!new), K>(a: seq<T>, b: seq<T>, key: T -> K)
    requires multiset(a) == multiset(b) && Distinct(a, key)
    ensures Distinct(b, key)
  {
    SameMembers(a, b);
    forall i, j | 0 <= i < j < |b| ensures key(b[i]) != key(b[j]) {
      Multiplicity(b, b[i]);
      Multiplicity(a, b[i]);
      assert b[i] in a && b[j] in a;
      var p :| 0 <= p < |a| && a[p] == b[i];
      var q :| 0 <= q < |a| && a[q] == b[j];
      assert p != q;
    }
  }

  lemma {:induction false} FilterMultiplicity<T(!new)>(s: seq<T>, p: T -> bool, x: T)
    ensures multiset(Filter(s, p))[x] == if p(x) then multiset(s)[x] else 0
  {
    if s != [] {
      FilterMultiplicity(s[1..], p, x);
      assert s == [s[0]] + s[1..];
      assert multiset(s) == multiset{s[0]} + multiset(s[1..]);
      var head := if p(s[0]) then [s[0]] else [];
      assert multiset(Filter(s, p)) == multiset(head) + multiset(Filter(s[1..], p));
    }
  }

  lemma FilterReordered<T(!new)>(a: seq<T>, b: seq<T>, p: T -> bool)
    requires multiset(a) == multiset(b)
    ensures multiset(Filter(a, p)) == multiset(Filter(b, p))
  {
    forall x ensures multiset(Filter(a, p))[x] == multiset(Filter(b, p))[x] {
      FilterMultiplicity(a, p, x);
      FilterMultiplicity(b, p, x);
    }
  }

  lemma Associate<T>(a: seq<T>, b: seq<T>, c: seq<T>)
    ensures (a + b) + c == a + (b + c)
  {
  }

  lemma FlatMapFirst<A(!new), B(!new)>(x: A, s: seq<A>, f: A -> seq<B>)
    ensures FlatMap([x] + s, f) == f(x) + FlatMap(s, f)
  {
    assert ([x] + s)[1..] == s;
  }

  lemma {:induction false} FlatMapSplit<A(!new), B(!new)>(a: seq<A>, b: seq<A>, f: A -> seq<B>)
    ensures FlatMap(a + b, f) == FlatMap(a, f) + FlatMap(b, f)
  {
    if a == [] {
      assert a + b == b;
    } else {
      var x, rest := a[0], a[1..];
      calc {
        FlatMap(a + b, f);
        { assert a + b == [x] + (rest + b); FlatMapFirst(x, rest + b, f); }
        f(x) + FlatMap(rest + b, f);
        { FlatMapSplit(rest, b, f); }
        f(x) + (FlatMap(rest, f) + FlatMap(b, f));
        { Associate(f(x), FlatMap(rest, f), FlatMap(b, f)); }
        (f(x) + FlatMap(rest, f)) + FlatMap(b, f);
        { assert a == [x] + rest; FlatMapFirst(x, rest, f); }
        FlatMap(a, f) + FlatMap(b, f);
      }
    }
  }

  /** One more element contributes at the end. */
  lemma FlatMapExtends<A(!new), B(!new)>(s: seq<A>, i: nat, f: A -> seq<B>)
    requires i < |s|
    ensures FlatMap(s[..i + 1], f) == FlatMap(s[..i], f) + f(s[i])
  {
    assert s[..i + 1] == s[..i] + [s[i]];
    FlatMapSplit(s[..i], [s[i]], f);
    FlatMapFirst(s[i], [], f);
    assert [s[i]] + [] == [s[i]];
  }

  /** What an element contributes can be counted first, wherever it stands. */
  lemma FlatMapPulled<A(!new), B(!new)>(front: seq<A>, x: A, back: seq<A>, f: A -> seq<B>)
    ensures multiset(FlatMap(front + ([x] + back), f)) == multiset(f(x)) + multiset(FlatMap(front + back, f))
  {
    FlatMapSplit(front, [x] + back, f);
    FlatMapFirst(x, back, f);
    FlatMapSplit(front, back, f);
    MultisetPulled(FlatMap(front, f), f(x), FlatMap(back, f));
  }

  lemma MultisetPulled<T>(front: seq<T>, middle: seq<T>, back: seq<T>)
    ensures multiset(front + (middle + back)) == multiset(middle) + multiset(front + back)
  {
  }

  lemma RestReordered<T(!new)>(x: T, rest: seq<T>, front: seq<T>, back: seq<T>)
    requires multiset([x] + rest) == multiset(front + ([x] + back))
    ensures multiset(rest) == multiset(front + back)
  {
    assert multiset(rest) == multiset([x] + rest) - multiset{x};
    MultisetPulled(front, [x], back);
  }

  lemma {:induction false} FlatMapReordered<A(!new), B(!new)>(a: seq<A>, b: seq<A>, f: A -> seq<B>)
    requires multiset(a) == multiset(b)
    ensures multiset(FlatMap(a, f)) == multiset(FlatMap(b, f))
    decreases |a|
  {
    SameMembers(a, b);
    if a != [] {
      var x, rest := a[0], a[1..];
      assert x in a;
      var k :| 0 <= k < |b| && b[k] == x;
      var front, back := b[..k], b[k + 1..];
      assert a == [x] + rest && b == front + ([x] + back);
      RestReordered(x, rest, front, back);
      calc {
        multiset(FlatMap(a, f));
        { FlatMapFirst(x, rest, f); }
        multiset(f(x) + FlatMap(rest, f));
        multiset(f(x)) + multiset(FlatMap(rest, f));
        { FlatMapReordered(rest, front + back, f); }
        multiset(f(x)) + multiset(FlatMap(front + back, f));
        { FlatMapPulled(front, x, back, f); }
        multiset(FlatMap(b, f));
      }
    }
  }

  /** Only the element at i satisfies p. */
  ghost predicate SoleAt<T(!new)>(s: seq<T>, p: T -> bool, i: nat) {
    i < |s| && p(s[i]) && forall j | 0 <= j < |s| && p(s[j]) :: j == i
  }

  /** A filter keeps one element exactly when one place satisfies the predicate, and then it keeps that one. */
  lemma {:induction false} FilterSole<T(!new)>(s: seq<T>, p: T -> bool)
    ensures |Filter(s, p)| == 1 <==> exists i: nat :: SoleAt(s, p, i)
    ensures forall i: nat | SoleAt(s, p, i) :: Filter(s, p) == [s[i]]
  {
    if s != [] {
      var rest := s[1..];
      FilterSole(rest, p);
      if p(s[0]) {
        if Filter(rest, p) == [] {
          forall j | 0 < j < |s| ensures !p(s[j]) { assert rest[j - 1] !in Filter(rest, p); }
          assert SoleAt(s, p, 0);
        } else {
          var x := Filter(rest, p)[0];
          assert x in Filter(rest, p);
          var k :| 0 <= k < |rest| && rest[k] == x;
          assert p(s[k + 1]);
        }
      } else {
        if i: nat :| SoleAt(rest, p, i) { assert SoleAt(s, p, i + 1); }
        forall i: nat | SoleAt(s, p, i) ensures SoleAt(rest, p, i - 1) {
          forall j | 0 <= j < |rest| && p(rest[j]) ensures j == i - 1 { assert p(s[j + 1]); }
        }
      }
    }
  }

  lemma {:induction false} FlatMapCongruent<A(!new), B(!new)>(s: seq<A>, f: A -> seq<B>, g: A -> seq<B>)
    requires forall x | x in s :: f(x) == g(x)
    ensures FlatMap(s, f) == FlatMap(s, g)
  {
    if s != [] { FlatMapCongruent(s[1..], f, g); }
  }

  /** Searching two lists whose elements satisfy p at the same places stops at the same place. */
  lemma {:induction false} FindAligned<T(!new)>(s: seq<T>, t: seq<T>, p: T -> bool) returns (i: nat)
    requires |s| == |t| && forall k :: 0 <= k < |s| ==> p(s[k]) == p(t[k])
    ensures Find(s, p).None? <==> Find(t, p).None?
    ensures Find(s, p).Some? ==> i < |s| && Find(s, p) == Some(s[i]) && Find(t, p) == Some(t[i])
  {
    i := 0;
    if s != [] && !p(s[0]) {
      var rest := FindAligned(s[1..], t[1..], p);
      i := rest + 1;
    }
  }
}
