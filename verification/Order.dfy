// Ordering: lexicographic comparison, and stable sorting as list.sort does it.
module Order {

  /** Strict lexicographic order, as Python compares bytes, strings and tuples of integers. */
  predicate LexLess(a: seq<int>, b: seq<int>) {
    b != [] && (a == [] || a[0] < b[0] || (a[0] == b[0] && LexLess(a[1..], b[1..])))
  }

  lemma LexIrreflexive(a: seq<int>)
    ensures !LexLess(a, a)
  {
  }

  lemma {:induction false} LexTransitive(a: seq<int>, b: seq<int>, c: seq<int>)
    requires LexLess(a, b) && LexLess(b, c)
    ensures LexLess(a, c)
  {
    if a != [] && a[0] == b[0] == c[0] {
      LexTransitive(a[1..], b[1..], c[1..]);
    }
  }

  lemma {:induction false} LexTotal(a: seq<int>, b: seq<int>)
    ensures a == b || LexLess(a, b) || LexLess(b, a)
  {
    if a != [] && b != [] && a[0] == b[0] {
      LexTotal(a[1..], b[1..]);
      if a[1..] == b[1..] {
        assert a == [a[0]] + a[1..] && b == [b[0]] + b[1..];
      }
    }
  }

  lemma LexAsymmetric(a: seq<int>, b: seq<int>)
    requires LexLess(a, b)
    ensures !LexLess(b, a) && a != b
  {
    LexIrreflexive(a);
    if LexLess(b, a) {
      LexTransitive(a, b, a);
    }
  }

  ghost predicate StrictOrder<T(!new)>(lt: (T, T) -> bool) {
    && (forall x :: !lt(x, x))
    && (forall x, y, z :: lt(x, y) && lt(y, z) ==> lt(x, z))
  }

  ghost predicate StrictlySorted<T>(lt: (T, T) -> bool, s: seq<T>) {
    forall i, j :: 0 <= i < j < |s| ==> lt(s[i], s[j])
  }

  /** A strictly sorted sequence is determined by its elements. */
  lemma {:induction false} StrictlySortedUnique<T(!new)>(lt: (T, T) -> bool, a: seq<T>, b: seq<T>)
    requires StrictOrder(lt) && StrictlySorted(lt, a) && StrictlySorted(lt, b)
    requires forall x :: x in a <==> x in b
    ensures a == b
  {
    assert forall i :: 0 <= i < |a| ==> a[i] in b;
    assert forall i :: 0 <= i < |b| ==> b[i] in a;
    if a != [] && b != [] {
      assert a[0] == b[0];
      forall x
        ensures x in a[1..] <==> x in b[1..]
      {
        if x in a[1..] {
          assert x in a && lt(a[0], x);
        }
        if x in b[1..] {
          assert x in b && lt(b[0], x);
        }
        assert x in a <==> x == a[0] || x in a[1..];
        assert x in b <==> x == b[0] || x in b[1..];
      }
      StrictlySortedUnique(lt, a[1..], b[1..]);
    }
  }

  /** Put `x`, which came after everything in `s`, behind the last element not above it. */
  function Insert<T>(leq: (T, T) -> bool, s: seq<T>, x: T): (r: seq<T>)
    ensures |r| == |s| + 1
    ensures multiset(r) == multiset(s) + multiset{x}
  {
    if s == [] || leq(s[|s| - 1], x) then
      s + [x]
    else
      var init := s[..|s| - 1];
      assert s == init + [s[|s| - 1]];
      Insert(leq, init, x) + [s[|s| - 1]]
  }

  /** The stable sort: what list.sort(key=...) leaves, `leq` comparing keys. */
  function StableSort<T>(leq: (T, T) -> bool, s: seq<T>): (r: seq<T>)
    ensures |r| == |s|
    ensures multiset(r) == multiset(s)
  {
    if s == [] then
      []
    else
      assert s == s[..|s| - 1] + [s[|s| - 1]];
      Insert(leq, StableSort(leq, s[..|s| - 1]), s[|s| - 1])
  }

  lemma SortKeepsElements<T>(leq: (T, T) -> bool, s: seq<T>, x: T)
    ensures x in StableSort(leq, s) <==> x in s
  {
    assert x in StableSort(leq, s) <==> x in multiset(StableSort(leq, s));
    assert x in s <==> x in multiset(s);
  }

  lemma {:induction false} InsertElements<T>(leq: (T, T) -> bool, s: seq<T>, x: T, y: T)
    ensures y in Insert(leq, s, x) <==> y in s || y == x
  {
    assert y in Insert(leq, s, x) <==> y in multiset(Insert(leq, s, x));
    assert y in s <==> y in multiset(s);
  }

  /** `lt` breaks the ties of `leq` by position: between an earlier and a later element of an
      input, `leq` says which way `lt` goes. */
  ghost predicate Refines<T>(lt: (T, T) -> bool, leq: (T, T) -> bool, earlier: T, later: T) {
    if leq(earlier, later) then lt(earlier, later) else lt(later, earlier)
  }

  lemma {:induction false} InsertStrict<T(!new)>(lt: (T, T) -> bool, leq: (T, T) -> bool, s: seq<T>, x: T)
    requires StrictOrder(lt) && StrictlySorted(lt, s)
    requires forall y :: y in s ==> Refines(lt, leq, y, x)
    ensures StrictlySorted(lt, Insert(leq, s, x))
  {
    if s != [] {
      var init, last := s[..|s| - 1], s[|s| - 1];
      assert last in s && Refines(lt, leq, last, x);
      if leq(last, x) {
        forall i | 0 <= i < |s|
          ensures lt(s[i], x)
        {
          assert i < |s| - 1 ==> lt(s[i], last);
        }
      } else {
        forall y | y in init
          ensures Refines(lt, leq, y, x)
        {
          assert y in s;
        }
        InsertStrict(lt, leq, init, x);
        var r := Insert(leq, init, x);
        forall i | 0 <= i < |r|
          ensures lt(r[i], last)
        {
          assert r[i] in r;
          InsertElements(leq, init, x, r[i]);
        }
      }
    }
  }

  /** Stability: the sort orders its input by the refined order, ties in input order. */
  lemma {:induction false} StableSortStrict<T(!new)>(lt: (T, T) -> bool, leq: (T, T) -> bool, s: seq<T>)
    requires StrictOrder(lt)
    requires forall i, j :: 0 <= i < j < |s| ==> Refines(lt, leq, s[i], s[j])
    ensures StrictlySorted(lt, StableSort(leq, s))
  {
    if s != [] {
      var init, last := s[..|s| - 1], s[|s| - 1];
      StableSortStrict(lt, leq, init);
      forall y | y in StableSort(leq, init)
        ensures Refines(lt, leq, y, last)
      {
        SortKeepsElements(leq, init, y);
      }
      InsertStrict(lt, leq, StableSort(leq, init), last);
    }
  }
}
