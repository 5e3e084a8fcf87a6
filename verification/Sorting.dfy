/** Python's `sorted` and `list.sort`: a stable sort by a total preorder.
    The sort itself is an insertion sort; what callers use are its properties
    and the fact that these properties leave only one possible result. */
module Sorting {

  ghost predicate TotalPreorder<T(!new)>(leq: (T, T) -> bool) {
    && (forall x, y :: leq(x, y) || leq(y, x))
    && (forall x, y, z :: leq(x, y) && leq(y, z) ==> leq(x, z))
  }

  ghost predicate Antisymmetric<T(!new)>(leq: (T, T) -> bool) {
    forall x, y :: leq(x, y) && leq(y, x) ==> x == y
  }

  ghost predicate Sorted<T>(s: seq<T>, leq: (T, T) -> bool) {
    forall i, j :: 0 <= i < j < |s| ==> leq(s[i], s[j])
  }

  /** The elements of `s` that tie with `k`, in order. */
  ghost function Ties<T>(s: seq<T>, k: T, leq: (T, T) -> bool): seq<T> {
    if s == [] then []
    else (if leq(k, s[0]) && leq(s[0], k) then [s[0]] else []) + Ties(s[1..], k, leq)
  }

  function Insert<T>(x: T, s: seq<T>, leq: (T, T) -> bool): seq<T> {
    if s == [] || leq(x, s[0]) then [x] + s
    else [s[0]] + Insert(x, s[1..], leq)
  }

  function Sort<T>(s: seq<T>, leq: (T, T) -> bool): seq<T> {
    if s == [] then [] else Insert(s[0], Sort(s[1..], leq), leq)
  }

  lemma {:induction false} InsertElements<T>(x: T, s: seq<T>, leq: (T, T) -> bool)
    ensures multiset(Insert(x, s, leq)) == multiset([x] + s)
    ensures |Insert(x, s, leq)| == |s| + 1
  {
    if s == [] || leq(x, s[0]) {
    } else {
      InsertElements(x, s[1..], leq);
      assert s == [s[0]] + s[1..];
    }
  }

  lemma {:induction false} InsertSorted<T(!new)>(x: T, s: seq<T>, leq: (T, T) -> bool)
    requires TotalPreorder(leq) && Sorted(s, leq)
    ensures Sorted(Insert(x, s, leq), leq)
  {
    if s == [] || leq(x, s[0]) {
    } else {
      InsertSorted(x, s[1..], leq);
      InsertElements(x, s[1..], leq);
      var r := Insert(x, s[1..], leq);
      forall j | 0 <= j < |r| ensures leq(s[0], r[j]) {
        assert r[j] in multiset(r);
        assert r[j] in [x] + s[1..];
      }
    }
  }

  lemma {:induction false} InsertTies<T(!new)>(x: T, s: seq<T>, k: T, leq: (T, T) -> bool)
    requires TotalPreorder(leq)
    ensures Ties(Insert(x, s, leq), k, leq) == Ties([x] + s, k, leq)
  {
    assert ([x] + s)[1..] == s;
    if s == [] || leq(x, s[0]) {
    } else {
      InsertTies(x, s[1..], k, leq);
      assert ([x] + s[1..])[1..] == s[1..];
      assert Insert(x, s, leq)[1..] == Insert(x, s[1..], leq);
    }
  }

  /** Sorting keeps the elements with their multiplicity. */
  lemma {:induction false} SortElements<T>(s: seq<T>, leq: (T, T) -> bool)
    ensures multiset(Sort(s, leq)) == multiset(s)
    ensures |Sort(s, leq)| == |s|
  {
    if s != [] {
      SortElements(s[1..], leq);
      InsertElements(s[0], Sort(s[1..], leq), leq);
      assert s == [s[0]] + s[1..];
    }
  }

  lemma {:induction false} SortSorted<T(!new)>(s: seq<T>, leq: (T, T) -> bool)
    requires TotalPreorder(leq)
    ensures Sorted(Sort(s, leq), leq)
  {
    if s != [] {
      SortSorted(s[1..], leq);
      InsertSorted(s[0], Sort(s[1..], leq), leq);
    }
  }

  /** Stability: elements that tie stay in their original order. */
  lemma {:induction false} SortStable<T(!new)>(s: seq<T>, k: T, leq: (T, T) -> bool)
    requires TotalPreorder(leq)
    ensures Ties(Sort(s, leq), k, leq) == Ties(s, k, leq)
  {
    if s != [] {
      SortStable(s[1..], k, leq);
      InsertTies(s[0], Sort(s[1..], leq), k, leq);
      assert ([s[0]] + Sort(s[1..], leq))[1..] == Sort(s[1..], leq);
    }
  }

  lemma {:induction false} TiesConcat<T>(a: seq<T>, b: seq<T>, k: T, leq: (T, T) -> bool)
    ensures Ties(a + b, k, leq) == Ties(a, k, leq) + Ties(b, k, leq)
  {
    if a == [] {
      assert a + b == b;
    } else {
      TiesConcat(a[1..], b, k, leq);
      assert (a + b)[1..] == a[1..] + b && (a + b)[0] == a[0];
      var h := if leq(k, a[0]) && leq(a[0], k) then [a[0]] else [];
      assert h + (Ties(a[1..], k, leq) + Ties(b, k, leq)) == h + Ties(a[1..], k, leq) + Ties(b, k, leq);
    }
  }

  lemma {:induction false} TiesMember<T>(s: seq<T>, k: T, leq: (T, T) -> bool)
    ensures forall y :: y in Ties(s, k, leq) <==> y in s && leq(k, y) && leq(y, k)
  {
    if s != [] {
      TiesMember(s[1..], k, leq);
      assert s == [s[0]] + s[1..];
    }
  }

  /** Ties depend only on the class of `k`. */
  lemma {:induction false} TiesClass<T(!new)>(s: seq<T>, k: T, m: T, leq: (T, T) -> bool)
    requires TotalPreorder(leq) && leq(k, m) && leq(m, k)
    ensures Ties(s, k, leq) == Ties(s, m, leq)
  {
    if s != [] {
      TiesClass(s[1..], k, m, leq);
    }
  }

  lemma TiesOfFirst<T(!new)>(s: seq<T>, leq: (T, T) -> bool)
    requires TotalPreorder(leq)
    ensures s != [] ==> Ties(s, s[0], leq) != []
  {
    if s != [] { assert leq(s[0], s[0]); }
  }

  /** Two sorted sequences whose ties agree class by class are one sequence:
      sortedness and stability determine the result of a stable sort. */
  lemma {:induction false} SortedUnique<T(!new)>(a: seq<T>, b: seq<T>, leq: (T, T) -> bool)
    requires TotalPreorder(leq) && Sorted(a, leq) && Sorted(b, leq)
    requires forall k :: Ties(a, k, leq) == Ties(b, k, leq)
    ensures a == b
  {
    if a == [] || b == [] {
      TiesOfFirst(a, leq);
      TiesOfFirst(b, leq);
    } else {
      HeadsTie(a, b, leq);
      HeadsTie(b, a, leq);
      assert Ties(a, a[0], leq)[0] == a[0];
      assert Ties(b, a[0], leq)[0] == b[0];
      forall k ensures Ties(a[1..], k, leq) == Ties(b[1..], k, leq) {
        assert Ties(a, k, leq) == Ties(b, k, leq);
        var h := if leq(k, a[0]) && leq(a[0], k) then [a[0]] else [];
        assert Ties(a, k, leq) == h + Ties(a[1..], k, leq);
        assert Ties(b, k, leq) == h + Ties(b[1..], k, leq);
        assert Ties(a[1..], k, leq) == Ties(a, k, leq)[|h|..];
        assert Ties(b[1..], k, leq) == Ties(b, k, leq)[|h|..];
      }
      SortedUnique(a[1..], b[1..], leq);
      assert a == [a[0]] + a[1..] && b == [b[0]] + b[1..];
    }
  }

  lemma HeadsTie<T(!new)>(a: seq<T>, b: seq<T>, leq: (T, T) -> bool)
    requires TotalPreorder(leq) && Sorted(a, leq) && Sorted(b, leq) && a != [] && b != []
    requires forall k :: Ties(a, k, leq) == Ties(b, k, leq)
    ensures leq(b[0], a[0])
  {
    TiesMember(a, a[0], leq);
    TiesMember(b, a[0], leq);
    assert a[0] in Ties(a, a[0], leq);
    assert a[0] in b;
    var i :| 0 <= i < |b| && b[i] == a[0];
    assert leq(b[0], b[i]) by { if i > 0 { assert leq(b[0], b[i]); } }
  }

  /** Sorting is a function of the ties: any input with the same ties as an
      already sorted `t` sorts to `t`. */
  lemma SortIs<T(!new)>(s: seq<T>, t: seq<T>, leq: (T, T) -> bool)
    requires TotalPreorder(leq) && Sorted(t, leq)
    requires forall k :: Ties(s, k, leq) == Ties(t, k, leq)
    ensures Sort(s, leq) == t
  {
    SortSorted(s, leq);
    forall k ensures Ties(Sort(s, leq), k, leq) == Ties(t, k, leq) { SortStable(s, k, leq); }
    SortedUnique(Sort(s, leq), t, leq);
  }

  /** Sorting twice is sorting once. */
  lemma SortIdempotent<T(!new)>(s: seq<T>, leq: (T, T) -> bool)
    requires TotalPreorder(leq)
    ensures Sort(Sort(s, leq), leq) == Sort(s, leq)
  {
    SortSorted(s, leq);
    SortIs(Sort(s, leq), Sort(s, leq), leq);
  }
}
