/** The release tarball: a tar stream is rewritten so that it depends only on the
    paths, the contents and whether a member is executable. */
module ReleaseTar {
  import opened Sorting
  import StringOrder

  /** Regular members carry bytes; the others (directories, links) a type and a target. */
  datatype Content = File(bytes: seq<bv8>) | Other(kind: char, target: string)

  datatype Member = Member(name: string, mtime: int, uid: int, gid: int, uname: string, gname: string, mode: int,
                           content: Content)

  /** Some bit of 0o111 is set. */
  predicate Executable(mode: int) {
    mode % 2 == 1 || mode / 8 % 2 == 1 || mode / 64 % 2 == 1
  }

  const OPEN_MODE := 7 * 64 + 5 * 8 + 5
  const PLAIN_MODE := 6 * 64 + 4 * 8 + 4

  function Pinned(m: Member, fixedMtime: int): Member {
    m.(mtime := fixedMtime, uid := 0, gid := 0, uname := "", gname := "",
       mode := if Executable(m.mode) then OPEN_MODE else PLAIN_MODE)
  }

  function PinnedAll(ms: seq<Member>, fixedMtime: int): seq<Member> {
    seq(|ms|, i requires 0 <= i < |ms| => Pinned(ms[i], fixedMtime))
  }

  predicate ByName(a: Member, b: Member) {
    StringOrder.Leq(a.name, b.name)
  }

  function Normalised(ms: seq<Member>, fixedMtime: int): seq<Member> {
    Sort(PinnedAll(ms, fixedMtime), ByName)
  }

  method Normalise(source: seq<Member>, fixedMtime: int) returns (members: seq<Member>)
    ensures members == Normalised(source, fixedMtime)
  {
    members := [];
    for i := 0 to |source|
      invariant members == PinnedAll(source, fixedMtime)[..i]
    {
      var info := source[i];
      info := info.(mtime := fixedMtime);
      info := info.(uid := 0, gid := 0);
      info := info.(uname := "", gname := "");
      info := info.(mode := if Executable(info.mode) then OPEN_MODE else PLAIN_MODE);
      members := members + [info];
    }
    assert members == PinnedAll(source, fixedMtime);
    members := Sort(members, ByName);
  }

  // ----- the pinned fields

  /** Mode `8 * (8 * u + g) + o`, the last digits being those of owner, group and
      others: executable when one of them is odd. */
  lemma ExecutableDigits(u: int, g: nat, o: nat)
    requires g < 8 && o < 8
    ensures Executable(8 * (8 * u + g) + o) <==> u % 2 == 1 || g % 2 == 1 || o % 2 == 1
  {
    var q := 8 * u + g;
    var mode := 8 * q + o;
    LastDigit(q, o);
    LastDigit(u, g);
    assert mode / 64 == mode / 8 / 8;
  }

  lemma LastDigit(q: int, d: nat)
    requires d < 8
    ensures (8 * q + d) / 8 == q && (8 * q + d) % 2 == d % 2
  {}

  /** Each member of the tarball is one of the stream with its name and contents and
      fixed time, owner and permission bits: 0755 when it was executable, else 0644. */
  lemma NormalisedFields(ms: seq<Member>, fixedMtime: int, m: Member)
    requires m in Normalised(ms, fixedMtime)
    ensures exists n :: && n in ms && m.name == n.name && m.content == n.content
                        && m.mode == (if Executable(n.mode) then 493 else 420)
    ensures m.mtime == fixedMtime && m.uid == 0 && m.gid == 0 && m.uname == "" && m.gname == ""
  {
    hide Sort, Executable;
    SortElements(PinnedAll(ms, fixedMtime), ByName);
    assert m in multiset(Normalised(ms, fixedMtime));
    var i :| 0 <= i < |ms| && PinnedAll(ms, fixedMtime)[i] == m;
    assert ms[i] in ms;
  }

  // ----- what the output depends on

  /** The parts of a member that reach the tarball. */
  ghost predicate SameRelease(m: Member, n: Member) {
    m.name == n.name && m.content == n.content && (Executable(m.mode) <==> Executable(n.mode))
  }

  /** The members of one name, in stream order. */
  ghost function Named(ms: seq<Member>, name: string): seq<Member> {
    if ms == [] then [] else (if ms[0].name == name then [ms[0]] else []) + Named(ms[1..], name)
  }

  /** Member for member the same release. */
  ghost predicate SameReleases(a: seq<Member>, b: seq<Member>) {
    |a| == |b| && forall i :: 0 <= i < |a| ==> SameRelease(a[i], b[i])
  }

  ghost predicate DistinctNames(ms: seq<Member>) {
    forall i, j :: 0 <= i < j < |ms| ==> ms[i].name != ms[j].name
  }

  lemma ByNameOrders()
    ensures TotalPreorder(ByName)
  {
    StringOrder.LeqOrders();
  }

  lemma PinnedSame(m: Member, n: Member, fixedMtime: int)
    ensures Pinned(m, fixedMtime) == Pinned(n, fixedMtime) <==> SameRelease(m, n)
    ensures SameRelease(m, Pinned(m, fixedMtime))
  {}

  lemma {:induction false} NamedTies(ms: seq<Member>, k: Member)
    ensures Ties(ms, k, ByName) == Named(ms, k.name)
  {
    if ms != [] {
      NamedTies(ms[1..], k);
      StringOrder.LeqTotal(k.name, k.name);
      if ByName(k, ms[0]) && ByName(ms[0], k) { StringOrder.LeqAntisymmetric(k.name, ms[0].name); }
    }
  }

  lemma {:induction false} NamedPinned(ms: seq<Member>, name: string, fixedMtime: int)
    ensures Named(PinnedAll(ms, fixedMtime), name) == PinnedAll(Named(ms, name), fixedMtime)
  {
    if ms != [] {
      NamedPinned(ms[1..], name, fixedMtime);
      assert PinnedAll(ms, fixedMtime)[1..] == PinnedAll(ms[1..], fixedMtime);
    }
  }

  lemma PinnedAllSame(a: seq<Member>, b: seq<Member>, fixedMtime: int)
    ensures PinnedAll(a, fixedMtime) == PinnedAll(b, fixedMtime) <==> SameReleases(a, b)
  {
    var p, q := PinnedAll(a, fixedMtime), PinnedAll(b, fixedMtime);
    forall i | 0 <= i < |a| && i < |b| ensures p[i] == q[i] <==> SameRelease(a[i], b[i]) {
      PinnedSame(a[i], b[i], fixedMtime);
    }
  }

  ghost predicate NamesAgree(a: seq<Member>, b: seq<Member>) {
    forall name :: SameReleases(Named(a, name), Named(b, name))
  }

  lemma TiesAgree(a: seq<Member>, b: seq<Member>, k: Member, fixedMtime: int)
    ensures Ties(PinnedAll(a, fixedMtime), k, ByName) == Ties(PinnedAll(b, fixedMtime), k, ByName)
      <==> SameReleases(Named(a, k.name), Named(b, k.name))
  {
    hide SameReleases, PinnedAll;
    NamedTies(PinnedAll(a, fixedMtime), k);
    NamedTies(PinnedAll(b, fixedMtime), k);
    NamedPinned(a, k.name, fixedMtime);
    NamedPinned(b, k.name, fixedMtime);
    PinnedAllSame(Named(a, k.name), Named(b, k.name), fixedMtime);
  }

  lemma NormalisedOfAgreeing(a: seq<Member>, b: seq<Member>, fixedMtime: int)
    requires NamesAgree(a, b)
    ensures Normalised(a, fixedMtime) == Normalised(b, fixedMtime)
  {
    hide Sort, SameReleases, PinnedAll, Ties;
    ByNameOrders();
    var p, q := PinnedAll(a, fixedMtime), PinnedAll(b, fixedMtime);
    SortSorted(q, ByName);
    forall k ensures Ties(p, k, ByName) == Ties(Sort(q, ByName), k, ByName) {
      SortStable(q, k, ByName);
      TiesAgree(a, b, k, fixedMtime);
    }
    SortIs(p, Sort(q, ByName), ByName);
  }

  lemma AgreeingOfNormalised(a: seq<Member>, b: seq<Member>, fixedMtime: int)
    requires Normalised(a, fixedMtime) == Normalised(b, fixedMtime)
    ensures NamesAgree(a, b)
  {
    hide Sort, SameReleases, PinnedAll, Ties;
    ByNameOrders();
    forall name ensures SameReleases(Named(a, name), Named(b, name)) {
      var k := Member(name, 0, 0, 0, "", "", 0, File([]));
      SortStable(PinnedAll(a, fixedMtime), k, ByName);
      SortStable(PinnedAll(b, fixedMtime), k, ByName);
      TiesAgree(a, b, k, fixedMtime);
    }
  }

  /** Two streams give one tarball exactly when, name by name, their members are the
      same release in the same order; nothing else about them is visible. */
  lemma NormalisedIsCanonical(a: seq<Member>, b: seq<Member>, fixedMtime: int)
    ensures Normalised(a, fixedMtime) == Normalised(b, fixedMtime) <==> NamesAgree(a, b)
  {
    hide Normalised, NamesAgree;
    if Normalised(a, fixedMtime) == Normalised(b, fixedMtime) { AgreeingOfNormalised(a, b, fixedMtime); }
    if NamesAgree(a, b) { NormalisedOfAgreeing(a, b, fixedMtime); }
  }

  // ----- distinct names

  /** Every member of `a` is released by `b`. */
  ghost predicate Covers(a: seq<Member>, b: seq<Member>) {
    forall m :: m in a ==> exists n :: n in b && SameRelease(m, n)
  }

  lemma {:induction false} NamedOfDistinct(ms: seq<Member>, m: Member)
    requires DistinctNames(ms) && m in ms
    ensures Named(ms, m.name) == [m]
  {
    assert ms == [ms[0]] + ms[1..];
    if ms[0] == m {
      NamedAbsent(ms[1..], m.name);
    } else {
      NamedOfDistinct(ms[1..], m);
    }
  }

  lemma {:induction false} NamedAbsent(ms: seq<Member>, name: string)
    requires forall m :: m in ms ==> m.name != name
    ensures Named(ms, name) == []
  {
    if ms != [] {
      assert ms[0] in ms;
      NamedAbsent(ms[1..], name);
    }
  }

  lemma {:induction false} NamedMembers(ms: seq<Member>, name: string)
    ensures forall m :: m in Named(ms, name) <==> m in ms && m.name == name
  {
    if ms != [] {
      NamedMembers(ms[1..], name);
      assert ms == [ms[0]] + ms[1..];
    }
  }

  /** The members a name has in a stream with distinct names: one or none. */
  lemma NamedShape(ms: seq<Member>, name: string)
    requires DistinctNames(ms)
    ensures Named(ms, name) == [] || exists m :: m in ms && m.name == name && Named(ms, name) == [m]
    ensures Named(ms, name) == [] ==> forall m :: m in ms ==> m.name != name
  {
    hide DistinctNames, Named;
    NamedMembers(ms, name);
    if m :| m in ms && m.name == name {
      NamedOfDistinct(ms, m);
    } else {
      NamedAbsent(ms, name);
    }
  }

  lemma NamedCovered(a: seq<Member>, b: seq<Member>, name: string)
    requires Covers(a, b) && DistinctNames(b) && Named(a, name) != []
    ensures Named(b, name) != [] && SameRelease(Named(a, name)[0], Named(b, name)[0])
  {
    hide DistinctNames, Named, Executable;
    var m := Named(a, name)[0];
    NamedMembers(a, name);
    assert m in Named(a, name);
    var n :| n in b && SameRelease(m, n);
    NamedOfDistinct(b, n);
  }

  lemma NamedAgree(a: seq<Member>, b: seq<Member>, name: string)
    requires DistinctNames(a) && DistinctNames(b) && Covers(a, b) && Covers(b, a)
    ensures SameReleases(Named(a, name), Named(b, name))
  {
    hide DistinctNames, Named, Covers, SameRelease;
    NamedShape(a, name);
    NamedShape(b, name);
    if Named(a, name) != [] { NamedCovered(a, b, name); }
    if Named(b, name) != [] { NamedCovered(b, a, name); }
  }

  lemma NamedCovers(a: seq<Member>, b: seq<Member>)
    requires NamesAgree(a, b)
    ensures Covers(a, b)
  {
    forall m | m in a ensures exists n :: n in b && SameRelease(m, n) {
      NamedMembers(a, m.name);
      NamedMembers(b, m.name);
      assert SameReleases(Named(a, m.name), Named(b, m.name));
      var i :| 0 <= i < |Named(a, m.name)| && Named(a, m.name)[i] == m;
      assert SameRelease(m, Named(b, m.name)[i]);
    }
  }

  /** With distinct names the tarball depends on the set of releases and on nothing
      else: not on the order, times, owners or other permission bits. */
  lemma DistinctNamesCanonical(a: seq<Member>, b: seq<Member>, fixedMtime: int)
    requires DistinctNames(a) && DistinctNames(b)
    ensures Normalised(a, fixedMtime) == Normalised(b, fixedMtime) <==> Covers(a, b) && Covers(b, a)
  {
    hide Normalised, Covers, DistinctNames;
    NormalisedIsCanonical(a, b, fixedMtime);
    if Normalised(a, fixedMtime) == Normalised(b, fixedMtime) {
      NormalisedIsCanonical(b, a, fixedMtime);
      NamedCovers(a, b);
      NamedCovers(b, a);
    }
    if Covers(a, b) && Covers(b, a) {
      forall name ensures SameReleases(Named(a, name), Named(b, name)) { NamedAgree(a, b, name); }
    }
  }

  /** A repeated name keeps the stream order visible. */
  lemma RepeatedNameShowsOrder(fixedMtime: int)
    ensures exists m, n: Member :: Normalised([m, n], fixedMtime) != Normalised([n, m], fixedMtime)
  {
    var m := Member("a", 0, 0, 0, "", "", 0, File([0]));
    var n := m.(content := File([1]));
    hide Normalised;
    NormalisedIsCanonical([m, n], [n, m], fixedMtime);
    assert [m, n][1..] == [n] && [n, m][1..] == [m];
    assert Named([m, n], "a")[0] == m && Named([n, m], "a")[0] == n;
    assert !SameRelease(m, n);
    assert !SameReleases(Named([m, n], "a"), Named([n, m], "a"));
  }

  /** Normalising a normalised stream changes nothing. */
  lemma NormaliseIdempotent(ms: seq<Member>, fixedMtime: int)
    ensures Normalised(Normalised(ms, fixedMtime), fixedMtime) == Normalised(ms, fixedMtime)
  {
    hide Sort, Pinned;
    ByNameOrders();
    var p := PinnedAll(ms, fixedMtime);
    var out := Sort(p, ByName);
    SortElements(p, ByName);
    forall m | m in out ensures Pinned(m, fixedMtime) == m {
      assert m in multiset(out) && m in p;
      var i :| 0 <= i < |ms| && p[i] == m;
      PinnedIsFixed(ms[i], fixedMtime);
    }
    assert PinnedAll(out, fixedMtime) == out;
    SortIdempotent(p, ByName);
  }

  lemma PinnedIsFixed(m: Member, fixedMtime: int)
    ensures Pinned(Pinned(m, fixedMtime), fixedMtime) == Pinned(m, fixedMtime)
  {}

  /** Every member of the stream reaches the tarball once. */
  lemma NormaliseKeepsMembers(ms: seq<Member>, fixedMtime: int)
    ensures multiset(Normalised(ms, fixedMtime)) == multiset(PinnedAll(ms, fixedMtime))
    ensures Sorted(Normalised(ms, fixedMtime), ByName)
  {
    ByNameOrders();
    SortElements(PinnedAll(ms, fixedMtime), ByName);
    SortSorted(PinnedAll(ms, fixedMtime), ByName);
  }
}
