/** Commit order from unordered `old_sha -> new_sha` pairs, and the replay order
    built on it. */
module CommitChain {
  import opened Options
  import opened Sorting
  import StringOrder

  type Package = string
  type Sha = string
  datatype Entry = Entry(pkg: Package, oldSha: Sha, newSha: Sha)

  // ----- what a recovered order is

  /** One unbranched history: every entry starts where the one before it ended,
      no commit is reached twice, and none leads back to the beginning. */
  ghost predicate IsPath(p: seq<Entry>) {
    && p != []
    && (forall i :: 0 <= i < |p| - 1 ==> p[i + 1].oldSha == p[i].newSha)
    && (forall i, j :: 0 <= i < j < |p| ==> p[i].newSha != p[j].newSha)
    && (forall i :: 0 <= i < |p| ==> p[i].newSha != p[0].oldSha)
  }

  /** `p` puts all of `items`, each as often as it occurs, into one path. */
  ghost predicate Arrangement(items: seq<Entry>, p: seq<Entry>) {
    multiset(p) == multiset(items) && IsPath(p)
  }

  // ----- the lookup tables of one package

  /** `{e["old_sha"]: e for e in items}`: the last entry wins. */
  function ByOld(items: seq<Entry>, n: nat): map<Sha, Entry>
    requires n <= |items|
  {
    if n == 0 then map[] else ByOld(items, n - 1)[items[n - 1].oldSha := items[n - 1]]
  }

  function NewShas(items: seq<Entry>): set<Sha> {
    set e | e in items :: e.newSha
  }

  function Starts(items: seq<Entry>, news: set<Sha>, n: nat): seq<Entry>
    requires n <= |items|
  {
    if n == 0 then []
    else Starts(items, news, n - 1) + if items[n - 1].oldSha in news then [] else [items[n - 1]]
  }

  lemma {:induction false} ByOldMeaning(items: seq<Entry>, n: nat)
    requires n <= |items|
    ensures forall k :: k in ByOld(items, n) <==> exists i :: 0 <= i < n && items[i].oldSha == k
    ensures forall k :: k in ByOld(items, n) ==> ByOld(items, n)[k] in items && ByOld(items, n)[k].oldSha == k
  {
    if n > 0 { ByOldMeaning(items, n - 1); }
  }

  lemma {:induction false} StartsMeaning(items: seq<Entry>, news: set<Sha>, n: nat)
    requires n <= |items|
    ensures forall e :: e in Starts(items, news, n) ==> e in items && e.oldSha !in news
    ensures forall e: Entry :: e.oldSha !in news ==> multiset(Starts(items, news, n))[e] == multiset(items[..n])[e]
  {
    if n > 0 {
      StartsMeaning(items, news, n - 1);
      assert items[..n] == items[..n - 1] + [items[n - 1]];
    } else {
      assert items[..0] == [];
    }
  }

  // ----- an arrangement is what the tables say

  lemma SameMembers(a: seq<Entry>, b: seq<Entry>)
    requires multiset(a) == multiset(b)
    ensures forall e :: e in a <==> e in b
    ensures |a| == |b|
  {
    assert forall e :: e in a <==> e in multiset(a);
    assert forall e :: e in b <==> e in multiset(b);
    assert |multiset(a)| == |a| && |multiset(b)| == |b|;
  }

  lemma {:induction false} AllEqual(s: seq<Entry>, e: Entry)
    requires forall i :: 0 <= i < |s| ==> s[i] == e
    ensures multiset(s)[e] == |s|
  {
    if s != [] {
      AllEqual(s[1..], e);
      assert s == [s[0]] + s[1..];
    }
  }

  lemma CountInPath(p: seq<Entry>, i: nat)
    requires IsPath(p) && i < |p|
    ensures multiset(p)[p[i]] == 1
  {
    assert p == p[..i] + [p[i]] + p[i + 1..];
    assert p[i] !in p[..i] && p[i] !in p[i + 1..];
  }

  /** In an arrangement only the first entry starts outside the new commits. */
  lemma OnlyFirstStarts(items: seq<Entry>, p: seq<Entry>, i: nat)
    requires Arrangement(items, p) && i < |p|
    ensures p[i].oldSha in NewShas(items) <==> i > 0
  {
    SameMembers(items, p);
    if i > 0 {
      assert p[(i - 1) + 1].oldSha == p[i - 1].newSha;
      assert p[i - 1] in p && p[i - 1] in items;
    }
  }

  /** The first entry of an arrangement is the only start. */
  lemma StartOfArrangement(items: seq<Entry>, p: seq<Entry>)
    requires Arrangement(items, p)
    ensures p != [] && Starts(items, NewShas(items), |items|) == [p[0]]
  {
    hide Starts, NewShas;
    var starts := Starts(items, NewShas(items), |items|);
    SameMembers(items, p);
    StartsMeaning(items, NewShas(items), |items|);
    assert items[..|items|] == items;
    OnlyFirstStarts(items, p, 0);
    CountInPath(p, 0);
    assert multiset(starts)[p[0]] == 1;
    forall j | 0 <= j < |starts| ensures starts[j] == p[0] {
      assert starts[j] in starts;
      var i: nat :| i < |p| && p[i] == starts[j];
      OnlyFirstStarts(items, p, i);
    }
    AllEqual(starts, p[0]);
  }

  /** The old commits of a path are its beginning and its new commits but the last. */
  lemma OldShasOfPath(p: seq<Entry>, i: nat, j: nat)
    requires IsPath(p) && i < |p| && j < |p|
    ensures p[j].oldSha == p[i].newSha <==> j == i + 1
  {
    if j > 0 {
      assert p[(j - 1) + 1].oldSha == p[j - 1].newSha;
    }
  }

  /** Looking up where an entry ended finds its successor, and nothing at the end. */
  lemma NextInArrangement(items: seq<Entry>, p: seq<Entry>, i: nat)
    requires Arrangement(items, p) && i < |p|
    ensures i + 1 < |p| ==> p[i].newSha in ByOld(items, |items|) && ByOld(items, |items|)[p[i].newSha] == p[i + 1]
    ensures i + 1 == |p| ==> p[i].newSha !in ByOld(items, |items|)
  {
    SameMembers(items, p);
    ByOldMeaning(items, |items|);
    var k := p[i].newSha;
    if i + 1 < |p| {
      assert p[i + 1] in items;
      var j :| 0 <= j < |items| && items[j] == p[i + 1];
      assert items[j].oldSha == k;
    }
    if k in ByOld(items, |items|) {
      var e := ByOld(items, |items|)[k];
      assert e in p;
      var j :| 0 <= j < |p| && p[j] == e;
      OldShasOfPath(p, i, j);
    }
  }

  /** There is at most one arrangement: the order is recovered, not chosen. */
  lemma ArrangementUnique(items: seq<Entry>, p: seq<Entry>, q: seq<Entry>)
    requires Arrangement(items, p) && Arrangement(items, q)
    ensures p == q
  {
    SameMembers(items, p);
    SameMembers(items, q);
    PrefixesAgree(items, p, q, |p|);
  }

  lemma {:induction false} PrefixesAgree(items: seq<Entry>, p: seq<Entry>, q: seq<Entry>, n: nat)
    requires Arrangement(items, p) && Arrangement(items, q) && n <= |p| && |p| == |q|
    ensures p[..n] == q[..n]
  {
    if n == 1 {
      StartOfArrangement(items, p);
      StartOfArrangement(items, q);
    } else if n > 1 {
      PrefixesAgree(items, p, q, n - 1);
      NextInArrangement(items, p, n - 2);
      NextInArrangement(items, q, n - 2);
      assert p[n - 2] == p[..n - 1][n - 2] == q[n - 2];
    }
  }

  /** Distinct members of `items`, as many as there are items, are all of them. */
  lemma EnoughMembers(items: seq<Entry>, ordered: seq<Entry>)
    requires |ordered| == |items|
    requires forall e :: e in ordered ==> e in items
    requires forall i, j :: 0 <= i < j < |ordered| ==> ordered[i] != ordered[j]
    ensures multiset(ordered) == multiset(items)
  {
    DistinctCounts(ordered);
    assert multiset(ordered) <= multiset(items) by {
      forall e ensures multiset(ordered)[e] <= multiset(items)[e] {
        if e in multiset(ordered) { assert e in ordered; assert e in multiset(items); }
      }
    }
    var rest := multiset(items) - multiset(ordered);
    assert multiset(items) == multiset(ordered) + rest;
    assert |rest| == 0;
  }

  lemma {:induction false} DistinctCounts(s: seq<Entry>)
    requires forall i, j :: 0 <= i < j < |s| ==> s[i] != s[j]
    ensures forall e :: multiset(s)[e] <= 1
  {
    if s != [] {
      DistinctCounts(s[1..]);
      assert s == [s[0]] + s[1..];
      assert s[0] !in s[1..];
      assert multiset(s[1..])[s[0]] == 0;
    }
  }

  // ----- the walk

  /** The order of one package's entries: found exactly when they can be arranged
      as one path, and then it is that arrangement. The walk ends on every input,
      cycles and branches included: `seen` grows inside a finite set. */
  method RecoverChain(items: seq<Entry>) returns (r: Option<seq<Entry>>)
    ensures r.Some? ==> Arrangement(items, r.value)
    ensures forall p :: Arrangement(items, p) ==> r == Some(p)
  {
    hide ByOld, Starts, IsPath, Arrangement, Walked, OnTrack;
    var byOld := ByOld(items, |items|);
    var newShas := NewShas(items);
    var starts := Starts(items, newShas, |items|);
    if |starts| != 1 {
      forall p | Arrangement(items, p) ensures false { StartOfArrangement(items, p); }
      return None;
    }
    StartsMeaning(items, newShas, |items|);
    ByOldMeaning(items, |items|);
    var ordered: seq<Entry>, seen: set<Sha> := [], {};
    var cur := Some(starts[0]);
    WalkStart(items, starts[0]);
    forall p | Arrangement(items, p) ensures OnTrack(p, ordered, cur) { TrackStart(items, p); }
    while cur.Some? && cur.value.newSha !in seen
      invariant Walked(items, starts[0], ordered, seen)
      invariant cur.Some? ==> cur.value in items
      invariant ordered == [] ==> cur == Some(starts[0])
      invariant cur.Some? && ordered != [] ==> cur.value.oldSha == ordered[|ordered| - 1].newSha
      invariant forall p :: Arrangement(items, p) ==> OnTrack(p, ordered, cur)
      decreases |newShas - seen|
    {
      var e := cur.value;
      forall p | Arrangement(items, p) ensures OnTrack(p, ordered + [e], Lookup(byOld, e.newSha)) {
        TrackStep(items, p, ordered, e);
      }
      WalkStep(items, starts[0], ordered, seen, e);
      Progress(newShas, seen, e.newSha);
      ordered := ordered + [e];
      seen := seen + {e.newSha};
      cur := Lookup(byOld, e.newSha);
    }
    forall p | Arrangement(items, p) ensures ordered == p { TrackEnd(items, starts[0], p, ordered, seen, cur); }
    if |ordered| == |items| {
      if ordered == [] { StartsFromItems(items, newShas); }
      WalkIsArrangement(items, starts[0], ordered, seen);
      r := Some(ordered);
    } else {
      forall p | Arrangement(items, p) ensures false { ArrangementLength(items, p); }
      r := None;
    }
  }

  lemma Progress(all: set<Sha>, seen: set<Sha>, k: Sha)
    requires k in all && k !in seen
    ensures |all - (seen + {k})| < |all - seen|
  {
    assert all - seen == (all - (seen + {k})) + {k};
  }

  lemma StartsFromItems(items: seq<Entry>, news: set<Sha>)
    requires |Starts(items, news, |items|)| == 1
    ensures items != []
  {}

  lemma ArrangementLength(items: seq<Entry>, p: seq<Entry>)
    requires Arrangement(items, p)
    ensures |p| == |items|
  {
    SameMembers(items, p);
  }

  lemma WalkStart(items: seq<Entry>, start: Entry)
    ensures Walked(items, start, [], {})
  {}

  lemma TrackStart(items: seq<Entry>, p: seq<Entry>)
    requires Arrangement(items, p)
    ensures Starts(items, NewShas(items), |items|) == [p[0]] && OnTrack(p, [], Some(p[0]))
  {
    StartOfArrangement(items, p);
  }

  function Lookup(m: map<Sha, Entry>, k: Sha): Option<Entry> {
    if k in m then Some(m[k]) else None
  }

  /** What has been emitted is a linked chain of distinct items from the start. */
  ghost predicate Walked(items: seq<Entry>, start: Entry, ordered: seq<Entry>, seen: set<Sha>) {
    && (forall e :: e in ordered ==> e in items)
    && (forall i :: 0 <= i < |ordered| ==> ordered[i].newSha in seen)
    && (forall k :: k in seen ==> exists i :: 0 <= i < |ordered| && ordered[i].newSha == k)
    && (forall i, j :: 0 <= i < j < |ordered| ==> ordered[i].newSha != ordered[j].newSha)
    && (ordered != [] ==> ordered[0] == start)
    && (forall i :: 0 <= i < |ordered| - 1 ==> ordered[i + 1].oldSha == ordered[i].newSha)
  }

  lemma WalkStep(items: seq<Entry>, start: Entry, ordered: seq<Entry>, seen: set<Sha>, cur: Entry)
    requires Walked(items, start, ordered, seen) && cur in items && cur.newSha !in seen
    requires ordered == [] ==> cur == start
    requires ordered != [] ==> cur.oldSha == ordered[|ordered| - 1].newSha
    ensures Walked(items, start, ordered + [cur], seen + {cur.newSha})
  {
    var next, now := ordered + [cur], seen + {cur.newSha};
    forall k | k in now ensures exists i :: 0 <= i < |next| && next[i].newSha == k {
      if k in seen {
        var i :| 0 <= i < |ordered| && ordered[i].newSha == k;
        assert next[i].newSha == k;
      } else {
        assert next[|ordered|].newSha == k;
      }
    }
  }

  lemma WalkIsArrangement(items: seq<Entry>, start: Entry, ordered: seq<Entry>, seen: set<Sha>)
    requires Walked(items, start, ordered, seen) && |ordered| == |items| && ordered != []
    requires start.oldSha !in NewShas(items)
    ensures Arrangement(items, ordered)
  {
    EnoughMembers(items, ordered);
    forall i | 0 <= i < |ordered| ensures ordered[i].newSha != ordered[0].oldSha {
      assert ordered[i] in ordered;
    }
  }

  /** The walk so far is a prefix of the arrangement and `cur` comes next. */
  ghost predicate OnTrack(p: seq<Entry>, ordered: seq<Entry>, cur: Option<Entry>) {
    && ordered <= p
    && cur == if |ordered| < |p| then Some(p[|ordered|]) else None
  }

  lemma TrackStep(items: seq<Entry>, p: seq<Entry>, ordered: seq<Entry>, cur: Entry)
    requires Arrangement(items, p) && OnTrack(p, ordered, Some(cur))
    ensures OnTrack(p, ordered + [cur], Lookup(ByOld(items, |items|), cur.newSha))
  {
    NextInArrangement(items, p, |ordered|);
  }

  lemma TrackEnd(items: seq<Entry>, start: Entry, p: seq<Entry>, ordered: seq<Entry>, seen: set<Sha>,
                 cur: Option<Entry>)
    requires Arrangement(items, p) && OnTrack(p, ordered, cur) && Walked(items, start, ordered, seen)
    requires cur.None? || cur.value.newSha in seen
    ensures ordered == p
  {
  }

  // ----- the index over all packages

  function ForPackage(entries: seq<Entry>, pkg: Package, n: nat): seq<Entry>
    requires n <= |entries|
  {
    if n == 0 then []
    else ForPackage(entries, pkg, n - 1) + if entries[n - 1].pkg == pkg then [entries[n - 1]] else []
  }

  /** The manifest entries of one package, in manifest order. */
  function Entries(entries: seq<Entry>, pkg: Package): seq<Entry> {
    ForPackage(entries, pkg, |entries|)
  }

  function Cut(s: string, n: nat): string {
    if |s| <= n then s else s[..n]
  }

  /** The name of a diff file: both commits cut to twelve characters. */
  function Stem(pkg: Package, e: Entry): string {
    pkg + "__" + Cut(e.oldSha, 12) + ".." + Cut(e.newSha, 12)
  }

  function Stems(pkg: Package, p: seq<Entry>): seq<string> {
    seq(|p|, i requires 0 <= i < |p| => Stem(pkg, p[i]))
  }

  /** `p` is the whole history of a package: one path of all its manifest entries, each
      as often as it is there, and of no others. */
  ghost predicate History(entries: seq<Entry>, pkg: Package, p: seq<Entry>) {
    IsPath(p) && forall e: Entry :: multiset(p)[e] == if e.pkg == pkg then multiset(entries)[e] else 0
  }

  /** The first twelve characters, or all of a shorter name. */
  ghost predicate Shortens(s: string, short: string) {
    short <= s && (|short| == 12 || (|short| < 12 && short == s))
  }

  /** The name a diff file has: package, two underscores, the two shortened commits
      with two dots between them. */
  ghost predicate NamesDiff(pkg: Package, e: Entry, name: string) {
    exists a, b :: Shortens(e.oldSha, a) && Shortens(e.newSha, b) && name == pkg + "__" + a + ".." + b
  }

  ghost predicate NamesDiffs(pkg: Package, p: seq<Entry>, names: seq<string>) {
    |names| == |p| && forall i :: 0 <= i < |p| ==> NamesDiff(pkg, p[i], names[i])
  }

  lemma StemNamesDiff(pkg: Package, e: Entry)
    ensures NamesDiff(pkg, e, Stem(pkg, e))
  {
    assert Shortens(e.oldSha, Cut(e.oldSha, 12)) && Shortens(e.newSha, Cut(e.newSha, 12));
  }

  lemma CountSnoc(s: seq<Entry>, last: Entry, e: Entry)
    ensures multiset(s + [last])[e] == multiset(s)[e] + if last == e then 1 else 0
  {}

  lemma {:induction false} ForPackageCounts(entries: seq<Entry>, pkg: Package, n: nat, e: Entry)
    requires n <= |entries|
    ensures multiset(ForPackage(entries, pkg, n))[e] == if e.pkg == pkg then multiset(entries[..n])[e] else 0
  {
    if n > 0 {
      ForPackageCounts(entries, pkg, n - 1, e);
      assert entries[..n] == entries[..n - 1] + [entries[n - 1]];
      var mine := ForPackage(entries, pkg, n - 1);
      var last := entries[n - 1];
      CountSnoc(mine, last, e);
      CountSnoc(entries[..n - 1], last, e);
      assert ForPackage(entries, pkg, n) == if last.pkg == pkg then mine + [last] else mine;
      hide ForPackage;
    }
  }

  lemma ArrangementIsHistory(entries: seq<Entry>, pkg: Package, p: seq<Entry>)
    ensures Arrangement(Entries(entries, pkg), p) <==> History(entries, pkg, p)
  {
    hide IsPath;
    var items := Entries(entries, pkg);
    forall e: Entry ensures multiset(items)[e] == if e.pkg == pkg then multiset(entries)[e] else 0 {
      ForPackageCounts(entries, pkg, |entries|, e);
      assert entries[..|entries|] == entries;
    }
    if History(entries, pkg, p) {
      assert forall e: Entry :: multiset(p)[e] == multiset(items)[e];
    }
  }

  /** A package is in the index exactly when its entries form one path, and is
      then listed in the order of that path. */
  lemma IndexMeaning(entries: seq<Entry>, index: map<Package, seq<string>>)
    requires forall pkg :: pkg in index <==> exists p :: Arrangement(Entries(entries, pkg), p)
    requires forall pkg, p :: pkg in index && Arrangement(Entries(entries, pkg), p) ==> index[pkg] == Stems(pkg, p)
    ensures forall pkg :: pkg in index <==> exists p :: History(entries, pkg, p)
    ensures forall pkg, p :: pkg in index && History(entries, pkg, p) ==> NamesDiffs(pkg, p, index[pkg])
  {
    hide History, Arrangement, NamesDiff, Stem;
    forall pkg ensures pkg in index <==> exists p :: History(entries, pkg, p) {
      if p :| History(entries, pkg, p) { ArrangementIsHistory(entries, pkg, p); }
      if pkg in index {
        var p :| Arrangement(Entries(entries, pkg), p);
        ArrangementIsHistory(entries, pkg, p);
      }
    }
    forall pkg, p | pkg in index && History(entries, pkg, p) ensures NamesDiffs(pkg, p, index[pkg]) {
      ArrangementIsHistory(entries, pkg, p);
      forall i | 0 <= i < |p| ensures NamesDiff(pkg, p[i], index[pkg][i]) { StemNamesDiff(pkg, p[i]); }
    }
  }

  method BuildChainIndex(entries: seq<Entry>) returns (index: map<Package, seq<string>>)
    ensures forall pkg :: pkg in index <==> exists p :: History(entries, pkg, p)
    ensures forall pkg, p :: pkg in index && History(entries, pkg, p) ==> NamesDiffs(pkg, p, index[pkg])
    ensures forall pkg :: pkg in index <==> exists p :: Arrangement(Entries(entries, pkg), p)
    ensures forall pkg, p :: pkg in index && Arrangement(Entries(entries, pkg), p) ==> index[pkg] == Stems(pkg, p)
  {
    hide Stems, IsPath, Arrangement, Indexed, History, NamesDiffs;
    var byPkg: map<Package, seq<Entry>> := map[];
    var n := 0;
    while n < |entries|
      invariant 0 <= n <= |entries|
      invariant forall pkg :: ForPackage(entries, pkg, n) == Items(byPkg, pkg)
    {
      var pkg := entries[n].pkg;
      byPkg := byPkg[pkg := Items(byPkg, pkg) + [entries[n]]];
      n := n + 1;
    }
    index := map[];
    var todo := byPkg.Keys;
    while todo != {}
      invariant todo <= byPkg.Keys
      invariant forall pkg :: pkg in index ==> pkg in byPkg.Keys - todo
      invariant forall pkg :: pkg in byPkg.Keys - todo ==> Indexed(byPkg[pkg], pkg, index)
      decreases |todo|
    {
      var pkg :| pkg in todo;
      var chain := RecoverChain(byPkg[pkg]);
      ghost var before := index;
      if chain.Some? {
        index := index[pkg := Stems(pkg, chain.value)];
      }
      todo := todo - {pkg};
      IndexedNow(byPkg[pkg], pkg, index, chain);
      forall other | other in byPkg.Keys - todo && other != pkg ensures Indexed(byPkg[other], other, index) {
        IndexedStill(byPkg[other], other, before, index);
      }
    }
    forall pkg ensures Indexed(Entries(entries, pkg), pkg, index) {
      if pkg !in byPkg { IndexedNone(pkg, index); }
    }
    IndexedAll(entries, index);
    IndexMeaning(entries, index);
  }

  function Items(byPkg: map<Package, seq<Entry>>, pkg: Package): seq<Entry> {
    if pkg in byPkg then byPkg[pkg] else []
  }

  lemma IndexedNow(items: seq<Entry>, pkg: Package, index: map<Package, seq<string>>, chain: Option<seq<Entry>>)
    requires chain.Some? ==> Arrangement(items, chain.value) && pkg in index && index[pkg] == Stems(pkg, chain.value)
    requires chain.None? ==> pkg !in index
    requires forall p :: Arrangement(items, p) ==> chain == Some(p)
    ensures Indexed(items, pkg, index)
  {
    hide Stems, Arrangement;
  }

  lemma IndexedStill(items: seq<Entry>, pkg: Package, before: map<Package, seq<string>>,
                     index: map<Package, seq<string>>)
    requires Indexed(items, pkg, before)
    requires pkg in before <==> pkg in index
    requires pkg in before ==> before[pkg] == index[pkg]
    ensures Indexed(items, pkg, index)
  {
    hide Stems, Arrangement;
  }

  lemma IndexedNone(pkg: Package, index: map<Package, seq<string>>)
    requires pkg !in index
    ensures Indexed([], pkg, index)
  {
    forall p | Arrangement([], p) ensures false { ArrangementLength([], p); }
  }

  lemma IndexedAll(entries: seq<Entry>, index: map<Package, seq<string>>)
    requires forall pkg :: Indexed(Entries(entries, pkg), pkg, index)
    ensures forall pkg :: pkg in index <==> exists p :: Arrangement(Entries(entries, pkg), p)
    ensures forall pkg, p :: pkg in index && Arrangement(Entries(entries, pkg), p) ==> index[pkg] == Stems(pkg, p)
  {
    hide Stems, Arrangement, Entries;
    forall pkg, p | pkg in index && Arrangement(Entries(entries, pkg), p) ensures index[pkg] == Stems(pkg, p) {
      assert Indexed(Entries(entries, pkg), pkg, index);
    }
    forall pkg ensures pkg in index <==> exists p :: Arrangement(Entries(entries, pkg), p) {
      var items := Entries(entries, pkg);
      assert Indexed(items, pkg, index);
      if pkg in index { var p :| Arrangement(items, p); }
    }
  }

  ghost predicate Indexed(items: seq<Entry>, pkg: Package, index: map<Package, seq<string>>) {
    && (pkg in index <==> exists p :: Arrangement(items, p))
    && forall p :: Arrangement(items, p) ==> pkg in index && index[pkg] == Stems(pkg, p)
  }

  // ----- the replay order

  datatype File = File(path: string, stem: string)

  /** `{stem: i for i, stem in enumerate(stems)}`. */
  function Rank(stems: seq<string>, n: nat): map<string, nat>
    requires n <= |stems|
  {
    if n == 0 then map[] else Rank(stems, n - 1)[stems[n - 1] := n - 1]
  }

  function RankOf(stems: seq<string>, stem: string): nat {
    var rank := Rank(stems, |stems|);
    if stem in rank then rank[stem] else 0
  }

  function ByRank(stems: seq<string>): (File, File) -> bool {
    (a: File, b: File) => RankOf(stems, a.stem) <= RankOf(stems, b.stem)
  }

  predicate ByStem(a: File, b: File) {
    StringOrder.Leq(a.stem, b.stem)
  }

  function OrderByChain(files: seq<File>, stems: seq<string>): (seq<File>, bool) {
    if stems == [] then (Sort(files, ByStem), false)
    else if exists i :: 0 <= i < |files| && files[i].stem !in Rank(stems, |stems|) then (Sort(files, ByStem), false)
    else (Sort(files, ByRank(stems)), true)
  }

  lemma {:induction false} RankMeaning(stems: seq<string>, n: nat)
    requires n <= |stems|
    ensures forall s :: s in Rank(stems, n) <==> s in stems[..n]
    ensures forall s :: s in Rank(stems, n) ==>
              Rank(stems, n)[s] < n && stems[Rank(stems, n)[s]] == s
              && forall j :: Rank(stems, n)[s] < j < n ==> stems[j] != s
  {
    if n > 0 {
      RankMeaning(stems, n - 1);
      assert stems[..n] == stems[..n - 1] + [stems[n - 1]];
    }
  }

  lemma OrdersTotal(stems: seq<string>)
    ensures TotalPreorder(ByRank(stems)) && TotalPreorder(ByStem)
  {
    hide RankOf;
    StringOrder.LeqOrders();
    assert forall a, b, c :: ByRank(stems)(a, b) && ByRank(stems)(b, c) ==> ByRank(stems)(a, c);
    forall a, b, c | ByStem(a, b) && ByStem(b, c) ensures ByStem(a, c) {
      StringOrder.LeqTransitive(a.stem, b.stem, c.stem);
    }
    forall a, b ensures ByStem(a, b) || ByStem(b, a) { StringOrder.LeqTotal(a.stem, b.stem); }
  }

  /** The chain is used exactly when there is one and it knows every file; no file
      is lost either way; files follow the chain, or their names on fallback. */
  lemma OrderByChainMeaning(files: seq<File>, stems: seq<string>)
    ensures var (ordered, used) := OrderByChain(files, stems);
            && (used <==> stems != [] && forall f :: f in files ==> f.stem in stems)
            && multiset(ordered) == multiset(files)
            && (used ==> forall i, j :: 0 <= i < j < |ordered| ==>
                RankOf(stems, ordered[i].stem) <= RankOf(stems, ordered[j].stem))
            && (!used ==> forall i, j :: 0 <= i < j < |ordered| ==> StringOrder.Leq(ordered[i].stem, ordered[j].stem))
  {
    hide RankOf, Sort, StringOrder.Leq;
    RankMeaning(stems, |stems|);
    assert stems[..|stems|] == stems;
    OrdersTotal(stems);
    SortElements(files, ByStem);
    SortElements(files, ByRank(stems));
    SortSorted(files, ByStem);
    SortSorted(files, ByRank(stems));
    var (ordered, used) := OrderByChain(files, stems);
    if used {
      assert forall i, j :: 0 <= i < j < |ordered| ==> ByRank(stems)(ordered[i], ordered[j]);
    } else {
      assert forall i, j :: 0 <= i < j < |ordered| ==> ByStem(ordered[i], ordered[j]);
    }
  }

  function StemsOf(files: seq<File>): (r: seq<string>)
    ensures |r| == |files| && forall i :: 0 <= i < |files| ==> r[i] == files[i].stem
  {
    if files == [] then [] else [files[0].stem] + StemsOf(files[1..])
  }

  lemma {:induction false} StemsOfInserted(x: File, s: seq<File>, leq: (File, File) -> bool)
    ensures multiset(StemsOf(Insert(x, s, leq))) == multiset{x.stem} + multiset(StemsOf(s))
  {
    if s == [] || leq(x, s[0]) {
      assert ([x] + s)[1..] == s;
    } else {
      StemsOfInserted(x, s[1..], leq);
      assert ([s[0]] + Insert(x, s[1..], leq))[1..] == Insert(x, s[1..], leq);
    }
  }

  lemma {:induction false} StemsOfSorted(s: seq<File>, leq: (File, File) -> bool)
    ensures multiset(StemsOf(Sort(s, leq))) == multiset(StemsOf(s))
  {
    if s != [] {
      StemsOfSorted(s[1..], leq);
      StemsOfInserted(s[0], Sort(s[1..], leq), leq);
    }
  }

  /** A permutation in the same strict order is the same sequence. */
  lemma {:induction false} SameOrderSame(s: seq<string>, t: seq<string>, key: string -> nat)
    requires multiset(s) == multiset(t)
    requires forall i, j :: 0 <= i < j < |s| ==> key(s[i]) <= key(s[j])
    requires forall i, j :: 0 <= i < j < |t| ==> key(t[i]) < key(t[j])
    ensures s == t
  {
    assert |s| == |multiset(s)| == |multiset(t)| == |t|;
    if s != [] {
      assert s[0] == t[0] by { SameHead(s, t, key); }
      assert s == [s[0]] + s[1..] && t == [t[0]] + t[1..];
      assert multiset(s[1..]) == multiset(s) - multiset{s[0]};
      assert multiset(t[1..]) == multiset(t) - multiset{t[0]};
      SameOrderSame(s[1..], t[1..], key);
    }
  }

  lemma SameHead(s: seq<string>, t: seq<string>, key: string -> nat)
    requires multiset(s) == multiset(t) && s != [] && t != []
    requires forall i, j :: 0 <= i < j < |s| ==> key(s[i]) <= key(s[j])
    requires forall i, j :: 0 <= i < j < |t| ==> key(t[i]) < key(t[j])
    ensures s[0] == t[0]
  {
    assert s[0] in multiset(t) && t[0] in multiset(s);
    var i :| 0 <= i < |t| && t[i] == s[0];
    var j :| 0 <= j < |s| && s[j] == t[0];
    assert key(t[0]) <= key(t[i]) && key(s[0]) <= key(s[j]);
  }

  /** The point of the index: when every entry of a package has one diff file and
      the shortened names are distinct, the files are replayed in commit order,
      whatever order the manifest and the directory list them in. */
  lemma ReplayInCommitOrder(items: seq<Entry>, pkg: Package, p: seq<Entry>, files: seq<File>)
    requires Arrangement(items, p)
    requires multiset(StemsOf(files)) == multiset(Stems(pkg, p))
    requires forall i, j :: 0 <= i < j < |p| ==> Stem(pkg, p[i]) != Stem(pkg, p[j])
    ensures var (ordered, used) := OrderByChain(files, Stems(pkg, p));
            && used && multiset(ordered) == multiset(files)
            && StemsOf(ordered) == Stems(pkg, p)
  {
    hide Stem, IsPath;
    var stems := Stems(pkg, p);
    assert |stems| == |p| > 0 by { StartOfArrangement(items, p); }
    assert forall i, j :: 0 <= i < j < |stems| ==> stems[i] != stems[j];
    FilesInOrder(files, stems);
  }

  lemma FilesInOrder(files: seq<File>, stems: seq<string>)
    requires stems != [] && multiset(StemsOf(files)) == multiset(stems)
    requires forall i, j :: 0 <= i < j < |stems| ==> stems[i] != stems[j]
    ensures var (ordered, used) := OrderByChain(files, stems);
            used && multiset(ordered) == multiset(files) && StemsOf(ordered) == stems
  {
    hide Sort, Rank, RankOf, StemsOf, StringOrder.Leq;
    forall f | f in files ensures f.stem in stems {
      var i :| 0 <= i < |files| && files[i] == f;
      assert StemsOf(files)[i] == f.stem;
      assert f.stem in multiset(StemsOf(files));
    }
    OrderByChainMeaning(files, stems);
    var (ordered, used) := OrderByChain(files, stems);
    assert used && ordered == Sort(files, ByRank(stems));
    StemsOfSorted(files, ByRank(stems));
    RankIsPosition(stems);
    var key := (s: string) => RankOf(stems, s);
    assert forall i :: 0 <= i < |stems| ==> key(stems[i]) == i;
    SameOrderSame(StemsOf(ordered), stems, key);
  }

  lemma RankIsPosition(stems: seq<string>)
    requires forall i, j :: 0 <= i < j < |stems| ==> stems[i] != stems[j]
    ensures forall i :: 0 <= i < |stems| ==> RankOf(stems, stems[i]) == i
  {
    hide Rank;
    RankMeaning(stems, |stems|);
    assert stems[..|stems|] == stems;
    forall i | 0 <= i < |stems| ensures RankOf(stems, stems[i]) == i {
      assert stems[i] in stems;
      assert stems[RankOf(stems, stems[i])] == stems[i];
    }
  }
}
