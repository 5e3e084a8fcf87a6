/** Truncation of a host to DNS limits, its parent domains, and the bucket lookup
    that tests the parents against sets. */
module Domains {
  import opened Hosts
  import opened Options

  const MAX_HOST_BYTES := 253
  const MAX_HOST_LABELS := 127

  // ----- labels

  function Labels(s: string): (ls: seq<string>)
    ensures ls != []
    decreases |s|
  {
    if '.' in s then [BeforeFirst(s, '.')] + Labels(s[IndexOf(s, '.') + 1..]) else [s]
  }

  function Join(ls: seq<string>): string
    requires ls != []
  {
    if |ls| == 1 then ls[0] else ls[0] + "." + Join(ls[1..])
  }

  function DotCount(s: string): nat {
    if s == "" then 0 else (if s[0] == '.' then 1 else 0) + DotCount(s[1..])
  }

  /** `t` is `s` or what follows one of its dots. */
  ghost predicate Aligned(s: string, t: string) {
    t == s || exists i :: 0 <= i < |s| && s[i] == '.' && t == s[i + 1..]
  }

  /** At most 127 labels and 253 characters. */
  predicate Fits(t: string) {
    DotCount(t) + 1 <= 127 && |t| <= 253
  }

  lemma {:induction false} JoinLabels(s: string)
    ensures Join(Labels(s)) == s
    decreases |s|
  {
    hide Labels, IndexOf;
    LabelsStep(s);
    if '.' in s {
      var i := IndexOf(s, '.');
      JoinLabels(s[i + 1..]);
      JoinCons(s[..i], Labels(s[i + 1..]));
      SplitAt(s, i);
    }
  }

  lemma JoinCons(head: string, tail: seq<string>)
    requires tail != []
    ensures Join([head] + tail) == head + "." + Join(tail)
  {
    assert ([head] + tail)[1..] == tail;
  }

  lemma SplitAt(s: string, i: nat)
    requires i < |s| && s[i] == '.'
    ensures s == s[..i] + "." + s[i + 1..]
  {}

  lemma {:induction false} NoDots(s: string)
    ensures DotCount(s) == 0 <==> '.' !in s
  {
    if s != "" {
      NoDots(s[1..]);
      assert s == [s[0]] + s[1..];
    }
  }

  lemma {:induction false} DotCountSplit(s: string, i: nat)
    requires i < |s| && s[i] == '.' && forall j :: 0 <= j < i ==> s[j] != '.'
    ensures DotCount(s) == 1 + DotCount(s[i + 1..])
  {
    if i > 0 {
      DotCountSplit(s[1..], i - 1);
      assert s[1..][i..] == s[i + 1..];
    }
  }

  /** The first label and the rest. */
  lemma LabelsStep(s: string)
    ensures '.' !in s ==> Labels(s) == [s]
    ensures '.' in s ==> IndexOf(s, '.') < |s|
                         && Labels(s) == [s[..IndexOf(s, '.')]] + Labels(s[IndexOf(s, '.') + 1..])
                         && Labels(s)[1..] == Labels(s[IndexOf(s, '.') + 1..])
  {
    if '.' in s {
      var tail := Labels(s[IndexOf(s, '.') + 1..]);
      assert Labels(s) == [BeforeFirst(s, '.')] + tail;
      assert ([BeforeFirst(s, '.')] + tail)[1..] == tail;
    }
  }

  lemma {:induction false} LabelCount(s: string)
    ensures |Labels(s)| == DotCount(s) + 1
    decreases |s|
  {
    hide Labels, DotCount, IndexOf;
    NoDots(s);
    LabelsStep(s);
    if '.' in s {
      var i := IndexOf(s, '.');
      LabelCount(s[i + 1..]);
      DotCountSplit(s, i);
    }
  }

  /** The label list of a suffix after the first `k` labels. */
  lemma {:induction false} LabelsSuffix(s: string, k: nat)
    requires k < |Labels(s)|
    ensures var t := Join(Labels(s)[k..]);
            Labels(t) == Labels(s)[k..] && Aligned(s, t) && |t| <= |s| - k
    decreases |s|
  {
    hide Labels, Join, IndexOf, Aligned;
    JoinLabels(s);
    if k == 0 {
      Itself(s);
      assert Labels(s)[0..] == Labels(s);
    } else {
      LabelsStep(s);
      var i := IndexOf(s, '.');
      var rest := s[i + 1..];
      assert Labels(s)[k..] == Labels(rest)[k - 1..];
      LabelsSuffix(rest, k - 1);
      AlignedThrough(s, i, Join(Labels(rest)[k - 1..]));
    }
  }

  lemma Itself(s: string)
    ensures Aligned(s, s)
  {}

  lemma AlignedThrough(s: string, i: nat, t: string)
    requires i < |s| && s[i] == '.' && Aligned(s[i + 1..], t)
    ensures Aligned(s, t)
  {
    var rest := s[i + 1..];
    if t != rest {
      var j :| 0 <= j < |rest| && rest[j] == '.' && t == rest[j + 1..];
      assert s[i + 1 + j] == '.' && s[(i + 1 + j) + 1..] == t;
    }
  }

  /** Every aligned suffix is the join of the last labels. */
  lemma {:induction false} AlignedIsJoin(s: string, t: string) returns (k: nat)
    requires Aligned(s, t)
    ensures k < |Labels(s)| && t == Join(Labels(s)[k..])
    decreases |s|
  {
    hide Labels, Join, IndexOf;
    JoinLabels(s);
    LabelsStep(s);
    if t == s {
      k := 0;
      assert Labels(s)[0..] == Labels(s);
    } else {
      var d :| 0 <= d < |s| && s[d] == '.' && t == s[d + 1..];
      var i := IndexOf(s, '.');
      var rest := s[i + 1..];
      if d > i {
        assert rest[d - i - 1] == '.' && t == rest[(d - i - 1) + 1..];
      }
      var k0 := AlignedIsJoin(rest, t);
      k := k0 + 1;
      assert Labels(s)[k..] == Labels(rest)[k0..];
    }
  }

  /** Longer suffixes have more labels: dropping labels only shortens. */
  lemma {:induction false} SuffixLengths(ls: seq<string>, k: nat, m: nat)
    requires k <= m < |ls|
    ensures |Join(ls[m..])| <= |Join(ls[k..])| && (k < m ==> |Join(ls[m..])| < |Join(ls[k..])|)
    decreases m - k
  {
    if k < m {
      SuffixLengths(ls, k + 1, m);
      assert ls[k..][1..] == ls[k + 1..];
    }
  }

  // ----- truncation

  /** The input when it fits, otherwise the longest suffix on a label boundary with
      at most 127 labels and 253 characters; when there is none, the last label
      alone is too long and its last 253 characters are kept. */
  ghost predicate Bounds(domain: string, r: string) {
    && (Fits(domain) ==> r == domain)
    && ((exists t :: Aligned(domain, t) && Fits(t)) ==>
          Aligned(domain, r) && Fits(r) && forall t :: Aligned(domain, t) && Fits(t) ==> |t| <= |r|)
    && (!(exists t :: Aligned(domain, t) && Fits(t)) ==>
          |domain| > 253 && r == domain[|domain| - 253..] && '.' !in r)
  }

  /** There is only one such host. */
  lemma BoundsUnique(domain: string, r: string, t: string)
    requires Bounds(domain, r) && Bounds(domain, t)
    ensures r == t
  {
    hide Fits;
    if u :| Aligned(domain, u) && Fits(u) {
      AlignedIsSuffix(domain, r);
      AlignedIsSuffix(domain, t);
    }
  }

  method BoundedHost(domain: string) returns (r: string)
    ensures Bounds(domain, r)
  {
    hide Join, Labels, Aligned, DotCount, IndexOf, BeforeFirst;
    var all := Labels(domain);
    var labels := all;
    var host := domain;
    ghost var k: nat := 0;
    JoinLabels(domain);
    assert all[0..] == all;
    if |labels| > MAX_HOST_LABELS {
      k := |labels| - MAX_HOST_LABELS;
      labels := labels[|labels| - MAX_HOST_LABELS..];
      host := Join(labels);
    }
    ghost var first := k;
    while |host| > MAX_HOST_BYTES && |labels| > 1
      invariant first <= k < |all| && labels == all[k..] && host == Join(all[k..])
      invariant forall m :: first <= m < k ==> |Join(all[m..])| > MAX_HOST_BYTES
      decreases |labels|
    {
      assert labels[1..] == all[k + 1..];
      labels := labels[1..];
      host := Join(labels);
      k := k + 1;
    }
    Truncated(domain, first, k);
    if |host| > MAX_HOST_BYTES {
      r := host[|host| - MAX_HOST_BYTES..];
    } else {
      r := host;
    }
  }

  lemma FitsAt(domain: string, m: nat)
    requires m < |Labels(domain)|
    ensures var t := Join(Labels(domain)[m..]);
            Aligned(domain, t) && (Fits(t) <==> |Labels(domain)| - m <= MAX_HOST_LABELS && |t| <= MAX_HOST_BYTES)
  {
    LabelsSuffix(domain, m);
    LabelCount(Join(Labels(domain)[m..]));
  }

  /** What the loop has reached: the first suffix that fits, or the last label. */
  lemma Truncated(domain: string, first: nat, k: nat)
    requires var all := Labels(domain);
             && first <= k < |all|
             && first == (if |all| > MAX_HOST_LABELS then |all| - MAX_HOST_LABELS else 0)
             && (forall m :: first <= m < k ==> |Join(all[m..])| > MAX_HOST_BYTES)
             && (|Join(all[k..])| <= MAX_HOST_BYTES || k == |all| - 1)
    ensures var host := Join(Labels(domain)[k..]);
            && (|host| <= MAX_HOST_BYTES ==>
                  && Aligned(domain, host) && Fits(host)
                  && (forall t :: Aligned(domain, t) && Fits(t) ==> |t| <= |host|)
                  && (Fits(domain) ==> host == domain))
            && (|host| > MAX_HOST_BYTES ==>
                  && (forall t :: Aligned(domain, t) ==> !Fits(t))
                  && |domain| > MAX_HOST_BYTES
                  && host[|host| - MAX_HOST_BYTES..] == domain[|domain| - MAX_HOST_BYTES..]
                  && '.' !in host[|host| - MAX_HOST_BYTES..])
  {
    hide Join, Labels, Aligned, DotCount, Fits;
    var all := Labels(domain);
    var host := Join(all[k..]);
    FitsAt(domain, k);
    forall t | Aligned(domain, t) && Fits(t) ensures |host| <= MAX_HOST_BYTES && |t| <= |host| {
      var m := AlignedIsJoin(domain, t);
      FitsAt(domain, m);
      if m >= k { SuffixLengths(all, k, m); }
    }
    JoinLabels(domain);
    assert all[0..] == all;
    FitsAt(domain, 0);
    if k > 0 { SuffixLengths(all, 0, k); }
    if |host| > MAX_HOST_BYTES { LastLabel(domain, host); }
  }

  lemma LastLabel(domain: string, host: string)
    requires host == Join(Labels(domain)[|Labels(domain)| - 1..])
    ensures '.' !in host && |host| <= |domain|
    ensures host == domain[|domain| - |host|..]
  {
    hide *;
    LabelsSuffix(domain, |Labels(domain)| - 1);
    LabelCount(host);
    NoDots(host);
    AlignedIsSuffix(domain, host);
  }

  lemma AlignedIsSuffix(s: string, t: string)
    requires Aligned(s, t)
    ensures |t| <= |s| && t == s[|s| - |t|..]
  {
    if t != s {
      var i :| 0 <= i < |s| && s[i] == '.' && t == s[i + 1..];
    }
  }

  // ----- parent domains

  /** The domain and each of its parents, longest first. */
  method ParentDomains(domain: string) returns (parents: seq<string>)
    ensures parents != [] && parents[0] == domain
    ensures forall t :: t in parents <==> Aligned(domain, t)
    ensures forall i, j :: 0 <= i < j < |parents| ==> |parents[i]| > |parents[j]|
  {
    hide Aligned, IndexOf;
    parents := [domain];
    var rest := domain;
    Itself(domain);
    while '.' in rest
      invariant parents != [] && parents[0] == domain && parents[|parents| - 1] == rest
      invariant Aligned(domain, rest)
      invariant forall t :: Aligned(domain, t) <==> t in parents || Aligned(rest, t)
      invariant forall i, j :: 0 <= i < j < |parents| ==> |parents[i]| > |parents[j]|
      decreases |rest|
    {
      var i := IndexOf(rest, '.');
      var next := rest[i + 1..];
      ParentStep(domain, rest, i);
      MoreParents(domain, rest, next, parents);
      parents := parents + [next];
      rest := next;
    }
    OnlyItself(rest);
  }

  lemma OnlyItself(s: string)
    requires '.' !in s
    ensures forall t :: Aligned(s, t) <==> t == s
  {}

  lemma MoreParents(domain: string, rest: string, next: string, parents: seq<string>)
    requires rest in parents
    requires forall t :: Aligned(domain, t) <==> t in parents || Aligned(rest, t)
    requires forall t :: Aligned(rest, t) <==> t == rest || Aligned(next, t)
    ensures forall t :: Aligned(domain, t) <==> t in parents + [next] || Aligned(next, t)
  {
    Itself(next);
    hide Aligned;
    assert forall t :: t in parents + [next] <==> t in parents || t == next;
  }

  lemma ParentStep(domain: string, rest: string, i: nat)
    requires i == IndexOf(rest, '.') && i < |rest| && Aligned(domain, rest)
    ensures forall t :: Aligned(rest, t) <==> t == rest || Aligned(rest[i + 1..], t)
    ensures Aligned(domain, rest[i + 1..])
  {
    var next := rest[i + 1..];
    forall t ensures Aligned(rest, t) <==> t == rest || Aligned(next, t) {
      if Aligned(next, t) { AlignedThrough(rest, i, t); }
      if Aligned(rest, t) && t != rest {
        var d :| 0 <= d < |rest| && rest[d] == '.' && t == rest[d + 1..];
        if d > i { assert next[d - i - 1] == '.' && t == next[(d - i - 1) + 1..]; }
      }
    }
    if rest != domain {
      var d :| 0 <= d < |domain| && domain[d] == '.' && rest == domain[d + 1..];
      assert domain[d + 1 + i] == '.' && next == domain[(d + 1 + i) + 1..];
    } else {
      assert domain[i] == '.';
    }
  }

  predicate EndsWith(s: string, t: string) {
    |t| <= |s| && s[|s| - |t|..] == t
  }

  /** The suffix scan that the set lookup replaces. */
  predicate SuffixIn(domain: string, domains: set<string>) {
    exists d | d in domains :: EndsWith(domain, "." + d)
  }

  lemma ParentIsSuffix(domain: string, d: string)
    ensures Aligned(domain, d) && d != domain <==> EndsWith(domain, "." + d)
  {
    if EndsWith(domain, "." + d) {
      var i := |domain| - |d| - 1;
      assert domain[i..][0] == '.';
      assert domain[i + 1..] == domain[i..][1..] == d;
    }
    if Aligned(domain, d) && d != domain {
      var i :| 0 <= i < |domain| && domain[i] == '.' && d == domain[i + 1..];
      assert domain[i..] == "." + d;
    }
  }

  // ----- the buckets

  datatype Bucket = HomographAttack | RawHosting | Official | TrustedForge | Unknown

  /** The configured domains, as sets. */
  datatype Prepared = Prepared(raw: set<string>, forges: set<string>, official: set<string>, officialHosts: set<string>)

  /** What the tables outside say: whether a host is a homograph of a popular one, and
      its registrable domain. */
  datatype Tables = Tables(homograph: string -> bool, registrable: string -> string)

  /** Some configured domain is `domain` without a first part and the dot behind it. */
  ghost predicate Inside(domain: string, domains: set<string>) {
    exists d, first :: d in domains && domain == first + "." + d
  }

  lemma SuffixIsInside(domain: string, domains: set<string>)
    ensures SuffixIn(domain, domains) <==> Inside(domain, domains)
  {
    if d :| d in domains && EndsWith(domain, "." + d) {
      assert domain == domain[..|domain| - |"." + d|] + "." + d;
    }
    if d, first :| d in domains && domain == first + "." + d {
      assert EndsWith(domain, "." + d);
    }
  }

  /** Which bucket a URL falls in; `netloc` is its host part, none when it cannot be
      parsed. The tests come in this order: homograph, raw hosting, official host,
      forge by registrable domain or by suffix, official domain by itself or suffix. */
  method ClassifyPrepared(netloc: Option<string>, tables: Tables, p: Prepared)
    returns (bucket: Bucket, matched: string, ghost domain: string)
    ensures netloc.None? ==> bucket == Unknown && matched == ""
    ensures netloc.Some? ==> Bounds(CanonicalHost(netloc.value), domain)
    ensures netloc.Some? ==>
              var registered := tables.registrable(BeforeFirst(domain, ':'));
              var early := tables.homograph(domain) || domain in p.raw || domain in p.officialHosts;
              var forge := registered in p.forges || Inside(domain, p.forges);
              && (bucket == HomographAttack <==> tables.homograph(domain))
              && (bucket == RawHosting <==> !tables.homograph(domain) && domain in p.raw)
              && (bucket == TrustedForge <==> !early && forge)
              && (bucket == Official <==>
                    || (!tables.homograph(domain) && domain !in p.raw && domain in p.officialHosts)
                    || (!early && !forge && (domain in p.official || Inside(domain, p.official))))
              && matched == if bucket == TrustedForge then registered else domain
  {
    domain := "";
    if netloc.None? {
      return Unknown, "", "";
    }
    var host := BoundedHost(CanonicalHost(netloc.value));
    domain := host;
    SuffixIsInside(domain, p.forges);
    SuffixIsInside(domain, p.official);
    bucket, matched := ClassifyHost(host, tables, p);
  }

  /** The loops over the parents decide what a scan of every configured domain for
      `endswith("." + d)` would. */
  method ClassifyHost(domain: string, tables: Tables, p: Prepared) returns (bucket: Bucket, matched: string)
    ensures var registered := tables.registrable(BeforeFirst(domain, ':'));
            && bucket ==
               (if tables.homograph(domain) then HomographAttack
                else if domain in p.raw then RawHosting
                else if domain in p.officialHosts then Official
                else if registered in p.forges || SuffixIn(domain, p.forges) then TrustedForge
                else if domain in p.official || SuffixIn(domain, p.official) then Official
                else Unknown)
            && matched == if bucket == TrustedForge then registered else domain
  {
    hide Aligned, EndsWith;
    if tables.homograph(domain) {
      return HomographAttack, domain;
    }
    if domain in p.raw {
      return RawHosting, domain;
    }
    if domain in p.officialHosts {
      return Official, domain;
    }
    var registered := tables.registrable(BeforeFirst(domain, ':'));
    if registered in p.forges {
      return TrustedForge, registered;
    }
    var parents := ParentDomains(domain);
    forall d ensures d in parents && d != domain <==> EndsWith(domain, "." + d) { ParentIsSuffix(domain, d); }
    for i := 0 to |parents|
      invariant forall j :: 0 <= j < i ==> parents[j] == domain || parents[j] !in p.forges
    {
      if parents[i] != domain && parents[i] in p.forges {
        assert EndsWith(domain, "." + parents[i]);
        return TrustedForge, registered;
      }
    }
    assert !SuffixIn(domain, p.forges);
    for i := 0 to |parents|
      invariant forall j :: 0 <= j < i ==> parents[j] !in p.official
    {
      if parents[i] in p.official {
        assert parents[i] == domain || EndsWith(domain, "." + parents[i]);
        return Official, domain;
      }
    }
    assert domain in parents;
    return Unknown, domain;
  }
}
