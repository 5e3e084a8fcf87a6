/** The rollback floor of the signed baseline: which releases a pull accepts, and
    what the stored version is after any run of pulls. */
module BaselineFloor {
  import opened Options

  /** The manifest's "version": missing, not convertible to an integer, or a number. */
  datatype Version = NoVersion | BadVersion | Number(v: int)

  /** One entry of the inventory; `sha256` is lower case, "" when missing. */
  datatype Item = NotADict | Item(name: string, sha256: string, size: Option<int>)
  datatype Assets = NotAList | List(items: seq<Item>)
  datatype Manifest = Manifest(expired: bool, version: Version, assets: Assets)

  /** Downloaded bytes: their digest and length. */
  datatype Data = Data(sha256: string, size: nat)

  /** What a pull meets outside: the pinned key, the inventory (`Missing` when it
      cannot be fetched, which is accepted; `Untrusted` when it fails its checks), the
      seed download, the import and the write of the floor. */
  datatype Fetched = Missing | Untrusted | Got(manifest: Manifest)
  datatype Attempt = Attempt(keyPinned: bool, inventory: Fetched, seed: Option<Data>, importWorks: bool,
                             recordWorks: bool)

  datatype Outcome =
    | NoKey | InventoryRefused | Expired | NonIntegerVersion | Rollback
    | SeedUnavailable | AssetMismatch | ImportFailed | RecordFailed | Done

  /** The stored floor: no key, text that is no number, or a version. */
  datatype Stored = NoFloor | NotANumber | Floor(v: int)

  const SEED_ASSET_NAME := "baseline-seed.tar.gz"

  // ----- the checks

  function CheckManifest(m: Manifest, stored: Stored): Option<Outcome> {
    if m.expired then Some(Expired)
    else match m.version
      case BadVersion => Some(NonIntegerVersion)
      case NoVersion => None
      case Number(v) => if stored.Floor? && v < stored.v then Some(Rollback) else None
  }

  /** The first inventory entry with this name. */
  function EntryFor(items: seq<Item>, name: string): Option<Item> {
    if items == [] then None
    else if items[0].Item? && items[0].name == name then Some(items[0])
    else EntryFor(items[1..], name)
  }

  predicate AssetMatches(m: Manifest, name: string, data: Data) {
    m.assets.List?
    && var entry := EntryFor(m.assets.items, name);
       && entry.Some? && entry.value.Item?
       && (entry.value.sha256 == "" || entry.value.sha256 == data.sha256)
       && (entry.value.size.Some? ==> entry.value.size.value == data.size)
  }

  // ----- one pull

  /** `imports` and `completed` log what was imported and what pulls finished, with
      the version each carried. */
  datatype State = State(stored: Stored, imports: seq<Version>, completed: seq<Version>)

  function Carried(a: Attempt): Version {
    if a.inventory.Got? then a.inventory.manifest.version else NoVersion
  }

  /** Why a pull ends, if it ends before the import. */
  function Refusal(stored: Stored, a: Attempt): Option<Outcome> {
    if !a.keyPinned then Some(NoKey)
    else if a.inventory.Untrusted? then Some(InventoryRefused)
    else if a.inventory.Got? && CheckManifest(a.inventory.manifest, stored).Some? then
      CheckManifest(a.inventory.manifest, stored)
    else if a.seed.None? then Some(SeedUnavailable)
    else if a.inventory.Got? && !AssetMatches(a.inventory.manifest, SEED_ASSET_NAME, a.seed.value) then
      Some(AssetMismatch)
    else if !a.importWorks then Some(ImportFailed)
    else None
  }

  function Pull(s: State, a: Attempt): (State, Outcome) {
    var refusal := Refusal(s.stored, a);
    if refusal.Some? then (s, refusal.value)
    else
      var imported := s.(imports := s.imports + [Carried(a)]);
      if Carried(a).Number? then
        if a.recordWorks then (imported.(stored := Floor(Carried(a).v), completed := s.completed + [Carried(a)]), Done)
        else (imported, RecordFailed)
      else (imported.(completed := s.completed + [Carried(a)]), Done)
  }

  /** The database a pull writes to. */
  class Database {
    var stored: Stored
    ghost var imports: seq<Version>
    ghost var completed: seq<Version>

    ghost function Value(): State
      reads this
    {
      State(stored, imports, completed)
    }

    constructor ()
      ensures Value() == EMPTY
    {
      stored, imports, completed := NoFloor, [], [];
    }

    /** Pull, verify, import, then record the version as the new floor. */
    method PullBaselineSeed(a: Attempt) returns (outcome: Outcome)
      modifies this
      ensures (Value(), outcome) == Pull(old(Value()), a)
    {
      if !a.keyPinned {
        return NoKey;
      }
      if a.inventory.Untrusted? {
        return InventoryRefused;
      }
      if a.inventory.Got? {
        var problem := CheckManifest(a.inventory.manifest, stored);
        if problem.Some? {
          return problem.value;
        }
      }
      if a.seed.None? {
        return SeedUnavailable;
      }
      if a.inventory.Got? && !AssetMatches(a.inventory.manifest, SEED_ASSET_NAME, a.seed.value) {
        return AssetMismatch;
      }
      if !a.importWorks {
        return ImportFailed;
      }
      imports := imports + [Carried(a)];
      if a.inventory.Got? && a.inventory.manifest.version.Number? {
        if !a.recordWorks {
          return RecordFailed;
        }
        stored := Floor(a.inventory.manifest.version.v);
      }
      completed := completed + [Carried(a)];
      outcome := Done;
    }
  }

  const EMPTY := State(NoFloor, [], [])

  function Run(s: State, attempts: seq<Attempt>, n: nat): State
    requires n <= |attempts|
  {
    if n == 0 then s else Pull(Run(s, attempts, n - 1), attempts[n - 1]).0
  }

  // ----- one pull seen from outside

  /** A refused pull changes nothing, floor included; only a failed write of the
      floor leaves an import behind, and that too keeps the floor. */
  lemma RefusalChangesNothing(s: State, a: Attempt)
    ensures var (t, outcome) := Pull(s, a);
            && (outcome != Done && outcome != RecordFailed ==> t == s)
            && (outcome != Done ==> t.stored == s.stored && t.completed == s.completed)
            && (Carried(a) == NoVersion ==> t.stored == s.stored)
  {}

  /** The entry looked up is the first one with the name. */
  lemma {:induction false} EntryForIsFirst(items: seq<Item>, name: string)
    ensures EntryFor(items, name).None? <==> forall i :: 0 <= i < |items| ==> !(items[i].Item? && items[i].name == name)
    ensures EntryFor(items, name).Some? ==>
              exists i :: 0 <= i < |items| && items[i] == EntryFor(items, name).value && items[i].Item?
                  && items[i].name == name
                          && forall j :: 0 <= j < i ==> !(items[j].Item? && items[j].name == name)
  {
    if items != [] && !(items[0].Item? && items[0].name == name) {
      EntryForIsFirst(items[1..], name);
      var e := EntryFor(items[1..], name);
      if e.Some? {
        var i :| 0 <= i < |items[1..]| && items[1..][i] == e.value && items[1..][i].Item? && items[1..][i].name == name
                 && forall j :: 0 <= j < i ==> !(items[1..][j].Item? && items[1..][j].name == name);
        assert items[i + 1] == e.value;
        forall j | 0 <= j < i + 1 ensures !(items[j].Item? && items[j].name == name) {
          if j > 0 { assert items[1..][j - 1] == items[j]; }
        }
      } else {
        forall i | 0 <= i < |items| ensures !(items[i].Item? && items[i].name == name) {
          if i > 0 { assert items[1..][i - 1] == items[i]; }
        }
      }
    }
  }

  /** Entry `i` is the first one listed for the seed. */
  ghost predicate ListsSeed(items: seq<Item>, i: nat) {
    && i < |items| && items[i].Item? && items[i].name == "baseline-seed.tar.gz"
    && forall j :: 0 <= j < i ==> !(items[j].Item? && items[j].name == "baseline-seed.tar.gz")
  }

  /** A listed digest and a listed length are those of the data. */
  ghost predicate Describes(item: Item, data: Data) {
    && item.Item?
    && (item.sha256 == "" || item.sha256 == data.sha256)
    && (item.size.None? || item.size.value == data.size)
  }

  lemma OneListing(items: seq<Item>, i: nat, k: nat)
    requires ListsSeed(items, i) && ListsSeed(items, k)
    ensures i == k
  {}

  /** The seed passes the inventory exactly when the first entry listed for it gives
      no other digest and no other length. */
  lemma SeedMatchesIff(m: Manifest, data: Data)
    ensures AssetMatches(m, SEED_ASSET_NAME, data)
       <==> m.assets.List? && exists i: nat :: ListsSeed(m.assets.items, i) && Describes(m.assets.items[i], data)
  {
    if m.assets.List? {
      hide EntryFor;
      var items := m.assets.items;
      EntryForIsFirst(items, SEED_ASSET_NAME);
      var e := EntryFor(items, SEED_ASSET_NAME);
      if e.Some? {
        var i :| 0 <= i < |items| && items[i] == e.value && items[i].Item? && items[i].name == SEED_ASSET_NAME
                 && forall j :: 0 <= j < i ==> !(items[j].Item? && items[j].name == SEED_ASSET_NAME);
        assert ListsSeed(items, i);
        forall k: nat | ListsSeed(items, k) ensures k == i { OneListing(items, i, k); }
      }
    }
  }

  /** Exactly which pulls import something: the key is pinned, the seed comes and can be
      imported, and a fetched inventory is trusted, not expired, has a usable version
      not below the floor, and lists the seed's own digest and length. The import is
      then logged with its version. */
  lemma ImportIffAdmitted(s: State, a: Attempt)
    ensures var t := Pull(s, a).0;
            && (t.imports != s.imports <==>
                  && a.keyPinned && a.importWorks && a.seed.Some? && !a.inventory.Untrusted?
                  && (a.inventory.Got? ==>
                        var m := a.inventory.manifest;
                        && !m.expired && m.version != BadVersion
                        && (m.version.Number? && s.stored.Floor? ==> m.version.v >= s.stored.v)
                        && m.assets.List?
                        && exists i: nat :: ListsSeed(m.assets.items, i) && Describes(m.assets.items[i], a.seed.value)))
            && (t.imports != s.imports ==> t.imports == s.imports + [Carried(a)])
  {
    var t := Pull(s, a).0;
    if t.imports != s.imports { assert |t.imports| == |s.imports| + 1; }
    if a.inventory.Got? && a.seed.Some? { SeedMatchesIff(a.inventory.manifest, a.seed.value); }
    hide AssetMatches;
  }

  /** The inventory of a pull that got that far. */
  ghost predicate Read(a: Attempt) {
    a.keyPinned && a.inventory.Got?
  }

  ghost predicate Outdated(s: State, a: Attempt) {
    && Read(a) && !a.inventory.manifest.expired && a.inventory.manifest.version.Number? && s.stored.Floor?
    && a.inventory.manifest.version.v < s.stored.v
  }

  /** Nothing refuses the pull before the download. */
  ghost predicate Cleared(s: State, a: Attempt) {
    && a.keyPinned && !a.inventory.Untrusted? && !Outdated(s, a)
    && (Read(a) ==> !a.inventory.manifest.expired && a.inventory.manifest.version != BadVersion)
  }

  /** The download is there and is what a read inventory describes. */
  ghost predicate Genuine(a: Attempt) {
    && a.seed.Some?
    && (Read(a) ==>
          && a.inventory.manifest.assets.List?
          && exists i: nat :: ListsSeed(a.inventory.manifest.assets.items, i)
                              && Describes(a.inventory.manifest.assets.items[i], a.seed.value))
  }

  /** Which check ends a pull: each outcome by what the attempt met, the checks in
      their order. */
  lemma OutcomeIff(s: State, a: Attempt)
    ensures var outcome := Pull(s, a).1;
            && (outcome == NoKey <==> !a.keyPinned)
            && (outcome == InventoryRefused <==> a.keyPinned && a.inventory.Untrusted?)
            && (outcome == Expired <==> Read(a) && a.inventory.manifest.expired)
            && (outcome == NonIntegerVersion <==>
                  Read(a) && !a.inventory.manifest.expired && a.inventory.manifest.version == BadVersion)
            && (outcome == Rollback <==> Outdated(s, a))
            && (outcome == SeedUnavailable <==> Cleared(s, a) && a.seed.None?)
            && (outcome == AssetMismatch <==> Cleared(s, a) && a.seed.Some? && !Genuine(a))
            && (outcome == ImportFailed <==> Cleared(s, a) && Genuine(a) && !a.importWorks)
            && (outcome == RecordFailed <==>
                  Cleared(s, a) && Genuine(a) && a.importWorks && Carried(a).Number? && !a.recordWorks)
            && (outcome == Done <==>
                  Cleared(s, a) && Genuine(a) && a.importWorks && (Carried(a).Number? ==> a.recordWorks))
  {
    if a.inventory.Got? && a.seed.Some? { SeedMatchesIff(a.inventory.manifest, a.seed.value); }
    hide AssetMatches, Describes, ListsSeed;
  }

  // ----- whole runs

  /** The floor is the largest version of the completed versioned pulls, if any. */
  ghost predicate FloorIsMaximum(s: State) {
    match s.stored
    case NotANumber => false
    case NoFloor => forall i :: 0 <= i < |s.completed| ==> !s.completed[i].Number?
    case Floor(v) =>
      && Number(v) in s.completed
      && forall i :: 0 <= i < |s.completed| && s.completed[i].Number? ==> s.completed[i].v <= v
  }

  lemma PullKeepsMaximum(s: State, a: Attempt)
    requires FloorIsMaximum(s)
    ensures FloorIsMaximum(Pull(s, a).0)
  {
    var t := Pull(s, a).0;
    if |t.completed| > |s.completed| {
      assert t.completed == s.completed + [Carried(a)];
      assert t.completed[|s.completed|] == Carried(a);
    }
  }

  /** From an empty database the floor is always the largest version of all
      completed versioned pulls, whatever the pulls met. */
  lemma {:induction false} FloorIsLargestCompleted(attempts: seq<Attempt>, n: nat)
    requires n <= |attempts|
    ensures FloorIsMaximum(Run(EMPTY, attempts, n))
  {
    hide Pull;
    if n > 0 {
      FloorIsLargestCompleted(attempts, n - 1);
      PullKeepsMaximum(Run(EMPTY, attempts, n - 1), attempts[n - 1]);
    }
  }

  /** Once set, the floor never decreases or disappears. */
  lemma {:induction false} FloorNeverDecreases(s: State, attempts: seq<Attempt>, m: nat, n: nat)
    requires m <= n <= |attempts| && Run(s, attempts, m).stored.Floor?
    ensures Run(s, attempts, n).stored.Floor? && Run(s, attempts, m).stored.v <= Run(s, attempts, n).stored.v
    decreases n
  {
    if m < n {
      FloorNeverDecreases(s, attempts, m, n - 1);
      ImportAboveFloor(Run(s, attempts, n - 1), attempts[n - 1]);
    }
  }

  lemma ImportAboveFloor(s: State, a: Attempt)
    ensures var t := Pull(s, a).0;
            && (s.stored.Floor? ==> t.stored.Floor? && s.stored.v <= t.stored.v)
            && (|t.imports| > |s.imports| && Carried(a).Number? && s.stored.Floor? ==> Carried(a).v >= s.stored.v)
  {}

  /** Every versioned import so far is at most the floor. */
  ghost predicate ImportsCovered(s: State) {
    forall i :: 0 <= i < |s.imports| && s.imports[i].Number? ==> s.stored.Floor? && s.imports[i].v <= s.stored.v
  }

  /** Versioned imports never go back. */
  ghost predicate ImportsOrdered(s: State) {
    forall i, j :: 0 <= i < j < |s.imports| && s.imports[i].Number? && s.imports[j].Number? ==>
        s.imports[i].v <= s.imports[j].v
  }

  lemma PullKeepsOrder(s: State, a: Attempt)
    requires ImportsCovered(s) && ImportsOrdered(s)
    ensures ImportsOrdered(Pull(s, a).0)
    ensures Pull(s, a).1 != RecordFailed ==> ImportsCovered(Pull(s, a).0)
  {
    var t := Pull(s, a).0;
    if |t.imports| > |s.imports| { assert t.imports == s.imports + [Carried(a)]; }
  }

  /** While every accepted version is written to the floor, each versioned import is
      at least every earlier one. */
  lemma {:induction false} ImportsNeverGoBack(attempts: seq<Attempt>, n: nat)
    requires n <= |attempts|
    requires forall i :: 0 <= i < n ==> attempts[i].recordWorks
    ensures var s := Run(EMPTY, attempts, n); ImportsCovered(s) && ImportsOrdered(s)
  {
    hide Refusal;
    if n > 0 {
      ImportsNeverGoBack(attempts, n - 1);
      PullKeepsOrder(Run(EMPTY, attempts, n - 1), attempts[n - 1]);
    }
  }

  /** The next pull can import an older version than one already imported. */
  ghost predicate CanGoBack(s: State) {
    exists a, i :: GoesBack(s, a, i)
  }

  ghost predicate GoesBack(s: State, a: Attempt, i: int) {
    && 0 <= i < |s.imports| && s.imports[i].Number?
    && |Pull(s, a).0.imports| > |s.imports| && Carried(a).Number? && Carried(a).v < s.imports[i].v
  }

  /** Exactly when the protection is lost: when some imported version is not covered
      by the floor, which only a failed write of the floor can cause. */
  lemma CanGoBackIffUncovered(s: State)
    ensures CanGoBack(s) <==> !ImportsCovered(s)
  {
    if !ImportsCovered(s) {
      var i :| 0 <= i < |s.imports| && s.imports[i].Number? && !(s.stored.Floor? && s.imports[i].v <= s.stored.v);
      var seed := Data("d", 1);
      var entry := Item(SEED_ASSET_NAME, "d", Some(1));
      var m := Manifest(false, Number(s.imports[i].v - 1), List([entry]));
      var a := Attempt(true, Got(m), Some(seed), true, true);
      assert EntryFor([entry], SEED_ASSET_NAME) == Some(entry);
      assert AssetMatches(m, SEED_ASSET_NAME, seed);
      assert GoesBack(s, a, i);
    }
    if CanGoBack(s) {
      var a, i :| GoesBack(s, a, i);
      ImportAboveFloor(s, a);
    }
  }

  /** Pull `i` of a run reported that its version could not be recorded. */
  ghost predicate Unrecorded(attempts: seq<Attempt>, i: nat)
    requires i < |attempts|
  {
    Pull(Run(EMPTY, attempts, i), attempts[i]).1 == RecordFailed
  }

  ghost predicate Above(v: Version, stored: Stored) {
    v.Number? && (stored.Floor? ==> v.v > stored.v)
  }

  /** A pull reports a failed write exactly when it imports a versioned release
      without moving the floor. */
  lemma UnrecordedImports(s: State, a: Attempt)
    ensures var (t, outcome) := Pull(s, a);
            && (outcome == RecordFailed ==>
                Carried(a).Number? && t.imports == s.imports + [Carried(a)] && t.stored == s.stored)
            && (outcome != RecordFailed && t.imports != s.imports && Carried(a).Number? ==>
                  t.imports == s.imports + [Carried(a)] && t.stored == Floor(Carried(a).v))
            && (t.imports != s.imports ==> t.imports == s.imports + [Carried(a)])
            && (outcome != Done ==> t.stored == s.stored)
  {
    var t := Pull(s, a).0;
    if t.imports != s.imports { assert |t.imports| == |s.imports| + 1; }
  }

  /** Everything imported above the floor comes from a pull that reported it. */
  lemma {:induction false} UncoveredWasReported(attempts: seq<Attempt>, n: nat, v: Version)
    requires n <= |attempts|
    requires v in Run(EMPTY, attempts, n).imports && Above(v, Run(EMPTY, attempts, n).stored)
    ensures exists i :: 0 <= i < n && Unrecorded(attempts, i) && Carried(attempts[i]) == v
  {
    hide Pull, Carried;
    var s, a := Run(EMPTY, attempts, n - 1), attempts[n - 1];
    UnrecordedImports(s, a);
    ImportAboveFloor(s, a);
    if v in s.imports {
      UncoveredWasReported(attempts, n - 1, v);
      var i :| 0 <= i < n - 1 && Unrecorded(attempts, i) && Carried(attempts[i]) == v;
      assert Unrecorded(attempts, i);
    } else {
      assert Unrecorded(attempts, n - 1);
    }
  }

  lemma {:induction false} ReportedIsImported(attempts: seq<Attempt>, n: nat, i: nat)
    requires i < n <= |attempts| && Unrecorded(attempts, i)
    ensures Carried(attempts[i]).Number? && Carried(attempts[i]) in Run(EMPTY, attempts, n).imports
  {
    hide Pull, Carried;
    UnrecordedImports(Run(EMPTY, attempts, n - 1), attempts[n - 1]);
    if i < n - 1 { ReportedIsImported(attempts, n - 1, i); }
  }

  /** Over any run of pulls from an empty database, seen from outside: the next pull
      can go back exactly when some pull reported a failed write for a version that
      is above the present floor. */
  lemma CanGoBackIffReported(attempts: seq<Attempt>, n: nat)
    requires n <= |attempts|
    ensures var s := Run(EMPTY, attempts, n);
            CanGoBack(s) <==> exists i :: 0 <= i < n && Unrecorded(attempts, i) && Above(Carried(attempts[i]), s.stored)
  {
    hide Pull, Carried, CanGoBack, Unrecorded;
    var s := Run(EMPTY, attempts, n);
    CanGoBackIffUncovered(s);
    FloorIsLargestCompleted(attempts, n);
    if !ImportsCovered(s) {
      var k :| 0 <= k < |s.imports| && s.imports[k].Number? && !(s.stored.Floor? && s.imports[k].v <= s.stored.v);
      UncoveredWasReported(attempts, n, s.imports[k]);
    }
    if i :| 0 <= i < n && Unrecorded(attempts, i) && Above(Carried(attempts[i]), s.stored) {
      ReportedIsImported(attempts, n, i);
    }
  }

  /** Two pulls are enough: version 5 is imported but not recorded, then version 4
      is imported after it. */
  lemma UnrecordedImportAllowsRollback()
    ensures exists attempts :: |attempts| == 2 && !ImportsOrdered(Run(EMPTY, attempts, 2))
                               && Pull(EMPTY, attempts[0]).1 == RecordFailed
  {
    var seed, entry := Data("d", 1), Item(SEED_ASSET_NAME, "d", Some(1));
    var five := Attempt(true, Got(Manifest(false, Number(5), List([entry]))), Some(seed), true, false);
    var four := Attempt(true, Got(Manifest(false, Number(4), List([entry]))), Some(seed), true, true);
    var s0 := EMPTY;
    assert EntryFor([entry], SEED_ASSET_NAME) == Some(entry);
    var attempts := [five, four];
    assert Run(s0, attempts, 0) == s0;
    var s1 := Run(s0, attempts, 1);
    assert s1 == State(NoFloor, [Number(5)], []);
    var s2 := Run(s0, attempts, 2);
    assert s2.imports == [Number(5), Number(4)];
    assert s2.imports[0].v > s2.imports[1].v;
  }
}
