/** The table of permanent rule uids: each run adds a uid for every rule that has
    none and never touches the others. */
module UidAllocation {
  import opened Options
  import opened Sorting
  import StringOrder

  /** Rule id to uid. */
  type Table = map<string, string>

  // ----- `TS-%04d` and back

  predicate IsDigit(c: char) { '0' <= c <= '9' }

  function DigitsOf(n: nat): string {
    if n < 10 then ['0' + n as char] else DigitsOf(n / 10) + ['0' + (n % 10) as char]
  }

  function Padded(s: string): string
    decreases 4 - |s|
  {
    if |s| >= 4 then s else Padded("0" + s)
  }

  function FormatUid(n: nat): string {
    "TS-" + Padded(DigitsOf(n))
  }

  /** The position of the first dash from `i` on, or the length. */
  function DashFrom(s: string, i: nat): (k: nat)
    requires i <= |s|
    ensures i <= k <= |s| && '-' !in s[i..k] && (k < |s| ==> s[k] == '-')
    decreases |s| - i
  {
    if i == |s| || s[i] == '-' then i else DashFrom(s, i + 1)
  }

  predicate AllDigits(s: string) {
    s != "" && forall i :: 0 <= i < |s| ==> IsDigit(s[i])
  }

  function ValueOf(s: string): nat
    requires forall i :: 0 <= i < |s| ==> IsDigit(s[i])
  {
    if s == "" then 0
    else
      assert IsDigit(s[|s| - 1]);
      10 * ValueOf(s[..|s| - 1]) + (s[|s| - 1] as int - '0' as int)
  }

  predicate IsBlank(c: char) {
    c == ' ' || 9 <= c as int <= 13
  }

  function TrimBlanks(s: string): string {
    if s != "" && IsBlank(s[0]) then TrimBlanks(s[1..])
    else if s != "" && IsBlank(s[|s| - 1]) then TrimBlanks(s[..|s| - 1])
    else s
  }

  /** Digits with single underscores between them. */
  predicate Grouped(s: string) {
    && s != "" && IsDigit(s[0]) && IsDigit(s[|s| - 1])
    && (forall i :: 0 <= i < |s| ==> IsDigit(s[i]) || s[i] == '_')
    && forall i :: 0 < i < |s| && s[i] == '_' ==> s[i - 1] != '_'
  }

  function DigitsIn(s: string): (r: string)
    ensures forall i :: 0 <= i < |r| ==> IsDigit(r[i])
  {
    if s == "" then "" else DigitsIn(s[..|s| - 1]) + if IsDigit(s[|s| - 1]) then [s[|s| - 1]] else ""
  }

  /** Python's `int` on text without a minus sign: blanks around it, a plus sign and
      grouping underscores are read over. */
  function IntOf(s: string): Option<nat> {
    var t := TrimBlanks(s);
    var digits := if t != "" && t[0] == '+' then t[1..] else t;
    if Grouped(digits) then Some(ValueOf(DigitsIn(digits))) else None
  }

  /** The number between the first and the second dash; anything else is refused. */
  function ParseUid(uid: string): Option<nat> {
    var first := DashFrom(uid, 0);
    if first == |uid| then None
    else
      var part := uid[first + 1..DashFrom(uid, first + 1)];
      IntOf(part)
  }

  lemma {:induction false} DigitsRoundTrip(n: nat)
    ensures AllDigits(DigitsOf(n)) && ValueOf(DigitsOf(n)) == n
  {
    if n < 10 {
      assert ValueOf([]) == 0;
      assert DigitsOf(n)[..0] == [];
    } else {
      DigitsRoundTrip(n / 10);
      assert DigitsOf(n)[..|DigitsOf(n)| - 1] == DigitsOf(n / 10);
    }
  }

  lemma {:induction false} DigitsOnly(s: string)
    requires forall i :: 0 <= i < |s| ==> IsDigit(s[i])
    ensures DigitsIn(s) == s
  {
    if s != "" { DigitsOnly(s[..|s| - 1]); }
  }

  ghost predicate Blank(s: string) {
    forall i :: 0 <= i < |s| ==> IsBlank(s[i])
  }

  lemma {:induction false} TrimFrame(before: string, s: string, after: string)
    requires Blank(before) && Blank(after) && s != "" && !IsBlank(s[0]) && !IsBlank(s[|s| - 1])
    ensures TrimBlanks(before + s + after) == s
    decreases |before| + |after|
  {
    var all := before + s + after;
    if before != "" {
      assert all[0] == before[0] && all[1..] == before[1..] + s + after;
      TrimFrame(before[1..], s, after);
    } else if after != "" {
      assert all[0] == s[0] && all[|all| - 1] == after[|after| - 1];
      assert all[..|all| - 1] == before + s + after[..|after| - 1];
      TrimFrame(before, s, after[..|after| - 1]);
    } else {
      assert all == s;
    }
  }

  /** Blanks around a number, a plus sign before it and underscores in it do not
      change what is read. */
  lemma IntOfSpelling(before: string, plus: bool, digits: string, after: string)
    requires Blank(before) && Blank(after) && Grouped(digits)
    ensures IntOf(before + (if plus then "+" else "") + digits + after) == Some(ValueOf(DigitsIn(digits)))
  {
    hide TrimBlanks, ValueOf, DigitsIn;
    var number := (if plus then "+" else "") + digits;
    assert before + (if plus then "+" else "") + digits + after == before + number + after;
    TrimFrame(before, number, after);
    assert if plus then number[0] == '+' && number[1..] == digits else number == digits && !(digits[0] == '+');
  }

  /** Groups of digits with one underscore between each two. */
  ghost function Underscored(groups: seq<string>): string
    requires groups != []
  {
    if |groups| == 1 then groups[0] else Underscored(groups[..|groups| - 1]) + "_" + groups[|groups| - 1]
  }

  ghost function Joined(groups: seq<string>): string {
    if groups == [] then "" else Joined(groups[..|groups| - 1]) + groups[|groups| - 1]
  }

  lemma {:induction false} DigitsInConcat(a: string, b: string)
    ensures DigitsIn(a + b) == DigitsIn(a) + DigitsIn(b)
  {
    if b == "" {
      assert a + b == a;
    } else {
      DigitsInConcat(a, b[..|b| - 1]);
      assert (a + b)[..|a + b| - 1] == a + b[..|b| - 1];
    }
  }

  lemma {:induction false} GroupsAreGrouped(groups: seq<string>)
    requires groups != [] && forall i :: 0 <= i < |groups| ==> AllDigits(groups[i])
    ensures Grouped(Underscored(groups)) && DigitsIn(Underscored(groups)) == Joined(groups)
  {
    var last := groups[|groups| - 1];
    if |groups| == 1 {
      hide DigitsIn;
      DigitsOnly(last);
      assert groups[..0] == [];
      assert IsDigit(last[0]) && IsDigit(last[|last| - 1]);
    } else {
      hide Grouped, DigitsIn, AllDigits;
      var init := groups[..|groups| - 1];
      GroupsAreGrouped(init);
      var a := Underscored(init);
      assert Underscored(groups) == a + "_" + last && Joined(groups) == Joined(init) + last;
      hide Underscored, Joined;
      DigitsOfOneMore(a, last);
      OneMoreGroup(a, last);
    }
  }

  lemma DigitsOfOneMore(a: string, last: string)
    requires AllDigits(last)
    ensures DigitsIn(a + "_" + last) == DigitsIn(a) + last
  {
    DigitsOnly(last);
    assert DigitsIn("_") == "" by { assert "_"[..0] == ""; }
    hide DigitsIn, AllDigits;
    DigitsInConcat(a, "_");
    DigitsInConcat(a + "_", last);
  }

  lemma OneMoreGroup(a: string, last: string)
    requires Grouped(a) && AllDigits(last)
    ensures Grouped(a + "_" + last)
  {
    var s := a + "_" + last;
    assert s[0] == a[0] && s[|s| - 1] == last[|last| - 1] && IsDigit(last[|last| - 1]);
    forall i | |a| < i < |s| ensures IsDigit(s[i]) { assert s[i] == last[i - |a| - 1]; }
    assert s[|a| - 1] == a[|a| - 1] && IsDigit(s[|a| - 1]);
    assert forall i :: 0 <= i < |a| ==> s[i] == a[i];
  }

  /** The place of the last underscore, or -1. */
  ghost function LastMark(s: string): (k: int)
    ensures -1 <= k < |s| && (k >= 0 ==> s[k] == '_') && forall i :: k < i < |s| ==> s[i] != '_'
  {
    if s == "" then -1 else if s[|s| - 1] == '_' then |s| - 1 else LastMark(s[..|s| - 1])
  }

  lemma {:induction false} GroupedHasGroups(s: string) returns (groups: seq<string>)
    requires Grouped(s)
    ensures groups != [] && (forall i :: 0 <= i < |groups| ==> AllDigits(groups[i])) && Underscored(groups) == s
  {
    var k := LastMark(s);
    if k < 0 {
      groups := [s];
    } else {
      assert 0 < k < |s| - 1;
      assert IsDigit(s[k - 1]);
      var init := GroupedHasGroups(s[..k]);
      groups := init + [s[k + 1..]];
      assert groups[..|groups| - 1] == init;
      assert s == s[..k] + "_" + s[k + 1..];
    }
  }

  lemma {:induction false} TrimParts(s: string) returns (before: string, after: string)
    ensures s == before + TrimBlanks(s) + after && Blank(before) && Blank(after)
  {
    if s != "" && IsBlank(s[0]) {
      before, after := TrimParts(s[1..]);
      before := [s[0]] + before;
    } else if s != "" && IsBlank(s[|s| - 1]) {
      before, after := TrimParts(s[..|s| - 1]);
      after := after + [s[|s| - 1]];
    } else {
      before, after := "", "";
    }
  }

  /** A spelling of a number: blanks, perhaps a plus sign, groups of digits with single
      underscores between them, blanks. */
  ghost predicate Spells(s: string, before: string, plus: bool, groups: seq<string>, after: string) {
    && Blank(before) && Blank(after) && groups != [] && (forall i :: 0 <= i < |groups| ==> AllDigits(groups[i]))
    && s == before + (if plus then "+" else "") + Underscored(groups) + after
  }

  /** What is read as a number, exactly: every spelling gives the number of its digits,
      and nothing else is read. */
  lemma IntOfIsSpelling(s: string)
    ensures forall before, plus, groups, after :: Spells(s, before, plus, groups, after) ==>
              IntOf(s) == Some(ValueOf(DigitsIn(Joined(groups))))
    ensures IntOf(s).Some? ==> exists before, plus, groups, after :: Spells(s, before, plus, groups, after)
  {
    hide Underscored, Joined, ValueOf, Grouped, AllDigits, IntOf;
    forall before, plus, groups, after | Spells(s, before, plus, groups, after)
      ensures IntOf(s) == Some(ValueOf(DigitsIn(Joined(groups))))
    {
      GroupsAreGrouped(groups);
      IntOfSpelling(before, plus, Underscored(groups), after);
      DigitsOnly(Joined(groups));
    }
    if IntOf(s).Some? { ReadHasSpelling(s); }
  }

  lemma ReadHasSpelling(s: string)
    requires IntOf(s).Some?
    ensures exists before, plus, groups, after :: Spells(s, before, plus, groups, after)
  {
    var t := TrimBlanks(s);
    var plus := t != "" && t[0] == '+';
    var digits := if plus then t[1..] else t;
    assert Grouped(digits);
    assert t == (if plus then "+" else "") + digits;
    hide TrimBlanks, Blank, DigitsIn, ValueOf, Underscored, AllDigits, Grouped, IntOf;
    var before, after := TrimParts(s);
    var groups := GroupedHasGroups(digits);
    assert s == before + ((if plus then "+" else "") + digits) + after;
    Reassociate(before, if plus then "+" else "", digits, after);
    assert Spells(s, before, plus, groups, after);
  }

  lemma Reassociate(a: string, b: string, c: string, d: string)
    ensures a + (b + c) + d == a + b + c + d
  {}

  /** Plain digits are read as their value. */
  lemma IntOfDigits(s: string)
    requires AllDigits(s)
    ensures IntOf(s) == Some(ValueOf(s))
  {
    DigitsOnly(s);
    assert IsDigit(s[0]) && IsDigit(s[|s| - 1]);
    TrimFrame("", s, "");
    assert "" + s + "" == s;
    hide TrimBlanks, ValueOf, DigitsIn;
  }

  lemma {:induction false} LeadingZero(s: string)
    requires forall i :: 0 <= i < |s| ==> IsDigit(s[i])
    ensures forall i :: 0 <= i < |"0" + s| ==> IsDigit(("0" + s)[i])
    ensures ValueOf("0" + s) == ValueOf(s)
  {
    if s == "" {
      assert ("0" + s)[..0] == "";
    } else {
      LeadingZero(s[..|s| - 1]);
      assert ("0" + s)[..|s|] == "0" + s[..|s| - 1];
    }
  }

  lemma {:induction false} PaddingKeepsValue(s: string)
    requires AllDigits(s)
    ensures AllDigits(Padded(s)) && ValueOf(Padded(s)) == ValueOf(s)
    decreases 4 - |s|
  {
    if |s| < 4 {
      LeadingZero(s);
      PaddingKeepsValue("0" + s);
    }
  }

  lemma {:induction false} NoDash(s: string, i: nat)
    requires i <= |s| && forall k :: i <= k < |s| ==> s[k] != '-'
    ensures DashFrom(s, i) == |s|
    decreases |s| - i
  {
    if i < |s| {
      NoDash(s, i + 1);
    }
  }

  /** Reading a printed uid gives its number, however many digits it takes. */
  lemma ParseFormat(n: nat)
    ensures ParseUid(FormatUid(n)) == Some(n)
  {
    DigitsRoundTrip(n);
    PaddingKeepsValue(DigitsOf(n));
    var d := Padded(DigitsOf(n));
    var uid := FormatUid(n);
    assert uid[0] == 'T' && uid[1] == 'S' && uid[2] == '-';
    assert DashFrom(uid, 2) == 2 && DashFrom(uid, 1) == 2 && DashFrom(uid, 0) == 2;
    assert uid[3..] == d;
    forall k | 3 <= k < |uid| ensures uid[k] != '-' { assert IsDigit(d[k - 3]); }
    NoDash(uid, 3);
    assert uid[3..|uid|] == d;
    IntOfDigits(d);
  }

  /** The first uids, and the first with five digits. */
  lemma FormatExamples()
    ensures FormatUid(1) == "TS-0001" && FormatUid(42) == "TS-0042" && FormatUid(10000) == "TS-10000"
  {
    assert DigitsOf(1) == "1" && DigitsOf(4) == "4" && DigitsOf(42) == "42";
    assert DigitsOf(10) == "10" && DigitsOf(100) == "100" && DigitsOf(1000) == "1000" && DigitsOf(10000) == "10000";
    assert "0" + "1" == "01" && "0" + "01" == "001" && "0" + "001" == "0001";
    assert "0" + "42" == "042" && "0" + "042" == "0042";
    assert Padded("0001") == "0001" && Padded("001") == "0001" && Padded("01") == "0001";
    assert Padded("0042") == "0042" && Padded("042") == "0042" && Padded("42") == "0042";
  }

  /** What is read is the part between the first and the second dash, or the part
      behind the only one; without a dash nothing is. */
  lemma ParseUidMeaning(first: string, part: string, rest: string)
    requires '-' !in first && '-' !in part && (rest == "" || rest[0] == '-')
    ensures ParseUid(first + "-" + part + rest) == IntOf(part)
    ensures ParseUid(first) == None
  {
    var uid := first + "-" + part + rest;
    FirstDash(uid, 0, |first|);
    assert uid[|first| + 1..|first| + 1 + |part|] == part;
    FirstDash(uid, |first| + 1, |first| + 1 + |part|);
    FirstDash(first, 0, |first|);
  }

  lemma {:induction false} FirstDash(s: string, i: nat, k: nat)
    requires i <= k <= |s| && (forall j :: i <= j < k ==> s[j] != '-') && (k < |s| ==> s[k] == '-')
    ensures DashFrom(s, i) == k
    decreases k - i
  {
    if i < k { FirstDash(s, i + 1, k); }
  }

  /** Blanks by code point. */
  lemma BlankCodes(c: char)
    ensures IsBlank(c) <==> c as int in {9, 10, 11, 12, 13, 32}
  {}

  /** Anything but a number so written is refused. */
  lemma IntOfRefuses(s: string, i: nat)
    requires i < |s| && !IsBlank(s[i]) && !IsDigit(s[i]) && s[i] != '+' && s[i] != '_'
    ensures IntOf(s) == None
  {
    var t := TrimBlanks(s);
    var j := TrimKeeps(s, i);
    var digits := if t != "" && t[0] == '+' then t[1..] else t;
    var k := if t[0] == '+' then j - 1 else j;
    assert digits[k] == s[i];
  }

  lemma {:induction false} TrimKeeps(s: string, i: nat) returns (j: nat)
    requires i < |s| && !IsBlank(s[i])
    ensures j < |TrimBlanks(s)| && TrimBlanks(s)[j] == s[i]
  {
    if IsBlank(s[0]) {
      j := TrimKeeps(s[1..], i - 1);
    } else if IsBlank(s[|s| - 1]) {
      j := TrimKeeps(s[..|s| - 1], i);
    } else {
      j := i;
    }
  }

  lemma {:induction false} DigitsWidth(n: nat)
    ensures n < 10 <==> |DigitsOf(n)| == 1
    ensures n < 100 <==> |DigitsOf(n)| <= 2
    ensures n < 1000 <==> |DigitsOf(n)| <= 3
    ensures n < 10000 <==> |DigitsOf(n)| <= 4
  {
    if n >= 10 { DigitsWidth(n / 10); }
  }

  lemma {:induction false} PaddedWidth(s: string)
    ensures |Padded(s)| == if |s| < 4 then 4 else |s|
    decreases 4 - |s|
  {
    if |s| < 4 { PaddedWidth("0" + s); }
  }

  /** A uid has the prefix and at least four digits; more from 10000 on. */
  lemma UidWidth(n: nat)
    ensures "TS-" <= FormatUid(n) && |FormatUid(n)| >= 7 && (|FormatUid(n)| == 7 <==> n < 10000)
  {
    DigitsWidth(n);
    PaddedWidth(DigitsOf(n));
  }

  // ----- the table

  ghost predicate Readable(t: Table) {
    forall id :: id in t ==> ParseUid(t[id]).Some?
  }

  /** The number of an id's uid. */
  ghost function Number(t: Table, id: string): nat
    requires id in t && Readable(t)
  {
    ParseUid(t[id]).value
  }

  /** `h` is the largest number of the table, 0 for an empty one. */
  ghost predicate IsHighest(t: Table, h: nat)
    requires Readable(t)
  {
    && (forall id :: id in t ==> Number(t, id) <= h)
    && (h == 0 || exists id :: id in t && Number(t, id) == h)
  }

  ghost predicate Used(t: Table, number: nat)
    requires Readable(t)
  {
    exists id :: id in t && Number(t, id) == number
  }

  /** No two ids share a number. */
  ghost predicate Distinct(t: Table)
    requires Readable(t)
  {
    forall a, b :: a in t && b in t && Number(t, a) == Number(t, b) ==> a == b
  }

  /** The largest number the table holds; none when some uid cannot be read. */
  method HighestNumber(t: Table) returns (h: Option<nat>)
    ensures h.None? <==> !Readable(t)
    ensures h.Some? ==> IsHighest(t, h.value)
  {
    hide ParseUid;
    var highest: nat := 0;
    var rest := t.Keys;
    ghost var seen: set<string> := {};
    while rest != {}
      invariant seen + rest == t.Keys
      invariant forall id :: id in seen ==> ParseUid(t[id]).Some? && ParseUid(t[id]).value <= highest
      invariant highest == 0 || exists id :: id in seen && ParseUid(t[id]).value == highest
      decreases |rest|
    {
      var id :| id in rest;
      assert id in t;
      var number := ParseUid(t[id]);
      if number.None? {
        assert !Readable(t);
        return None;
      }
      if number.value > highest { highest := number.value; }
      rest := rest - {id};
      seen := seen + {id};
    }
    assert seen == t.Keys;
    return Some(highest);
  }

  // ----- one run

  /** The table after the ids `ids[..n]` have been handled, counting from `highest`. */
  function Added(t: Table, ids: seq<string>, highest: nat, n: nat): (r: (Table, nat))
    requires n <= |ids|
  {
    if n == 0 then (t, highest)
    else
      var (u, h) := Added(t, ids, highest, n - 1);
      if ids[n - 1] in u then (u, h) else (u[ids[n - 1] := FormatUid(h + 1)], h + 1)
  }

  function AddedAll(t: Table, ids: seq<string>, highest: nat): (Table, nat) {
    Added(t, ids, highest, |ids|)
  }

  /** What a run does to a readable table. */
  ghost predicate RunsTo(t: Table, catalog: seq<string>, u: Table)
    requires Readable(t)
  {
    exists h: nat :: IsHighest(t, h) && u == AddedAll(t, Sort(catalog, StringOrder.Leq), h).0
  }

  lemma CatalogSorted(catalog: seq<string>)
    ensures var ids := Sort(catalog, StringOrder.Leq);
            |ids| == |catalog| && Sorted(ids, StringOrder.Leq) && forall id :: id in ids <==> id in catalog
  {
    var ids := Sort(catalog, StringOrder.Leq);
    StringOrder.LeqOrders();
    SortElements(catalog, StringOrder.Leq);
    SortSorted(catalog, StringOrder.Leq);
    assert forall id :: id in ids <==> id in multiset(ids);
    assert forall id :: id in catalog <==> id in multiset(catalog);
  }

  /** A run of the allocator over the rule ids of the catalog. An unreadable uid stops
      it before it writes. */
  method AssignUids(existing: Table, catalog: seq<string>) returns (written: Option<Table>)
    ensures written.Some? <==> Readable(existing)
    ensures written.Some? ==> RunsTo(existing, catalog, written.value)
  {
    hide FormatUid, ParseUid, IsHighest;
    var highest := HighestNumber(existing);
    if highest.None? { return None; }
    var h := highest.value;
    var table := existing;
    var ids := Sort(catalog, StringOrder.Leq);
    CatalogSorted(catalog);
    for i := 0 to |ids|
      invariant (table, h) == Added(existing, ids, highest.value, i)
    {
      if ids[i] in table { continue; }
      h := h + 1;
      table := table[ids[i] := FormatUid(h)];
    }
    return Some(table);
  }

  lemma HighestUnique(t: Table, h: nat, k: nat)
    requires Readable(t) && IsHighest(t, h) && IsHighest(t, k)
    ensures h == k
  {}

  /** Old entries stay; the ids handled so far are in. */
  ghost predicate Keeps(t: Table, ids: seq<string>, n: nat, u: Table) {
    && n <= |ids|
    && Readable(t) && Readable(u)
    && (forall id :: id in t ==> id in u && u[id] == t[id])
    && (forall id :: id in u <==> id in t || id in ids[..n])
  }

  ghost predicate NewInRange(t: Table, highest: nat, u: Table, h: nat)
    requires Readable(u)
  {
    forall id :: id in u && id !in t ==> highest < Number(u, id) <= h
  }

  ghost predicate NewDistinct(t: Table, u: Table)
    requires Readable(u)
  {
    forall a, b :: a in u && b in u && a !in t && b !in t && Number(u, a) == Number(u, b) ==> a == b
  }

  /** The new ids hold the numbers from the old highest to the new one, each once. */
  ghost predicate Fills(t: Table, highest: nat, u: Table, h: nat)
    requires Readable(t) && Readable(u)
  {
    && highest <= h && IsHighest(u, h)
    && NewInRange(t, highest, u, h) && NewDistinct(t, u)
    && (forall k: nat :: highest < k <= h ==> Used(u, k))
    && |u| == |t| + (h - highest)
  }

  lemma AddOne(u: Table, id: string, n: nat)
    requires Readable(u) && id !in u
    ensures var v := u[id := FormatUid(n)];
            Readable(v) && Number(v, id) == n && forall a :: a in u ==> Number(v, a) == Number(u, a)
  {
    hide ParseUid, FormatUid;
    ParseFormat(n);
  }

  lemma KeepsStep(t: Table, ids: seq<string>, n: nat, u: Table, h: nat)
    requires n < |ids| && Keeps(t, ids, n, u)
    ensures ids[n] in u ==> Keeps(t, ids, n + 1, u)
    ensures ids[n] !in u ==> Keeps(t, ids, n + 1, u[ids[n] := FormatUid(h + 1)])
  {
    hide ParseUid, FormatUid;
    ParseFormat(h + 1);
    assert ids[..n + 1] == ids[..n] + [ids[n]];
  }

  lemma UsedStep(u: Table, id: string, n: nat)
    requires Readable(u) && id !in u
    ensures var v := u[id := FormatUid(n)]; Readable(v) && Used(v, n) && forall k: nat :: Used(u, k) ==> Used(v, k)
  {
    hide ParseUid, FormatUid, Number, Readable;
    AddOne(u, id, n);
    var v := u[id := FormatUid(n)];
    assert Number(v, id) == n;
    forall k: nat | Used(u, k) ensures Used(v, k) {
      var a :| a in u && Number(u, a) == k;
      assert Number(v, a) == k;
    }
  }

  lemma HighestStep(u: Table, id: string, h: nat)
    requires Readable(u) && id !in u && IsHighest(u, h)
    ensures var v := u[id := FormatUid(h + 1)]; Readable(v) && IsHighest(v, h + 1)
  {
    hide ParseUid, FormatUid, Number, Readable;
    AddOne(u, id, h + 1);
    assert Number(u[id := FormatUid(h + 1)], id) == h + 1;
  }

  lemma NewStep(t: Table, highest: nat, u: Table, h: nat, id: string)
    requires Readable(u) && id !in u && highest <= h && NewInRange(t, highest, u, h) && NewDistinct(t, u)
    ensures var v := u[id := FormatUid(h + 1)]; Readable(v) && NewInRange(t, highest, v, h + 1) && NewDistinct(t, v)
  {
    hide ParseUid, FormatUid, Number, Readable;
    AddOne(u, id, h + 1);
    var v := u[id := FormatUid(h + 1)];
    forall a, b | a in v && b in v && a !in t && b !in t && Number(v, a) == Number(v, b) ensures a == b {
      if a in u { assert Number(u, a) <= h; }
      if b in u { assert Number(u, b) <= h; }
    }
  }

  lemma FillsStep(t: Table, highest: nat, u: Table, h: nat, id: string)
    requires Readable(t) && Readable(u) && Fills(t, highest, u, h) && id !in u
    requires forall a :: a in t ==> a in u
    ensures var v := u[id := FormatUid(h + 1)]; Readable(v) && Fills(t, highest, v, h + 1)
  {
    hide Readable, FormatUid, Used, IsHighest, NewInRange, NewDistinct;
    UsedStep(u, id, h + 1);
    HighestStep(u, id, h);
    NewStep(t, highest, u, h, id);
  }

  lemma NothingYet(t: Table, ids: seq<string>, highest: nat)
    requires Readable(t) && IsHighest(t, highest)
    ensures Keeps(t, ids, 0, t) && Fills(t, highest, t, highest)
  {
    hide Readable, Number;
  }

  lemma {:induction false} AddedExtends(t: Table, ids: seq<string>, highest: nat, n: nat)
    requires Readable(t) && IsHighest(t, highest) && n <= |ids|
    ensures var r := Added(t, ids, highest, n); Keeps(t, ids, n, r.0) && Fills(t, highest, r.0, r.1)
  {
    hide FormatUid, Fills, IsHighest, Readable;
    if n == 0 {
      NothingYet(t, ids, highest);
    } else {
      AddedExtends(t, ids, highest, n - 1);
      var (u, h) := Added(t, ids, highest, n - 1);
      KeepsStep(t, ids, n - 1, u, h);
      if ids[n - 1] !in u { FillsStep(t, highest, u, h, ids[n - 1]); }
    }
  }

  /** New numbers follow the order of the ids. */
  ghost predicate InOrder(t: Table, u: Table)
    requires Readable(u)
  {
    forall a, b :: a in u && b in u && a !in t && b !in t && Number(u, a) < Number(u, b) ==> StringOrder.Leq(a, b)
  }

  lemma InOrderStep(t: Table, highest: nat, u: Table, h: nat, id: string)
    requires Readable(t) && Readable(u) && Fills(t, highest, u, h) && id !in u && InOrder(t, u)
    requires forall a :: a in u && a !in t ==> StringOrder.Leq(a, id)
    ensures var v := u[id := FormatUid(h + 1)]; Readable(v) && InOrder(t, v)
  {
    hide FormatUid, Readable, Number, StringOrder.Leq;
    AddOne(u, id, h + 1);
    assert IsHighest(u, h);
  }

  lemma NewAreEarlier(t: Table, ids: seq<string>, n: nat, u: Table)
    requires n < |ids| && Sorted(ids, StringOrder.Leq) && Keeps(t, ids, n, u)
    ensures forall a :: a in u && a !in t ==> StringOrder.Leq(a, ids[n])
  {
    hide Readable, StringOrder.Leq;
    forall a | a in u && a !in t ensures StringOrder.Leq(a, ids[n]) {
      var i :| 0 <= i < n && ids[..n][i] == a;
    }
  }

  lemma NoneNew(t: Table)
    requires Readable(t)
    ensures InOrder(t, t)
  {}

  lemma {:induction false} AddedInOrder(t: Table, ids: seq<string>, highest: nat, n: nat)
    requires Readable(t) && IsHighest(t, highest) && n <= |ids|
    requires Sorted(ids, StringOrder.Leq)
    ensures var u := Added(t, ids, highest, n).0; Readable(u) && InOrder(t, u)
  {
    hide FormatUid, Readable, IsHighest, Fills, InOrder, Sorted, StringOrder.Leq;
    if n == 0 {
      NoneNew(t);
    } else {
      AddedInOrder(t, ids, highest, n - 1);
      AddedExtends(t, ids, highest, n - 1);
      var (u, h) := Added(t, ids, highest, n - 1);
      if ids[n - 1] !in u {
        NewAreEarlier(t, ids, n - 1, u);
        InOrderStep(t, highest, u, h, ids[n - 1]);
      }
    }
  }

  /** One run: nothing assigned changes, exactly the ids of the catalog are added,
      their numbers are above every earlier one, without gaps and in sorted order. */
  lemma RunExtends(t: Table, catalog: seq<string>, u: Table)
    requires Readable(t) && RunsTo(t, catalog, u)
    ensures Readable(u)
    ensures forall id :: id in t ==> id in u && u[id] == t[id]
    ensures forall id :: id in u <==> id in t || id in catalog
    ensures forall a, b :: a in t && b in u && b !in t ==> Number(t, a) < Number(u, b)
    ensures forall a, b :: a in u && b in u && a !in t && b !in t && Number(u, a) < Number(u, b) ==>
              StringOrder.Leq(a, b)
    ensures Distinct(t) ==> Distinct(u)
  {
    hide Added, ParseUid, Sorted, Sort;
    var ids := Sort(catalog, StringOrder.Leq);
    CatalogSorted(catalog);
    var h: nat :| IsHighest(t, h) && u == AddedAll(t, ids, h).0;
    AddedExtends(t, ids, h, |ids|);
    AddedInOrder(t, ids, h, |ids|);
  }

  /** A run whose catalog is covered changes nothing. */
  lemma RerunIsNoOp(t: Table, catalog: seq<string>, u: Table)
    requires Readable(t) && RunsTo(t, catalog, u)
    ensures u == t <==> forall id :: id in catalog ==> id in t
  {
    hide Sort, Sorted, Added, IsHighest;
    var ids := Sort(catalog, StringOrder.Leq);
    CatalogSorted(catalog);
    RunExtends(t, catalog, u);
    var h: nat :| IsHighest(t, h) && u == AddedAll(t, ids, h).0;
    if forall id :: id in catalog ==> id in t { NothingAdded(t, ids, h, |ids|); }
  }

  lemma {:induction false} NothingAdded(t: Table, ids: seq<string>, highest: nat, n: nat)
    requires n <= |ids| && forall id :: id in ids ==> id in t
    ensures Added(t, ids, highest, n) == (t, highest)
  {
    hide FormatUid;
    if n > 0 { NothingAdded(t, ids, highest, n - 1); }
  }

  // ----- any number of runs

  /** `ts[i + 1]` is the table after run `i`. */
  ghost predicate History(ts: seq<Table>, catalogs: seq<seq<string>>) {
    && |ts| == |catalogs| + 1
    && Readable(ts[0])
    && forall i :: 0 <= i < |catalogs| ==> Readable(ts[i]) && RunsTo(ts[i], catalogs[i], ts[i + 1])
  }

  /** No table of a history is ever refused by the next run. */
  lemma HistoryReadable(ts: seq<Table>, catalogs: seq<seq<string>>, i: nat)
    requires History(ts, catalogs) && i < |ts|
    ensures Readable(ts[i])
  {
    hide Readable, RunsTo;
    if i > 0 { RunExtends(ts[i - 1], catalogs[i - 1], ts[i]); }
  }

  /** A uid is permanent. A rule that leaves the catalog keeps its entry, and an id that
      is new later gets a number above everything the table ever held. */
  lemma {:induction false} UidsArePermanent(ts: seq<Table>, catalogs: seq<seq<string>>, i: nat, j: nat)
    requires History(ts, catalogs) && i <= j < |ts|
    ensures Readable(ts[i]) && Readable(ts[j])
    ensures forall id :: id in ts[i] ==> id in ts[j] && ts[j][id] == ts[i][id]
    ensures forall a, b :: a in ts[i] && b in ts[j] && b !in ts[i] ==> Number(ts[i], a) < Number(ts[j], b)
    decreases j - i
  {
    hide RunsTo, ParseUid;
    HistoryReadable(ts, catalogs, i);
    if i < j {
      UidsArePermanent(ts, catalogs, i, j - 1);
      HistoryStep(ts, catalogs, j - 1);
      RunExtends(ts[j - 1], catalogs[j - 1], ts[j]);
    }
  }

  lemma HistoryStep(ts: seq<Table>, catalogs: seq<seq<string>>, i: nat)
    requires History(ts, catalogs) && i < |catalogs|
    ensures Readable(ts[i]) && RunsTo(ts[i], catalogs[i], ts[i + 1])
  {}

  /** Over a whole history no two ids, present or retired, ever share a number. */
  lemma {:induction false} UidsAreNeverShared(ts: seq<Table>, catalogs: seq<seq<string>>, i: nat)
    requires History(ts, catalogs) && Distinct(ts[0]) && i < |ts|
    ensures Readable(ts[i]) && Distinct(ts[i])
  {
    hide Distinct, RunsTo, Readable;
    if i > 0 {
      UidsAreNeverShared(ts, catalogs, i - 1);
      HistoryStep(ts, catalogs, i - 1);
      RunExtends(ts[i - 1], catalogs[i - 1], ts[i]);
    }
  }

  /** The numbers of the table are 1 to the number of its ids. */
  ghost predicate Contiguous(t: Table)
    requires Readable(t)
  {
    IsHighest(t, |t|) && Distinct(t) && forall k: nat :: 1 <= k <= |t| ==> Used(t, k)
  }

  /** From an empty table the numbers in use are always exactly 1 to the number of ids. */
  lemma {:induction false} NumbersHaveNoGaps(ts: seq<Table>, catalogs: seq<seq<string>>, i: nat)
    requires History(ts, catalogs) && ts[0] == map[] && i < |ts|
    ensures Readable(ts[i]) && Contiguous(ts[i])
  {
    hide RunsTo, Contiguous, Readable;
    if i == 0 {
      EmptyTable();
    } else {
      NumbersHaveNoGaps(ts, catalogs, i - 1);
      HistoryStep(ts, catalogs, i - 1);
      RunCounts(ts[i - 1], catalogs[i - 1], ts[i]);
    }
  }

  lemma EmptyTable()
    ensures Readable(map[]) && Contiguous(map[])
  {}

  lemma RunCounts(t: Table, catalog: seq<string>, u: Table)
    requires Readable(t) && RunsTo(t, catalog, u) && Contiguous(t)
    ensures Readable(u) && Contiguous(u)
  {
    hide Sort, Added, ParseUid;
    var ids := Sort(catalog, StringOrder.Leq);
    RunExtends(t, catalog, u);
    var h: nat :| IsHighest(t, h) && u == AddedAll(t, ids, h).0;
    HighestUnique(t, h, |t|);
    AddedExtends(t, ids, h, |ids|);
    forall k: nat | 1 <= k <= |u| ensures Used(u, k) {
      if k <= |t| {
        assert Used(t, k);
        var id :| id in t && Number(t, id) == k;
        assert Number(u, id) == k;
      }
    }
  }
}
