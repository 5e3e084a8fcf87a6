/** The gate on the weight-bearing cluster rule H098. */
module ClusterGate {

  type RuleId = string
  /** The rule ids that fired on one diff. */
  type Row = set<RuleId>

  const CLUSTER: RuleId := "H098"

  function Fired(rows: seq<Row>, id: RuleId): nat {
    if rows == [] then 0 else (if id in rows[0] then 1 else 0) + Fired(rows[1..], id)
  }

  function MembersIn(row: Row, members: seq<RuleId>): set<RuleId> {
    set m | m in members && m in row
  }

  function Rate(count: nat, n: nat): real {
    if n == 0 then 0.0 else count as real / n as real
  }

  function MemberRates(rows: seq<Row>, members: seq<RuleId>): real {
    if members == [] then 0.0 else Rate(Fired(rows, members[0]), |rows|) + MemberRates(rows, members[1..])
  }

  /** A row carries the cluster with fewer than two of its members. */
  predicate Under(row: Row, members: seq<RuleId>) {
    CLUSTER in row && |MembersIn(row, members)| < 2
  }

  /** No row is under, and the cluster's rate is at most the sum of the members'. */
  predicate GatePasses(rows: seq<Row>, members: seq<RuleId>) {
    && (forall row | row in rows :: !Under(row, members))
    && !(Rate(Fired(rows, CLUSTER), |rows|) > MemberRates(rows, members) + 0.000000001)
  }

  // ----- counting every member of every row in two ways

  function MemberCounts(rows: seq<Row>, members: seq<RuleId>): nat {
    if members == [] then 0 else Fired(rows, members[0]) + MemberCounts(rows, members[1..])
  }

  function CountIn(row: Row, members: seq<RuleId>): nat {
    if members == [] then 0 else (if members[0] in row then 1 else 0) + CountIn(row, members[1..])
  }

  lemma {:induction false} CountsByRow(rows: seq<Row>, members: seq<RuleId>)
    requires rows != []
    ensures MemberCounts(rows, members) == CountIn(rows[0], members) + MemberCounts(rows[1..], members)
  {
    if members != [] { CountsByRow(rows, members[1..]); }
  }

  ghost predicate Distinct(members: seq<RuleId>) {
    forall i, j :: 0 <= i < j < |members| ==> members[i] != members[j]
  }

  lemma {:induction false} CountIsSize(row: Row, members: seq<RuleId>)
    requires Distinct(members)
    ensures CountIn(row, members) == |MembersIn(row, members)|
  {
    if members == [] {
      assert MembersIn(row, members) == {};
    } else {
      CountIsSize(row, members[1..]);
      var rest := MembersIn(row, members[1..]);
      assert members == [members[0]] + members[1..];
      assert members[0] !in members[1..];
      assert MembersIn(row, members) == rest + if members[0] in row then {members[0]} else {};
    }
  }

  lemma {:induction false} NoRowsNoCounts(members: seq<RuleId>)
    ensures MemberCounts([], members) == 0
  {
    if members != [] { NoRowsNoCounts(members[1..]); }
  }

  lemma {:induction false} DoubleCount(rows: seq<Row>, members: seq<RuleId>)
    requires Distinct(members) && forall row | row in rows :: !Under(row, members)
    ensures 2 * Fired(rows, CLUSTER) <= MemberCounts(rows, members)
  {
    if rows == [] {
      NoRowsNoCounts(members);
    } else {
      assert rows == [rows[0]] + rows[1..];
      assert rows[0] in rows;
      DoubleCount(rows[1..], members);
      CountsByRow(rows, members);
      CountIsSize(rows[0], members);
    }
  }

  /** A rate times the number of rows. */
  function Total(rate: real, n: nat): real {
    rate * (n as real)
  }

  lemma {:induction false} RatesAreCounts(rows: seq<Row>, members: seq<RuleId>)
    requires rows != []
    ensures Total(MemberRates(rows, members), |rows|) == MemberCounts(rows, members) as real
  {
    if members != [] {
      hide Rate, Total, Fired;
      RatesAreCounts(rows, members[1..]);
      var r := Rate(Fired(rows, members[0]), |rows|);
      RateTotal(Fired(rows, members[0]), |rows|);
      TotalSum(r, MemberRates(rows, members[1..]), |rows|);
    } else {
      TotalSum(0.0, 0.0, |rows|);
    }
  }

  lemma RateTotal(count: nat, n: nat)
    requires n > 0
    ensures Total(Rate(count, n), n) == count as real
  {}

  lemma TotalSum(a: real, b: real, n: nat)
    ensures Total(a + b, n) == Total(a, n) + Total(b, n)
    ensures Total(0.0, n) == 0.0
  {
    assert (a + b) * (n as real) == a * (n as real) + b * (n as real);
  }

  lemma {:induction false} RatesOfNothing(members: seq<RuleId>)
    ensures MemberRates([], members) == 0.0
  {
    if members != [] { RatesOfNothing(members[1..]); }
  }

  /** If every row with the cluster carries two members, twice the cluster's rate is
      at most the sum of the member rates. */
  lemma TwiceClusterRate(rows: seq<Row>, members: seq<RuleId>)
    requires Distinct(members) && forall row | row in rows :: !Under(row, members)
    ensures 2.0 * Rate(Fired(rows, CLUSTER), |rows|) <= MemberRates(rows, members)
  {
    if rows == [] {
      RatesOfNothing(members);
    } else {
      hide Rate, MemberRates, MemberCounts, Total, Fired;
      DoubleCount(rows, members);
      RatesAreCounts(rows, members);
      RateOrder(Fired(rows, CLUSTER), |rows|, MemberRates(rows, members), MemberCounts(rows, members));
    }
  }

  lemma RateOrder(count: nat, n: nat, sum: real, total: nat)
    requires n > 0 && Total(sum, n) == total as real && 2 * count <= total
    ensures 2.0 * Rate(count, n) <= sum
  {
    var r, m := Rate(count, n), n as real;
    assert r * m == count as real;
    assert (sum - 2.0 * r) * m == total as real - 2.0 * (count as real);
    if sum < 2.0 * r { assert (2.0 * r - sum) * m > 0.0; }
  }

  lemma {:induction false} RatesNonNegative(rows: seq<Row>, members: seq<RuleId>)
    ensures MemberRates(rows, members) >= 0.0
  {
    if members != [] {
      RatesNonNegative(rows, members[1..]);
      var r := Rate(Fired(rows, members[0]), |rows|);
      if |rows| > 0 { assert r * (|rows| as real) == Fired(rows, members[0]) as real; }
    }
  }

  /** Two different members fired on the row. */
  ghost predicate TwoMembers(row: Row, members: seq<RuleId>) {
    exists a, b :: a in members && b in members && a != b && a in row && b in row
  }

  lemma UnderMeaning(row: Row, members: seq<RuleId>)
    ensures Under(row, members) <==> "H098" in row && !TwoMembers(row, members)
  {
    var mine := MembersIn(row, members);
    if a, b :| a in members && b in members && a != b && a in row && b in row {
      assert {a, b} <= mine;
      SubsetSize({a, b}, mine);
    }
    if |mine| >= 2 {
      var a :| a in mine;
      assert |mine - {a}| >= 1;
      var b :| b in mine - {a};
    }
  }

  lemma SubsetSize<T>(a: set<T>, b: set<T>)
    requires a <= b
    ensures |a| <= |b|
  {
    assert |b - a| == |b| - |a|;
  }

  /** The gate passes exactly when every row with H098 carries two different members;
      the check on the rates never fails alone. */
  lemma GatePassesIff(rows: seq<Row>, members: seq<RuleId>)
    requires Distinct(members)
    ensures GatePasses(rows, members) <==> forall row | row in rows && "H098" in row :: TwoMembers(row, members)
  {
    hide GatePasses, Under;
    GateIsFirstCheck(rows, members);
    forall row | row in rows ensures Under(row, members) <==> "H098" in row && !TwoMembers(row, members) {
      UnderMeaning(row, members);
    }
  }

  /** The rows on which a rule fired. */
  ghost function RowsWith(rows: seq<Row>, id: RuleId): set<nat> {
    set i: nat | i < |rows| && id in rows[i]
  }

  /** A rate is the share of rows on which the rule fired. */
  lemma RateMeaning(rows: seq<Row>, id: RuleId)
    ensures Fired(rows, id) == |RowsWith(rows, id)|
    ensures rows != [] ==> Rate(Fired(rows, id), |rows|) * (|rows| as real) == |RowsWith(rows, id)| as real
  {
    FiredIsCount(rows, id, |rows|);
    assert rows[..|rows|] == rows;
  }

  lemma {:induction false} FiredIsCount(rows: seq<Row>, id: RuleId, n: nat)
    requires n <= |rows|
    ensures Fired(rows[..n], id) == |RowsWith(rows[..n], id)|
  {
    if n == 0 {
      assert RowsWith([], id) == {};
    } else {
      FiredIsCount(rows, id, n - 1);
      assert rows[..n] == rows[..n - 1] + [rows[n - 1]];
      FiredSnoc(rows[..n - 1], rows[n - 1], id);
      var a, b := RowsWith(rows[..n - 1], id), RowsWith(rows[..n], id);
      assert b == if id in rows[n - 1] then a + {n - 1} else a;
    }
  }

  lemma {:induction false} FiredSnoc(rows: seq<Row>, row: Row, id: RuleId)
    ensures Fired(rows + [row], id) == Fired(rows, id) + if id in row then 1 else 0
  {
    if rows != [] {
      FiredSnoc(rows[1..], row, id);
      assert (rows + [row])[1..] == rows[1..] + [row];
    }
  }

  /** The second check never fails alone: the gate is its first check. */
  lemma GateIsFirstCheck(rows: seq<Row>, members: seq<RuleId>)
    requires Distinct(members)
    ensures GatePasses(rows, members) <==> forall row | row in rows :: !Under(row, members)
  {
    hide Rate, MemberRates;
    if forall row | row in rows :: !Under(row, members) {
      TwiceClusterRate(rows, members);
      RatesNonNegative(rows, members);
    }
  }
}
