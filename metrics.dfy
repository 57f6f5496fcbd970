/**
 * The churn figures: the sidebar's overall churn rate of the filtered table,
 * and the churn rate of each contract type on the Churn Analysis tab.
 */
module Metrics {
  import opened Table

  /** A percentage, or NaN where pandas divides zero by zero. */
  datatype Rate = NaN | Percent(value: real)

  /** Number of rows whose status is `status`. */
  function CountStatus(rows: seq<Customer>, status: string): (r: nat)
    ensures r <= |rows|
  {
    if rows == [] then 0 else (if rows[0].status == status then 1 else 0) + CountStatus(rows[1..], status)
  }

  /** A part of a positive whole is at most all of it. */
  lemma ShareAtMostOne(part: nat, whole: nat)
    requires part <= whole && whole > 0
    ensures 0.0 <= (part as real) / (whole as real) <= 1.0
    ensures (part as real) / (whole as real) * (whole as real) == part as real
  {
    var c, d := part as real, whole as real;
    var q := c / d;
    assert q * d == c;
    assert (1.0 - q) * d == d - c;
  }

  /**
   * `part / whole * 100` as pandas computes it on floats: a percentage, or NaN
   * when the whole is 0 (0 / 0).
   */
  function PercentShare(part: nat, whole: nat): (r: Rate)
    requires part <= whole
    ensures r.NaN? <==> whole == 0
    ensures r.Percent? ==> 0.0 <= r.value <= 100.0
    ensures r.Percent? ==> r.value * (whole as real) == 100.0 * (part as real)
  {
    if whole == 0 then NaN
    else
      ShareAtMostOne(part, whole);
      Percent((part as real) / (whole as real) * 100.0)
  }

  /**
   * The sidebar's churn rate: the mean of the "status is Churned" indicator,
   * times 100, so the share of churned rows as a percentage; NaN for a table
   * without rows.
   */
  function ChurnRate(rows: seq<Customer>): (r: Rate)
    ensures r.NaN? <==> rows == []
    ensures r.Percent? ==> 0.0 <= r.value <= 100.0
    ensures r.Percent? ==> r.value * (|rows| as real) == 100.0 * (CountStatus(rows, "Churned") as real)
  {
    PercentShare(CountStatus(rows, "Churned"), |rows|)
  }

  lemma {:induction false} CountStatusAll(rows: seq<Customer>, status: string)
    ensures CountStatus(rows, status) == |rows| <==> forall k :: 0 <= k < |rows| ==> rows[k].status == status
  {
    if rows != [] {
      CountStatusAll(rows[1..], status);
      assert forall k :: 1 <= k < |rows| ==> rows[k] == rows[1..][k - 1];
    }
  }

  lemma {:induction false} CountStatusNone(rows: seq<Customer>, status: string)
    ensures CountStatus(rows, status) == 0 <==> forall k :: 0 <= k < |rows| ==> rows[k].status != status
  {
    if rows != [] {
      CountStatusNone(rows[1..], status);
      assert forall k :: 1 <= k < |rows| ==> rows[k] == rows[1..][k - 1];
    }
  }

  /** A share is 100% only of the whole and 0% only of nothing. */
  lemma PercentShareExtremes(part: nat, whole: nat)
    requires part <= whole && whole > 0
    ensures PercentShare(part, whole) == Percent(100.0) <==> part == whole
    ensures PercentShare(part, whole) == Percent(0.0) <==> part == 0
  {
    var c, d := part as real, whole as real;
    var q := c / d;
    assert q * d == c;
    if q == 1.0 {
      assert c == d;
    }
    if q == 0.0 {
      assert c == 0.0;
    }
  }

  /** The rate is 100% exactly when every row churned, and 0% exactly when none did. */
  lemma ChurnRateExtremes(rows: seq<Customer>)
    requires rows != []
    ensures ChurnRate(rows) == Percent(100.0) <==> forall k :: 0 <= k < |rows| ==> rows[k].status == "Churned"
    ensures ChurnRate(rows) == Percent(0.0) <==> forall k :: 0 <= k < |rows| ==> rows[k].status != "Churned"
  {
    CountStatusAll(rows, "Churned");
    CountStatusNone(rows, "Churned");
    PercentShareExtremes(CountStatus(rows, "Churned"), |rows|);
  }

  /** Size of the (contract, status) group; 0 for a pair that never occurs (`fillna(0)`). */
  function GroupSize(rows: seq<Customer>, contract: string, status: string): (r: nat)
    ensures r <= |rows|
  {
    if rows == [] then 0
    else (if rows[0].contract == contract && rows[0].status == status then 1 else 0) + GroupSize(rows[1..], contract, status)
  }

  /**
   * Churned over Churned plus Stayed, times 100, for one contract type: rows with any
   * other status are not in the denominator; NaN when neither occurs.
   */
  function ContractChurnRate(rows: seq<Customer>, contract: string): (r: Rate)
    ensures var churned, stayed := GroupSize(rows, contract, "Churned"), GroupSize(rows, contract, "Stayed");
      && (r.NaN? <==> churned + stayed == 0)
      && (r.Percent? ==> 0.0 <= r.value <= 100.0)
      && (r.Percent? ==> r.value * ((churned + stayed) as real) == 100.0 * (churned as real))
  {
    var churned, stayed := GroupSize(rows, contract, "Churned"), GroupSize(rows, contract, "Stayed");
    PercentShare(churned, churned + stayed)
  }

  /** Outcome of the Churn by Contract Type computation. */
  datatype ChurnTable =
    | MissingStatus(status: string)          // the unstacked table lacks this status column: KeyError
    | Rates(byContract: map<string, Rate>)   // one rate per contract type in the table

  /** The contract types occurring in the table: the groups of the groupby. */
  function ContractSet(rows: seq<Customer>): (r: set<string>)
    ensures forall c :: c in r <==> exists k :: 0 <= k < |rows| && rows[k].contract == c
  {
    set k | 0 <= k < |rows| :: rows[k].contract
  }

  /**
   * The Churn by Contract Type table: group sizes per contract and status,
   * spread into one column per status with absent pairs counted as 0, and
   * the derived churn-rate column. The unstacked table has a column only for the
   * statuses that occur somewhere; 'Churned' is looked up first.
   */
  function ChurnByContract(rows: seq<Customer>): (r: ChurnTable)
    ensures r == MissingStatus("Churned") <==> CountStatus(rows, "Churned") == 0
    ensures r == MissingStatus("Stayed") <==> CountStatus(rows, "Churned") > 0 && CountStatus(rows, "Stayed") == 0
    ensures r.Rates? ==>
      && r.byContract.Keys == ContractSet(rows)
      && (forall c :: c in r.byContract ==> r.byContract[c] == ContractChurnRate(rows, c))
  {
    if CountStatus(rows, "Churned") == 0 then MissingStatus("Churned")
    else if CountStatus(rows, "Stayed") == 0 then MissingStatus("Stayed")
    else Rates(map c | c in ContractSet(rows) :: ContractChurnRate(rows, c))
  }

  /** The rows of one contract type whose status is Churned or Stayed. */
  function Decided(contract: string): Customer -> bool
  {
    (row: Customer) => row.contract == contract && (row.status == "Churned" || row.status == "Stayed")
  }

  lemma {:induction false} DecidedCounts(rows: seq<Customer>, contract: string)
    ensures CountStatus(Select(rows, Decided(contract)), "Churned") == GroupSize(rows, contract, "Churned")
    ensures |Select(rows, Decided(contract))| == GroupSize(rows, contract, "Churned") + GroupSize(rows, contract, "Stayed")
  {
    if rows != [] {
      DecidedCounts(rows[1..], contract);
      var s := Select(rows, Decided(contract));
      if Decided(contract)(rows[0]) {
        assert s[1..] == Select(rows[1..], Decided(contract));
      } else {
        assert s == Select(rows[1..], Decided(contract));
      }
    }
  }

  /**
   * A contract's churn rate is the overall churn rate of that contract's rows
   * once every row that neither churned nor stayed is dropped.
   */
  lemma ContractRateIsChurnRateOfDecided(rows: seq<Customer>, contract: string)
    ensures ContractChurnRate(rows, contract) == ChurnRate(Select(rows, Decided(contract)))
  {
    DecidedCounts(rows, contract);
  }

  lemma {:induction false} GroupSizeConcat(a: seq<Customer>, b: seq<Customer>, contract: string, status: string)
    ensures GroupSize(a + b, contract, status) == GroupSize(a, contract, status) + GroupSize(b, contract, status)
  {
    if a != [] {
      GroupSizeConcat(a[1..], b, contract, status);
      assert (a + b)[1..] == a[1..] + b;
    } else {
      assert a + b == b;
    }
  }

  /** A row that neither churned nor stayed (a Joined customer, say) changes no contract's rate. */
  lemma OtherStatusIgnored(before: seq<Customer>, row: Customer, after: seq<Customer>, contract: string)
    requires row.status != "Churned" && row.status != "Stayed"
    ensures ContractChurnRate(before + [row] + after, contract) == ContractChurnRate(before + after, contract)
  {
    GroupSizeConcat(before + [row], after, contract, "Churned");
    GroupSizeConcat(before + [row], after, contract, "Stayed");
    GroupSizeConcat(before, [row], contract, "Churned");
    GroupSizeConcat(before, [row], contract, "Stayed");
    GroupSizeConcat(before, after, contract, "Churned");
    GroupSizeConcat(before, after, contract, "Stayed");
  }
}
