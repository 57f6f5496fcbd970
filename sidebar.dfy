/**
 * The sidebar of the dashboard: the default widget selections computed from
 * the table, and the three narrowing steps that turn the table into the
 * filtered table the key metrics are computed from.
 */
module Sidebar {
  import opened Wrappers
  import opened Table

  /** Which of the optional columns the loaded table has. */
  datatype Columns = Columns(hasContract: bool, hasAge: bool, hasOffer: bool)

  /** What the three widgets hold: chosen contract types, an inclusive age range, chosen offers. */
  datatype Selection = Selection(contracts: seq<string>, ageRange: (int, int), offers: seq<string>)

  /** `Series.unique()`: each distinct value of the column, once. */
  function Unique(xs: seq<string>): (r: seq<string>)
    ensures forall x :: x in r <==> x in xs
    ensures forall i, j :: 0 <= i < j < |r| ==> r[i] != r[j]
  {
    if xs == [] then []
    else
      var init := xs[..|xs| - 1];
      var last := xs[|xs| - 1];
      assert xs == init + [last];
      var u := Unique(init);
      if last in u then u else u + [last]
  }

  /** `df['Contract']`. */
  function ContractColumn(df: seq<Customer>): (r: seq<string>)
    ensures |r| == |df| && forall k :: 0 <= k < |df| ==> r[k] == df[k].contract
  {
    seq(|df|, k requires 0 <= k < |df| => df[k].contract)
  }

  /** `df['Offer']`. */
  function OfferColumn(df: seq<Customer>): (r: seq<string>)
    ensures |r| == |df| && forall k :: 0 <= k < |df| ==> r[k] == df[k].offer
  {
    seq(|df|, k requires 0 <= k < |df| => df[k].offer)
  }

  /** The contract-type options: the distinct contracts of the table, or none without a Contract column. */
  function ContractTypes(df: seq<Customer>, cols: Columns): (r: seq<string>)
    ensures forall c :: c in r <==> cols.hasContract && exists k :: 0 <= k < |df| && df[k].contract == c
    ensures |r| == 0 <==> !cols.hasContract || df == []
  {
    if cols.hasContract then
      var col := ContractColumn(df);
      assert df != [] ==> col[0] in col;
      Unique(col)
    else []
  }

  /** The offer options: the distinct offers of the table (used only when there is an Offer column). */
  function OfferTypes(df: seq<Customer>): (r: seq<string>)
    ensures forall o :: o in r <==> exists k :: 0 <= k < |df| && df[k].offer == o
  {
    Unique(OfferColumn(df))
  }

  /** `df['Age'].min()` of a non-empty table. */
  function MinAge(df: seq<Customer>): (r: int)
    requires df != []
    ensures exists k :: 0 <= k < |df| && df[k].age == r
    ensures forall k :: 0 <= k < |df| ==> r <= df[k].age
  {
    if |df| == 1 then df[0].age
    else
      var rest := MinAge(df[1..]);
      if df[0].age <= rest then df[0].age else rest
  }

  /** `df['Age'].max()` of a non-empty table. */
  function MaxAge(df: seq<Customer>): (r: int)
    requires df != []
    ensures exists k :: 0 <= k < |df| && df[k].age == r
    ensures forall k :: 0 <= k < |df| ==> df[k].age <= r
  {
    if |df| == 1 then df[0].age
    else
      var rest := MaxAge(df[1..]);
      if df[0].age >= rest then df[0].age else rest
  }

  /**
   * The slider's bounds: the table's age span, or `(0, 100)` without an Age
   * column. With an Age column and no rows the minimum is NaN and `int` of it
   * raises: `None`.
   */
  function AgeBounds(df: seq<Customer>, cols: Columns): (r: Option<(int, int)>)
    ensures r.None? <==> cols.hasAge && df == []
    ensures !cols.hasAge ==> r == Some((0, 100))
    ensures r.Some? && cols.hasAge ==>
      && (exists k :: 0 <= k < |df| && df[k].age == r.value.0)
      && (exists k :: 0 <= k < |df| && df[k].age == r.value.1)
      && forall k :: 0 <= k < |df| ==> r.value.0 <= df[k].age <= r.value.1
  {
    if !cols.hasAge then Some((0, 100))
    else if df == [] then None
    else Some((MinAge(df), MaxAge(df)))
  }

  /** The widgets' initial state: every contract type, the whole age span, every offer. */
  function DefaultSelection(df: seq<Customer>, cols: Columns): (r: Option<Selection>)
    ensures r.None? <==> cols.hasAge && df == []
    ensures r.Some? ==>
      && r.value.contracts == ContractTypes(df, cols)
      && Some(r.value.ageRange) == AgeBounds(df, cols)
      && r.value.offers == (if cols.hasOffer then OfferTypes(df) else [])
  {
    match AgeBounds(df, cols)
    case None => None
    case Some(bounds) => Some(Selection(ContractTypes(df, cols), bounds, if cols.hasOffer then OfferTypes(df) else []))
  }

  /** The contract step applies whenever the table offered any contract type. */
  predicate ContractOk(contractTypes: seq<string>, sel: Selection, row: Customer)
  {
    |contractTypes| > 0 ==> row.contract in sel.contracts
  }

  /** The age step applies whenever there is an Age column; both bounds are inclusive. */
  predicate AgeOk(cols: Columns, sel: Selection, row: Customer)
  {
    cols.hasAge ==> sel.ageRange.0 <= row.age <= sel.ageRange.1
  }

  /** The offer step applies only to a non-empty offer selection over an Offer column. */
  predicate OfferOk(cols: Columns, sel: Selection, row: Customer)
  {
    |sel.offers| > 0 && cols.hasOffer ==> row.offer in sel.offers
  }

  /** A row survives the sidebar when it passes all three steps. */
  predicate Admits(contractTypes: seq<string>, cols: Columns, sel: Selection, row: Customer)
  {
    ContractOk(contractTypes, sel, row) && AgeOk(cols, sel, row) && OfferOk(cols, sel, row)
  }

  function Mask(contractTypes: seq<string>, cols: Columns, sel: Selection): Customer -> bool
  {
    row => Admits(contractTypes, cols, sel, row)
  }

  /**
   * The filtered table as one conjunctive selection: the rows of `df` that pass
   * every active step, in table order.
   */
  function Filtered(df: seq<Customer>, cols: Columns, sel: Selection): (r: seq<Customer>)
    ensures IsSubseq(r, df)
    ensures forall row :: row in r <==> row in df && Admits(ContractTypes(df, cols), cols, sel, row)
    ensures forall row :: multiset(r)[row] == (if Admits(ContractTypes(df, cols), cols, sel, row) then multiset(df)[row] else 0)
  {
    var mask := Mask(ContractTypes(df, cols), cols, sel);
    SelectIsSubseq(df, mask);
    Select(df, mask)
  }

  /**
   * The filter block: start from a copy of the table and narrow it by
   * contract, then by age, then by offer, each step only when its condition
   * holds. The result is the one-pass conjunctive selection.
   */
  method ApplyFilters(df: seq<Customer>, cols: Columns, sel: Selection) returns (filtered: seq<Customer>)
    ensures filtered == Filtered(df, cols, sel)
  {
    var contractTypes := ContractTypes(df, cols);
    ghost var upToContract := (row: Customer) => ContractOk(contractTypes, sel, row);
    ghost var upToAge := (row: Customer) => ContractOk(contractTypes, sel, row) && AgeOk(cols, sel, row);
    var inContracts := (row: Customer) => row.contract in sel.contracts;
    var inAgeRange := (row: Customer) => sel.ageRange.0 <= row.age <= sel.ageRange.1;
    var inOffers := (row: Customer) => row.offer in sel.offers;

    filtered := df;
    if |contractTypes| > 0 {
      filtered := Select(filtered, inContracts);
      SelectAgree(df, inContracts, upToContract);
    } else {
      SelectKeepsAll(df, upToContract);
    }
    assert filtered == Select(df, upToContract);

    if cols.hasAge {
      filtered := Select(filtered, inAgeRange);
      SelectThenSelect(df, upToContract, inAgeRange, upToAge);
    } else {
      SelectAgree(df, upToContract, upToAge);
    }
    assert filtered == Select(df, upToAge);

    var mask := Mask(contractTypes, cols, sel);
    if |sel.offers| > 0 && cols.hasOffer {
      filtered := Select(filtered, inOffers);
      SelectThenSelect(df, upToAge, inOffers, mask);
    } else {
      SelectAgree(df, upToAge, mask);
    }
  }

  /** With contract types on offer and none chosen, no row survives. */
  lemma EmptyContractSelection(df: seq<Customer>, cols: Columns, sel: Selection)
    requires ContractTypes(df, cols) != [] && sel.contracts == []
    ensures Filtered(df, cols, sel) == []
  {
    SelectKeepsNone(df, Mask(ContractTypes(df, cols), cols, sel));
  }

  /** An empty offer selection filters exactly as if the table had no Offer column. */
  lemma EmptyOfferSelection(df: seq<Customer>, cols: Columns, sel: Selection)
    requires sel.offers == []
    ensures Filtered(df, cols, sel) == Filtered(df, cols.(hasOffer := false), sel)
  {
    var noOffer := cols.(hasOffer := false);
    assert ContractTypes(df, cols) == ContractTypes(df, noOffer);
    SelectAgree(df, Mask(ContractTypes(df, cols), cols, sel), Mask(ContractTypes(df, noOffer), noOffer, sel));
  }

  /** Filtering the filtered table again, with the same widgets, changes nothing. */
  lemma FilterIdempotent(df: seq<Customer>, cols: Columns, sel: Selection)
    ensures Filtered(Filtered(df, cols, sel), cols, sel) == Filtered(df, cols, sel)
  {
    var f := Filtered(df, cols, sel);
    var types := ContractTypes(df, cols);
    var again := ContractTypes(f, cols);
    forall row | row in f
      ensures Mask(again, cols, sel)(row)
    {
      assert Admits(types, cols, sel, row);
      if |again| > 0 {
        var k :| 0 <= k < |df| && df[k] == row;
        assert row.contract in types;
      }
    }
    SelectKeepsAll(f, Mask(again, cols, sel));
  }

  /** The widgets' initial state lets every row through. */
  lemma DefaultsKeepAll(df: seq<Customer>, cols: Columns)
    requires DefaultSelection(df, cols).Some?
    ensures Filtered(df, cols, DefaultSelection(df, cols).value) == df
  {
    var sel := DefaultSelection(df, cols).value;
    var types := ContractTypes(df, cols);
    forall row | row in df
      ensures Mask(types, cols, sel)(row)
    {
      var k :| 0 <= k < |df| && df[k] == row;
      assert ContractOk(types, sel, row);
      assert OfferOk(cols, sel, row) by {
        if cols.hasOffer {
          assert row.offer in OfferTypes(df);
        }
      }
    }
    SelectKeepsAll(df, Mask(types, cols, sel));
  }
}
