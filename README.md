# Telecom churn dashboard: data logic

This project models the three parts of the telecom customer churn dashboard
(`d.py`) that carry data logic. It proves properties of the model.

- **Categorical mode-fill** (`get_data`). Each column in a fixed list of eleven
  service and offer columns has its missing cells replaced by the column's mode.
  The mode is the most frequent non-missing value; pandas breaks ties in favour
  of the value that sorts first. Module `ModeFill`: a `Column` is a
  `seq<Option<string>>`, and `Mode` and `ModeFilled` are functions. The loaded
  table is a class `Frame` whose `columns` map the methods rewrite in place,
  one column at a time, as the `for col in cols_to_fill` loop does.
- **Sidebar filter**. The defaults of the three widgets come from the table:
  the distinct contract types, the age span and the distinct offers. The table
  is then narrowed in three conditional steps: by contract, by inclusive age
  range, and by offer. Module `Table` holds the customer record and row
  selection by a boolean mask. Module `Sidebar` holds the defaults, the
  one-pass reference `Filtered`, and the step-by-step `ApplyFilters` method
  that is proved equal to it.
- **Churn metrics**. The overall churn rate is the share of Churned rows × 100.
  The per-contract rate is Churned / (Churned + Stayed) × 100. Both are
  modelled in module `Metrics` with integer counts and exact `real` ratios.
  `Rate.NaN` stands for the NaN pandas produces from 0/0.

Error paths are values, not preconditions:
- A listed column that is absent, or has no value at all, makes the fill fail.
  In `d.py` that is a KeyError, or `mode()[0]` on an empty mode.
- An empty table with an Age column has no default age range, because
  `int(NaN)` raises.
- When no row anywhere is Churned (or Stayed), the unstacked table has no such
  column and the per-contract computation raises KeyError. `Churned` is looked
  up first.
- The churn rate of an empty table is NaN.

Edge cases, as `d.py` decides them:
- An empty contract selection over a non-empty set of contract types lets no row
  through (d.py:407-408).
- An empty offer selection imposes no restriction at all, so the two
  multiselects do not share one empty-set rule (d.py:414-415).
- The churn rate of an empty table is NaN, the mean of no values (d.py:419).

## Model

| member | source | states |
|---|---|---|
| `ModeFill.Mode` | d.py:41 | `None` exactly when every cell is missing (where `mode()[0]` raises). Otherwise the value occurs in the column, no value occurs more often, and among equally frequent values it sorts first in Python's string order |
| `ModeFill.ModeUnique` | d.py:41 | at most one value has the mode property, so `mode()[0]` is determined by the column alone |
| `ModeFill.ModeIsTheMode` | d.py:41 | any value with the mode property is the one `Mode` returns, so `Mode` agrees with the independent definition `IsModeOf` |
| `ModeFill.FillMissing` | d.py:41 | `fillna(v)` keeps the length, turns every missing cell into `v` and leaves every present cell as it was |
| `ModeFill.CountAfterFill` | d.py:41 | after filling with `v`, the count of `v` grows by the number of missing cells and every other value's count is unchanged |
| `ModeFill.FillKeepsMode` | d.py:41 | the fill value is still the mode of the filled column |
| `ModeFill.ModeFilled` | d.py:41 | fails exactly on an all-missing column. Otherwise: same length, no missing cell, present cells unchanged, and each missing cell becomes the mode of the original column |
| `ModeFill.ModeFilledIdempotent` | d.py:40-41 | mode-filling an already filled column changes nothing |
| `ModeFill.Frame.FillColumn` | d.py:41 | succeeds iff the column exists and has a value. On success only that column changes, to its mode-filled value; on failure nothing changes; all columns keep the row count |
| `ModeFill.Frame.FillColumns` | d.py:34-41 | succeeds iff every listed column exists and has a value. Unlisted columns never change, and the set of columns and the row count are kept. On success every listed column is mode-filled from its loaded value, and a name listed twice is filled once in effect |
| `ModeFill.Frame.FillCategoricals` | d.py:34-41 | the fill loop over the fixed list of eleven columns: succeeds iff each listed column exists and has a value; unlisted columns never change; on success each listed column is mode-filled |
| `Table.Select` | d.py:408 | boolean-mask selection keeps exactly the rows that satisfy the mask, each as many times as it occurs in the table, and drops every other row |
| `Table.SelectIsSubseq` | d.py:406-415 | a selection is a subsequence of the table: rows keep their original order |
| `Table.SelectThenSelect` | d.py:406-415 | narrowing by one mask and then by another equals one selection by their conjunction |
| `Sidebar.Unique` | d.py:378 | `unique()` has exactly the values of the column, each once |
| `Sidebar.ContractTypes` | d.py:378 | the contract options are exactly the contracts occurring in the table. They are empty iff there is no Contract column or the table is empty |
| `Sidebar.OfferTypes` | d.py:396 | the offer options are exactly the offers occurring in the table |
| `Sidebar.MinAge` | d.py:386 | the minimum age occurs in the table and is at most every age |
| `Sidebar.MaxAge` | d.py:386 | the maximum age occurs in the table and is at least every age |
| `Sidebar.AgeBounds` | d.py:386 | fails exactly on an empty table with an Age column. Without an Age column it is `(0, 100)`; otherwise both ends are attained ages and every age lies between them |
| `Sidebar.DefaultSelection` | d.py:377-403 | the widgets' initial state exists exactly when the age bounds do. It selects every contract type, the whole age span, and every offer (none without an Offer column) |
| `Sidebar.Filtered` | d.py:406-415 | the filtered table is a subsequence of the table. A row passing every active step keeps all its copies and any other row has none: contract step when there are contract types, age step with an Age column, offer step when offers are selected and the column exists |
| `Sidebar.ApplyFilters` | d.py:406-415 | the three conditional narrowing statements, run in order, give exactly the one-pass conjunctive selection `Filtered` |
| `Sidebar.EmptyContractSelection` | d.py:407-408 | with contract types available and none selected, the filtered table is empty |
| `Sidebar.EmptyOfferSelection` | d.py:414-415 | an empty offer selection filters exactly as if the table had no Offer column |
| `Sidebar.FilterIdempotent` | d.py:377-415 | filtering the filtered table again, with contract types recomputed from it and the same widgets, returns it unchanged |
| `Sidebar.DefaultsKeepAll` | d.py:377-415 | with the default selections the filtered table equals the table |
| `Metrics.PercentShare` | d.py:275-276 | a share of a whole as a percentage: NaN exactly when the whole is 0; otherwise it lies in [0, 100] and the percentage × whole = 100 × part |
| `Metrics.PercentShareExtremes` | d.py:275-276 | a share of a positive whole is 100% iff the part is the whole, and 0% iff the part is 0 |
| `Metrics.ChurnRate` | d.py:419 | NaN exactly for an empty table. Otherwise the rate × row count = 100 × Churned rows, and the rate lies in [0, 100] |
| `Metrics.ChurnRateExtremes` | d.py:419 | on a non-empty table the rate is 100 iff every row churned and 0 iff no row did |
| `Metrics.ContractChurnRate` | d.py:274-276 | NaN exactly when the contract has no Churned or Stayed row. Otherwise the rate × (Churned + Stayed) = 100 × Churned, and the rate lies in [0, 100] |
| `Metrics.ChurnByContract` | d.py:273-276 | fails on `Churned` iff no row churned, else on `Stayed` iff no row stayed. Otherwise there is one rate per contract occurring in the table, each equal to that contract's rate |
| `Metrics.ContractRateIsChurnRateOfDecided` | d.py:274-276 | a contract's rate equals the overall churn rate of that contract's Churned and Stayed rows |
| `Metrics.OtherStatusIgnored` | d.py:275-276 | inserting a row whose status is neither Churned nor Stayed (e.g. Joined) anywhere in the table changes no contract's rate |

## Left out

- KNN imputation of the two numeric columns (d.py:43-46) is left out. It is a call into scikit-learn over floats, and its code is not part of this model.
- All page configuration, CSS, titles, tabs, columns, expanders, warnings, `st.metric` display and chart construction are left out (d.py:8-26, 59-371, 417-430). They are presentation only.
- CSV loading (d.py:30-31) and the `@st.cache_data` memoisation of `get_data` (d.py:28) are left out. They are I/O and framework caching.
- The average revenue metric (d.py:422-424), the revenue-by-contract mean (d.py:130) and the revenue-by-offer sums (d.py:340-342) are left out. They are float means and sums done by the library's groupby.
- The hard-coded monthly revenue table (d.py:52-57) is constant data and is left out.
- The final `df = filtered_df` rebinding (d.py:432-434) is left out. It happens after every chart has been drawn, and the script recomputes `df` from `get_data()` on its next run.
- The column-presence guards that decide only whether a metric or chart is shown (`'Customer Status'` and `'Contract'` at d.py:273 and d.py:418) are not modelled. The presence of Contract, Age and Offer, which changes the filter, is modelled by `Sidebar.Columns`.
- Widget constraints are not modelled: a multiselect returns a subset of its options, and the slider returns `lo <= hi` inside `[min_age, max_age]`. The filter is proved for any selection.
- Missing cells in the Contract, Age, Offer and Customer Status columns are not modelled. The record's fields are always present: Offer is one of the mode-filled columns, and pandas' treatment of NaN in `isin` and in comparisons is not represented.
- `ModeFill.Frame` holds only the categorical (text) columns. Numeric columns are not in it, and the mode is modelled over text values only, which is what the eleven listed columns hold.
- `ModeFill.Frame.FillColumns`: on failure the contract does not say which earlier listed columns were already filled. In the source the exception aborts `get_data`, and the partly filled table is discarded.
- `Metrics.ChurnByContract`: the rates are returned as a map from contract to rate. The sorted row order of the groupby result is not modelled.
- `Metrics.ChurnRate`: values are exact reals. Float rounding and the `.1f` display format are not modelled.
