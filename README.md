# SPP Ingredients Allocation — a Dafny model of the allocation core

The SPP Ingredients Allocation App reads issuance records from a stock
spreadsheet. Each record says which department drew how much of an item. Given
quantities of items that are newly available, the app splits each quantity
between the departments in proportion to how much of that item each department
used before.

This project models the computational part of
`SPP_Ingredients_Allocation_App.py`:

- **Cleaning** (`records.dfy`, module `Records`). This is the end of
  `load_data_from_google_sheet`. Rows whose quantity does not parse are
  dropped (`dropna`). Then rows whose date does not parse, or whose year is
  before 2024, are dropped. A raw row carries the outcome of the coercing
  parse as an `Option`: `None` stands for NaN or NaT.
- **Proportions** (`proportion.dfy`, module `Proportion`). This is
  `calculate_proportion`. It selects the records whose serial or name equals
  the identifier, ignoring case (`text.dfy`, module `Text`, provides ASCII
  `Lower`). It returns `None` when no record matches. Otherwise it sums the
  quantities per department, turns each sum into a percentage of the item's
  total, and sorts the departments by percentage, largest first.
- **Allocation** (`allocation.dfy`, module `Allocation`). This is
  `allocate_quantity`. The request dictionary `item_quantities` is modelled
  as a sequence of requests; in the program its identifiers are distinct,
  being dictionary keys. The method `AllocateQuantity` walks the request in
  order, skips identifiers without history, and builds the result entries in
  a loop. Each department gets `round(percentage / 100 * quantity)`, using
  round-half-to-even (pandas `round(0)`). The method is proved equal to the
  specification function `Allocations`, and the lemmas below are about that
  function.
- **Worked example** (`scenario.dfy`, module `Scenario`). One department used
  30 units of an item and another used 70. A request for 50 units of that
  item, together with an item that has no history, gives 35 and 15. The item
  without history is left out of the result.

Quantities and percentages are exact `real`s. Allocated quantities are `int`s.

Two details of the code decide the model's choices:

- The code sorts with pandas' default `sort_values`, which is not a stable
  sort, so the order of equal percentages is unspecified. The model uses a
  stable insertion sort. Every property proved holds for any order of ties.
- The code rounds with pandas `round(0)`, which rounds half to even. The model
  rounds half to even too.

## Model

| member | source | states |
|---|---|---|
| `Text.Lower` | SPP_Ingredients_Allocation_App.py:52-54 | `str.lower` keeps the length, turns each upper-case letter into its lower-case letter (code point + 32), and keeps every other character |
| `Text.LowerIdempotent` | SPP_Ingredients_Allocation_App.py:52-54 | lower-casing an already lower-cased identifier changes nothing |
| `Records.DropUnparsedQuantity` | SPP_Ingredients_Allocation_App.py:43-44 | every surviving row has a parsed quantity and comes from the input; every input row with a parsed quantity survives |
| `Records.SinceCutoff` | SPP_Ingredients_Allocation_App.py:42-47 | every surviving record is dated in 2024 or later |
| `Records.Clean` | SPP_Ingredients_Allocation_App.py:42-47 | the cleaned table has no more records than there were rows, and every record in it is dated in 2024 or later |
| `Records.CleanRow` | SPP_Ingredients_Allocation_App.py:42-47 | a row survives cleaning exactly when its quantity parses and its date parses to a year of at least 2024, and it survives with its fields unchanged |
| `Records.CleanAppend` | SPP_Ingredients_Allocation_App.py:42-47 | cleaning works row by row: cleaning two runs of rows gives the two cleaned runs in order, so surviving rows keep their relative order |
| `Records.CleanMembership` | SPP_Ingredients_Allocation_App.py:42-47 | a record is in the cleaned table exactly when some input row that passes both filters converts to it |
| `Proportion.MatchesKey` | SPP_Ingredients_Allocation_App.py:53-54 | a record matches when its lower-cased serial or lower-cased name equals the key, so only a lower-case key can match |
| `Proportion.Matching` | SPP_Ingredients_Allocation_App.py:53-54 | the selected records are exactly the table's records whose lower-cased serial or lower-cased name equals the key |
| `Proportion.MatchingMultiplicity` | SPP_Ingredients_Allocation_App.py:53-54 | the boolean mask keeps every matching record as often as it occurs in the table, and no other record |
| `Proportion.Total` | SPP_Ingredients_Allocation_App.py:60 | the item's total (`usage_summary.sum()`) is not negative when no quantity is negative |
| `Proportion.DepartmentSum` | SPP_Ingredients_Allocation_App.py:59 | the group-by sum of a department is 0 when no record belongs to it |
| `Proportion.Departments` | SPP_Ingredients_Allocation_App.py:59 | the group keys are exactly the departments that occur among the records, each once |
| `Proportion.Percentages` | SPP_Ingredients_Allocation_App.py:60 | one share per group key, in key order, each its group sum divided by the total, times 100 |
| `Proportion.Insert` | SPP_Ingredients_Allocation_App.py:61 | inserting a share adds exactly that share to the multiset of shares |
| `Proportion.InsertSorted` | SPP_Ingredients_Allocation_App.py:61 | inserting into a list sorted by non-increasing percentage keeps it sorted |
| `Proportion.SortDescending` | SPP_Ingredients_Allocation_App.py:61 | the sort returns a permutation of its input in non-increasing order of percentage |
| `Proportion.SortSum` | SPP_Ingredients_Allocation_App.py:61 | sorting does not change the sum of the percentages |
| `Proportion.SortDistinct` | SPP_Ingredients_Allocation_App.py:61 | sorting keeps departments distinct |
| `Proportion.SortKeepsDepartments` | SPP_Ingredients_Allocation_App.py:61 | sorting neither adds nor loses a department |
| `Proportion.GroupSumsAddUpToTotal` | SPP_Ingredients_Allocation_App.py:59-60 | the per-department sums of the group-by add up to the item's total quantity (`usage_summary.sum()`) |
| `Proportion.PercentagesSum` | SPP_Ingredients_Allocation_App.py:60 | dividing every group sum by the total and scaling by 100 scales their sum the same way |
| `Proportion.CalculateProportion` | SPP_Ingredients_Allocation_App.py:51-63 | the result is `None` exactly when no record's lower-cased serial or name equals the lower-cased identifier; otherwise it is non-empty and sorted by non-increasing percentage |
| `Proportion.ProportionIgnoresCase` | SPP_Ingredients_Allocation_App.py:52-54 | two identifiers that lower-case alike give the same result |
| `Proportion.ProportionOfLowered` | SPP_Ingredients_Allocation_App.py:52 | an identifier and its lower-cased form give the same result |
| `Proportion.ProportionDepartments` | SPP_Ingredients_Allocation_App.py:53-61 | the result lists exactly the departments of the matching records, each once |
| `Proportion.MatchingShares` | SPP_Ingredients_Allocation_App.py:53-61 | the sorted shares of the matching records list each department of a matching record exactly once, and no other |
| `Proportion.SharesPercentages` | SPP_Ingredients_Allocation_App.py:59-61 | after sorting, each share's percentage is still its department's sum divided by the total, times 100 |
| `Proportion.ProportionPercentages` | SPP_Ingredients_Allocation_App.py:59-61 | each department's percentage is the total quantity of the matching records of that department divided by the item's total, times 100 |
| `Proportion.SharesSumToHundred` | SPP_Ingredients_Allocation_App.py:59-61 | the sorted percentages of any records with a non-zero total add up to exactly 100 |
| `Proportion.ProportionSumsToHundred` | SPP_Ingredients_Allocation_App.py:59-61 | the percentages of an item add up to exactly 100 |
| `Proportion.ProportionBounds` | SPP_Ingredients_Allocation_App.py:59-60 | when no quantity is negative, every percentage lies between 0 and 100 |
| `Allocation.RoundHalfEven` | SPP_Ingredients_Allocation_App.py:73 | the rounded value is an integer within 0.5 of its argument, and on a tie it is even |
| `Allocation.RoundHalfEvenUnique` | SPP_Ingredients_Allocation_App.py:73 | the rounded value is the only integer with those two properties |
| `Allocation.AllocateShare` | SPP_Ingredients_Allocation_App.py:72-76 | a department keeps its name and percentage, and its allocation is within 0.5 of percentage / 100 × quantity |
| `Allocation.AllocateRows` | SPP_Ingredients_Allocation_App.py:72-76 | the allocation table has one row per share, in the same order |
| `Allocation.AllocateRowsAllocatedFrom` | SPP_Ingredients_Allocation_App.py:72-76 | each row keeps its share's department and percentage and allocates round-half-to-even of percentage / 100 × quantity |
| `Allocation.AllocateRowsZero` | SPP_Ingredients_Allocation_App.py:72-73 | a request quantity of 0 allocates 0 to every department |
| `Allocation.RoundingDrift` | SPP_Ingredients_Allocation_App.py:72-73 | per-department rounding need not preserve the total: three equal shares of one unit each round to 0 |
| `Allocation.Entry` | SPP_Ingredients_Allocation_App.py:68-78 | a request gets exactly one entry, under its own identifier, when proportions were found, and none otherwise |
| `Allocation.Allocations` | SPP_Ingredients_Allocation_App.py:65-80 | the result has at most one entry per request |
| `Allocation.AllocateItem` | SPP_Ingredients_Allocation_App.py:68-78 | one turn of the loop builds exactly the result for that request alone |
| `Allocation.AllocateQuantity` | SPP_Ingredients_Allocation_App.py:65-80 | the loop builds exactly the result of the specification function `Allocations` |
| `Allocation.KeptIdentifiers` | SPP_Ingredients_Allocation_App.py:67-71 | an identifier is kept exactly when it is requested and some record's serial or name matches it, ignoring case |
| `Allocation.AllocationsStep` | SPP_Ingredients_Allocation_App.py:67-78 | the result for the first i + 1 requests is the result for the first i followed by the result for request i alone |
| `Allocation.Lookups` | SPP_Ingredients_Allocation_App.py:68 | `calculate_proportion` is called once per request, in request order: there is one lookup result per request |
| `Allocation.AllocationsFrom` | SPP_Ingredients_Allocation_App.py:66-78 | the loop over the lookup results gives at most one entry per request, and exactly one per request when every lookup found history |
| `Allocation.LookupsAppend` | SPP_Ingredients_Allocation_App.py:67-69 | the proportions looked up for two runs of requests are the two runs of lookups in order |
| `Allocation.AllocationsOfOne` | SPP_Ingredients_Allocation_App.py:67-78 | the result for a single request is that request's entry, or nothing when it has no history |
| `Allocation.AllocationsAppend` | SPP_Ingredients_Allocation_App.py:67-78 | requests are handled one by one: the result of two runs of requests is the two results in order |
| `Allocation.AllocationsKeys` | SPP_Ingredients_Allocation_App.py:66-78 | the result's keys are exactly the requested identifiers with history, in request order; identifiers without history are omitted |
| `Allocation.EntryAllocatedFrom` | SPP_Ingredients_Allocation_App.py:68-78 | an item's entry exists only when `calculate_proportion` found history for it, and its rows are allocated from those shares |
| `Allocation.LookupsHistory` | SPP_Ingredients_Allocation_App.py:67-69 | the proportions looked up for a request are present exactly for the identifiers with history |
| `Allocation.AllocationsFromKeys` | SPP_Ingredients_Allocation_App.py:66-78 | for any lookup results that are present exactly for the identifiers with history, the result keys are the kept identifiers in request order |
| `Allocation.AllocationsFromAppend` | SPP_Ingredients_Allocation_App.py:67-78 | the loop over two runs of requests produces the two runs of entries in order |
| `Allocation.AllocationsFromEntries` | SPP_Ingredients_Allocation_App.py:67-78 | every entry built from lookup results comes from a request whose lookup was found and carries rows allocated from it |
| `Allocation.AllocationsEntries` | SPP_Ingredients_Allocation_App.py:67-78 | every result entry comes from a requested identifier with history; its rows keep that item's departments, percentages and order, and allocate round-half-to-even of percentage / 100 × the requested quantity |
| `Scenario.ScenarioProportion` | SPP_Ingredients_Allocation_App.py:51-63 | usage of 30 and 70 units gives 70% then 30%, whether the identifier is written in upper or lower case |
| `Scenario.ScenarioAllocation` | SPP_Ingredients_Allocation_App.py:65-80 | requesting 50 units gives 35 and 15, and an identifier without history is omitted |

## Left out

- Credentials, spreadsheet authorisation and the worksheet fetch
  (SPP_Ingredients_Allocation_App.py:12-36). These are network I/O and
  foreign library calls. The model starts from the fetched rows.
- How `pd.to_numeric` and `pd.to_datetime` parse text. The parse result is
  an input of the model (`Option` fields of `RawRow`).
- The positional column renaming (lines 38-40) and the unused `QUARTER`
  column (line 45). Records have named fields from the start.
- The `@st.cache_data` memoisation (lines 11 and 50). It does not change
  results. The cache hands out copies, so the in-place column edits of
  `allocate_quantity` (lines 72-76) cannot reach a cached frame. The model
  builds each allocation table as a new value.
- The Streamlit interface (lines 83-138), including the check that some
  quantity is positive before allocating.
- Floating point. Percentages and shares are exact reals, so rounding of
  floating-point products before `round(0)` is not modelled.
- Proportion.CalculateProportion: an item whose matching quantities add up
  to 0 gets NaN or infinite percentages in the code (0/0 is NaN, a non-zero
  department sum over 0 is infinite, and `round(0)` keeps both). The model instead requires
  `ProportionDefined` (no match, or a non-zero total). `AllocateQuantity`
  requires the same for every requested identifier.
- Full Unicode `str.lower`, and the conversion of serials to text. `Lower`
  folds ASCII letters only, and serials are already strings.
- Non-text item names. The code lower-cases names with `.str.lower()` and no
  conversion to text (line 54), so a record whose name cell is not text gets
  NaN there and never matches by name. The model assumes every name is text.
- Missing (None or NaN) department values, which pandas' group-by would drop.
  The worksheet fetch returns a blank cell as the empty string, never as a
  missing value, so departments are always strings. An empty department forms
  its own group, as it does in the code.
- Group order before sorting. pandas sorts the group keys; the model keeps
  the order of first appearance. The following sort overrides this except
  among ties, whose order the code leaves unspecified anyway.
- Allocation.AllocateQuantity: pandas stores the rounded allocation as a
  float. The model stores it as an `int` of the same value.
