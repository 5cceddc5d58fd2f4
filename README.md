# Country-code reconciliation of World_GDP_Plot, in Dafny

The program draws a world map of GDP. Before it can plot anything it has to
reconcile two country-code vocabularies: the codes of the plotting library
and the codes of the World Bank GDP table. This project models that
reconciliation as it is written in `main.py`:

- **Code converter loader** (`build_country_code_converter`). It reads the
  code file row by row and fills a dictionary from plot code to data code.
  A later row with the same plot code overwrites the value. A row without
  one of the two named columns raises an error.
- **Reconciler** (`reconcile_countries_by_code`). It loads the converter and
  builds a case-folded index of it. It folds the GDP keys into a set. Then it
  sends every plot code either to the match map (plot code to the
  converter's data code) or to the unmatched set.

Modules:

- `CaseFold` (casefold.dfy) stands in for `str.casefold`, using ASCII
  lower-casing.
- `CodeConverter` (converter.dfy) holds the rows, the dictionary with its
  iteration order, the loading loop (`BuildCountryCodeConverter`) and the
  function that specifies it (`ConverterOf`).
- `Reconcile` (reconcile.dfy) holds the folded-index loop
  (`BuildFoldedIndex`), the partition loop (`PartitionPlotCountries`) and the
  whole operation (`ReconcileCountriesByCode`). Each loop is proved against a
  specification function. The lemmas state what the result means.

Design points carried over from the code:

- A Python dictionary iterates its keys in the order each key was *first*
  inserted. `Converter` therefore records that order beside the mapping.
  The folded index is filled in that order. When two converter keys fold
  alike, the key that comes later in that order wins. That key need not be
  the plot code of the last row (`FoldCollisionExample`).
- Both lookups that can fail in the source raise `KeyError`. The model
  returns these as error results instead of excluding them by a
  precondition:
  - `MissingField(row, field)`: the first row that lacks the plot column,
    or, failing that, the data column.
  - `UnknownCode(code)`: the folded form of a plot code that has no entry
    in the folded index, as the `KeyError` at main.py:58 carries it.
  Once the rows load, `ReconcileCountriesByCode` succeeds exactly when every
  plot code folds like some converter key (`CoversIff`).
- The docstring of `reconcile_countries_by_code` (main.py:41-44) says that
  the returned codes keep the casing they have in the GDP dictionary. The
  code stores the converter's value instead (main.py:59). The model follows
  the code. `CaseInsensitiveMatchExample` shows a result value that is not a
  key of the GDP dictionary.

## Model

| member | source | states |
|---|---|---|
| `CodeConverter.Insert` | main.py:22 | assigning one key keeps the dictionary invariant: each key appears once in the iteration order |
| `CodeConverter.ConverterOf` | main.py:16-22 | every converter the rows load into is a valid dictionary (proved through the recursive calls' contracts) |
| `CodeConverter.BuildCountryCodeConverter` | main.py:16-23 | the row loop returns exactly the specified load: the converter of all rows, or the error of the first bad row |
| `CodeConverter.ErrorPersists` | main.py:20-22 | once some rows fail to load, adding more rows keeps the same error, so the loop may stop at the first bad row |
| `CodeConverter.LoadSucceedsIff` | main.py:20-22 | loading succeeds if and only if every row has both named columns; no row is skipped |
| `CodeConverter.LoadFailsAtFirstBadRow` | main.py:21-22 | a failed load names the first row that lacks a column; it names the plot column if that one is missing, else the data column |
| `CodeConverter.LoadStep` | main.py:20-22 | the converter of n+1 rows is the converter of the first n rows with the last row's pair inserted |
| `CodeConverter.ConverterKeys` | main.py:20-22 | the converter's keys are exactly the plot-code fields of the rows |
| `CodeConverter.ConverterLastRowWins` | main.py:21-22 | each key maps to the data code of the last row that carries that plot code |
| `CodeConverter.ConverterOrderIsFirstOccurrence` | main.py:16-22 | the dictionary iterates its keys in the order their plot codes first appear in the rows |
| `CodeConverter.FirstSeenBeforeExtends` | main.py:20-22 | appending rows keeps an earlier first occurrence earlier |
| `CaseFold.FoldCharIdempotent` | main.py:52 | folding a character twice is the same as folding it once |
| `CaseFold.FoldAt` | main.py:52 | folding keeps the length and folds each character on its own |
| `CaseFold.FoldIdempotent` | main.py:52-58 | a folded code is its own fold |
| `CaseFold.FoldAgrees` | main.py:52-58 | codes that agree letter by letter up to case fold to the same string |
| `CaseFold.FoldIgnoresCase` | main.py:52-58 | two codes fold alike if and only if they have the same length and agree letter by letter up to case |
| `CodeConverter.ValidOrderInCodes` | main.py:51 | every key in the dictionary's iteration order has a value, so the item loop's lookups are safe |
| `Reconcile.FoldedPrefixKeys` | main.py:50-52 | the folded index has exactly the folds of the converter keys as its keys |
| `Reconcile.FoldedPrefixValues` | main.py:51-52 | each entry of the folded index holds the data code, in the converter's casing, of a converter key with that fold |
| `Reconcile.BuildFoldedIndex` | main.py:50-52 | the loop over the converter's items returns the folded index of the whole converter |
| `Reconcile.FoldedPrefixLaterKeyWins` | main.py:51-52 | a converter key with no later key of the same fold owns the folded entry, holding its own data code |
| `Reconcile.PartitionPlotCountries` | main.py:56-61 | if every plot code has an index entry, the loop returns the specified match map and unmatched set; otherwise it returns an unknown-code error carrying the folded form of some plot code that has no index entry |
| `Reconcile.ReconcileCountriesByCode` | main.py:46-65 | a loader error is passed through; otherwise the result is the specified pair when every plot code is covered, and an unknown-code error carrying the folded form of an uncovered plot code when not |
| `Reconcile.CoversIff` | main.py:57-58 | the lookup cannot fail exactly when every plot code folds like some converter key |
| `Reconcile.ResultPartitionsPlotCodes` | main.py:56-61 | the match keys and the unmatched set are disjoint, and together they are exactly the plot codes |
| `Reconcile.MatchedCodeFromConverter` | main.py:57-59 | a matched plot code maps to the data code, in the converter's casing, of a converter key that folds like it; that data code folds like some GDP key |
| `Reconcile.UnmatchedIff` | main.py:58-61 | a plot code is unmatched if and only if its converted code folds like no GDP key |
| `Reconcile.GdpKeyCaseIrrelevant` | main.py:54 | replacing a GDP key by one with the same fold, with any record, leaves both results unchanged |
| `Reconcile.ResultKeepsPlotKeys` | main.py:56-61 | both results hold only plot keys, in their own casing (that the country names never matter is read off `ReconcileCountriesByCode`, whose contract uses the plot countries only through their keys) |
| `Reconcile.PlotKeyCaseIrrelevant` | main.py:56-61 | two plot codes that differ only in letter case land on the same side, and when matched they get the same data code, as the case-insensitive comparison the docstring promises requires |
| `Reconcile.FoldExamples` | main.py:52-58 | "BR" and "br" fold to "br", "BRA" and "bra" to "bra", "US" and "us" to "us" |
| `Reconcile.BrazilRowsLoad` | main.py:20-22 | the row "BR" -> "BRA" loads into the converter holding just that pair |
| `Reconcile.BrazilIndex` | main.py:50-52 | that converter's folded index maps "br" to "BRA" |
| `Reconcile.CaseInsensitiveMatchExample` | main.py:57-59 | plot code "br" matches converter code "BR" whose data code "BRA" is in the GDP table as "bra"; the stored value is "BRA", which is not a GDP key |
| `Reconcile.CollisionPrefixLoads` | main.py:20-22 | the rows "us"->A, "US"->B load into a dictionary iterating "us" then "US" |
| `Reconcile.CollisionRowsLoad` | main.py:20-22 | the rows "us"->A, "US"->B, "us"->C load into a dictionary iterating "us" then "US", with "us"->C |
| `Reconcile.FoldCollisionExample` | main.py:51-52 | with those rows the folded entry "us" holds B, not C, the value of the last row |

## Left out

- Opening the code file and splitting it with `csv.DictReader` (main.py:17-19). This is I/O and library parsing. The rows arrive as a sequence of maps from column name to field. `DictReader` gives every row all the header's columns, so in the source a missing column fails at the first row. It also fills a short row's missing fields with `None`; the model's rows have no such value.
- The Unicode case-folding tables behind `str.casefold` (main.py:52, 54, 57-58). `CaseFold.Fold` folds only ASCII letters, so multi-character folds such as "ß" to "ss" are not modelled.
- The `pygal` import (main.py:3), chart rendering, the GDP mapper and its `math.log10` computation. They are not part of `main.py`'s reconciliation, and they are plotting or floating-point work.
- Building the result by tuple concatenation (main.py:46, 63-64). The model returns the `Reconciliation` datatype.
- The iteration order of `plot_countries` and the insertion order of `recon_dict`. The model's results are an unordered map and set. When several plot codes are uncovered, the model does not fix whose folded code the error carries; the source raises for the first one in dictionary order.
