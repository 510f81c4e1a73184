# Sales-target sheet and receivables model of the CRM dashboard

This project models the data logic behind the CRM dashboard `crm_arayuz.py`
and proves properties of it. It covers four pieces.

- **Normaliser.** `normalize_turkish_names` turns a representative's name
  into the join key shared by the sales ledger and the sales/target sheet.
  It trims, lowercases, folds the Turkish letters to ASCII and corrects the
  misspelling "kalyuncu".
- **Target-sheet parser.** `parse_satis_hedef_df` reads a headerless grid
  holding several tables. A row whose first cell trims to
  "Satış Temsilcisi" opens a table. Each block is cleaned of blank rows and
  columns, its first row becomes the column labels, and the rows of tables
  that have both a name column and a `SATIŞ` column are concatenated. Total
  rows are dropped, the sales figures are coerced to numbers, and the
  normalised name is attached.
- **Sales/target page.** `page_satis_hedef` splits the same grid into
  titled blocks and cleans each one with `clean_table`, which coerces the
  `HEDEF`, `SATIŞ`, `%` and `KALAN` columns. It then adds up the `TOPLAM`
  rows of all tables into the grand totals and hides those rows from the
  displayed tables.
- **Overdue buckets.** These are the ledger figures shown on the overview,
  the representative detail page and the aging page. A row is overdue when
  its days are positive and its open balance is positive. The overdue
  balances are summed in four buckets: 1-35 days, and more than 35, 45 and
  60 days.

Modules:

- `Base`: cells, rows, options and outcomes, numeric coercion, filtering.
- `Text`: Python's `strip`, `lower` and `replace`.
- `Names`: the normaliser.
- `Sheets`: markers, blocks and cleaning.
- `SalesTargets`: the parser and the lookup of a representative's sales.
- `TargetPage`: the page's splitter, `clean_table` and the grand totals.
- `Aging`: ledger loading and the overdue buckets.

Two modelling choices run through the project:

- **Numeric coercion.** `pd.to_numeric(..., errors='coerce')` is given as a
  parameter `toNumber: string -> Option<int>`, because it is pandas' own
  parser. A numeric cell passes through unchanged. `fillna(0)` is the
  default of 0 for a blank cell or an unparseable text.
- **Loops become methods.** The four loops of the source are methods,
  each proved equal to a function that states what it builds:
  - the parser's block loop is `SalesTargets.ParseSalesTargets`;
  - the page's splitting loop is `TargetPage.SplitTables`;
  - the coercion loop of `clean_table` is `TargetPage.CoerceNumericColumns`;
  - the grand-total loop is `TargetPage.SumTotals`.

  The properties are then proved about those functions.

The two places that compare a name with `TOPLAM` differ in the source, and
the model keeps both:

- The parser trims the name first (crm_arayuz.py:102).
- The page's totals and its display filter compare the raw cell
  (crm_arayuz.py:413-414, 425).

In the source, the page's grand-total loop selects the `HEDEF`, `SATIŞ` and
`KALAN` columns only for a table that has a `TOPLAM` row. If one of them is
missing, pandas raises an error and the page shows an error message instead.
The model writes this as `Fail(MissingColumn(label))`, in the order the
source selects the columns. A sheet with no columns fails at `iloc[:, 0]`,
and the model writes that as `Fail(NoFirstColumn)`.

Each table's title is the first cell of the row just above its marker, or
the marker's own first cell when the marker is row 0
(crm_arayuz.py:396-397). For every table after the first, that row is also
the last row of the previous block. The model keeps what follows from this:

- When the title row holds a cell and the previous block has more rows than
  its marker row, the title row survives the blank-row drop of the previous
  block and becomes that table's last body row
  (`TargetPage.TitleRowClosesPreviousTable`).
- In that case the page shows the title as a data row of the previous table
  (crm_arayuz.py:425).
- In that case too, when the previous table has a `SATIŞ` column, the parser
  files a record under the normalised title, with sales 0 when its `SATIŞ`
  cell is blank (crm_arayuz.py:103-106).
- A block that holds only its marker row and the next table's title row is
  kept, not skipped, when that title row holds a cell. When the title row is
  all blank, the blank-row drop leaves one row and the block is skipped.

## Model

| member | source | states |
|---|---|---|
| Names.NormalizeSpec | crm_arayuz.py:20-26 | A missing name gives the empty key. Every key is stripped, has no capital letter and none of the Turkish letters, and does not contain "kalyuncu". |
| Names.FoldSpec | crm_arayuz.py:23 | On a stripped lowercase input, the letter folding leaves a stripped text without capitals or Turkish letters. |
| Names.Normalize | crm_arayuz.py:16-28 | Defines the join key. A missing name gives the empty key. Any other name is trimmed, lowercased, passed through the eight replacements in their order, and "kalyuncu" is corrected to "kalyoncu". Its properties are stated by NormalizeSpec, NormalizeIdempotent and TypoCorrected. |
| Names.NormalizeCell | crm_arayuz.py:106 | Defines the key of a name cell. A blank cell is a missing name, a text cell is the text, and a numeric cell is its decimal text. |
| Names.NormalizeIdempotent | crm_arayuz.py:22-26 | Normalising a key again gives the same key. This holds for every missing name, and for every name whose trimmed lowercase form has a combining dot above only directly after an "i". |
| Names.DotFreeNameQualifies | crm_arayuz.py:22 | A name without any combining dot above meets the requirement of NormalizeIdempotent. |
| Names.IdempotenceCanFail | crm_arayuz.py:23 | The name "i" followed by two combining dots normalises to "i" plus one dot. Normalising that again gives "i". So idempotence can fail when a combining dot does not directly follow an "i". |
| Names.NormalizeOfDots | crm_arayuz.py:22-26 | On a text made only of "i" and combining dots and starting with "i", normalising is exactly the single left-to-right replacement of "i" plus dot by "i". |
| Names.TypoCorrected | crm_arayuz.py:26 | A name that trims and lowercases to a text starting with "kalyuncu" normalises to a key starting with "kalyoncu". |
| Text.ReplaceEliminates | crm_arayuz.py:26 | When a pattern is self-clearing, no occurrence of it survives the replacement. "kalyuncu" → "kalyoncu" is such a pattern. |
| Text.StripIsStripped | crm_arayuz.py:22 | `strip` leaves no white space at either end. |
| Text.StripRemovesOnlySpace | crm_arayuz.py:22 | `strip` removes only white space, and only at the two ends. |
| Text.Lower | crm_arayuz.py:22 | Lowercasing leaves no capital letter and never shortens the text. |
| Base.Coerce | crm_arayuz.py:103 | Defines the coercion of one cell. A number passes through, a text goes through the number parser, and a blank cell or an unparseable text becomes 0. |
| Base.CoerceZeroLaw | crm_arayuz.py:407 | A blank cell or a text the parser rejects coerces to exactly 0. A numeric cell keeps its value, and a parsed text gets the parsed value. |
| Sheets.Markers | crm_arayuz.py:85 | Defines the header indices: the positions of the rows whose first cell trims to "Satış Temsilcisi". MarkersSpec states their properties. |
| Sheets.MarkersSpec | crm_arayuz.py:85 | The header indices are increasing. They are exactly the rows whose first cell trims to "Satış Temsilcisi". |
| Sheets.BlockRows | crm_arayuz.py:88-92 | Defines block i: the rows from marker i up to the next marker, or up to the end of the grid for the last marker. BlockPartition, BlocksCover and BlocksDisjoint state how the blocks tile the grid. |
| Sheets.BlockSpan | crm_arayuz.py:88-92 | Block i ends at the next marker, or at the end of the grid for the last marker. It is the slice of the grid between those rows, and its marker row holds a cell. |
| Sheets.BlockPartition | crm_arayuz.py:88-90 | Every block is non-empty. Each block ends where the next marker starts, and the last block ends at the end of the grid. No marker row lies inside a block. The grid has zero blocks exactly when no row is a marker. |
| Sheets.BlocksCover | crm_arayuz.py:88-90 | Every row from the first marker on lies in some block. |
| Sheets.BlocksDisjoint | crm_arayuz.py:88-90 | No row lies in two blocks. |
| Sheets.UsedColumnsFrom | crm_arayuz.py:92 | The kept columns are increasing. They are exactly the columns with a non-blank cell in a non-blank row. |
| Sheets.Clean | crm_arayuz.py:92-99 | A block is skipped exactly when fewer than two non-blank rows remain, or no column remains. The body has one row fewer than the non-blank rows, and every body row is as wide as the header. |
| Sheets.CleanSkipsShort | crm_arayuz.py:92-94 | On a rectangular grid, a block is skipped exactly when fewer than two of its rows are non-blank. |
| Sheets.CleanLeavesNoBlanks | crm_arayuz.py:92 | After cleaning, no body row is blank, and every kept column has a label or a non-blank body cell. |
| Sheets.CleanKeepsMarkerColumn | crm_arayuz.py:92-99 | The marker row becomes the header. Its first label is "Satış Temsilcisi", and the first column of each body row is the first cell of the source row. |
| Sheets.CleanEndsWithLastRow | crm_arayuz.py:92-97 | Suppose a block opens with a row that holds a cell and fits the width, and ends with a row that holds a cell. Then the block is kept, and its last row, cut to the kept columns, is the last body row. |
| SalesTargets.LabelIndexFrom | crm_arayuz.py:101 | Finds the first column with the given label, or reports that none has it. |
| SalesTargets.TableRecords | crm_arayuz.py:101 | A table without the name column or the `SATIŞ` column contributes nothing. |
| SalesTargets.TableRecordsExact | crm_arayuz.py:101-108 | When both columns exist, a record comes out exactly when some body row is not a trimmed `TOPLAM` row. That record holds the row's normalised name and its coerced sales figure. |
| SalesTargets.TableRecordsInOrder | crm_arayuz.py:101-108 | When both columns exist, the records match the body rows that are not trimmed `TOPLAM` rows, one to one and in row order. The indices of those rows are increasing, and they are exactly the non-`TOPLAM` rows. Record k holds the normalised name and the coerced sales figure of the k-th such row. |
| SalesTargets.TableRecordsValues | crm_arayuz.py:106 | Every record's key is a normalised key. |
| SalesTargets.ShortBlockAddsNothing | crm_arayuz.py:92-94 | A block with fewer than two non-blank rows adds no record and raises no error. |
| SalesTargets.ParseSalesTargets | crm_arayuz.py:82-113 | A sheet without columns fails. Otherwise the loop's result is the blocks' records concatenated in block order. |
| SalesTargets.RecordsFromBlocks | crm_arayuz.py:87-111 | A record is in the result exactly when some block contributes it. |
| SalesTargets.RecordsInBlockOrder | crm_arayuz.py:108-111 | The records of the first j blocks form a prefix of the result. |
| SalesTargets.NoTablesNoRecords | crm_arayuz.py:110-113 | When no block contributes, the result is empty. |
| SalesTargets.ParsedKeysNormal | crm_arayuz.py:106 | Every key of the parsed result is a normalised key. |
| SalesTargets.NameColumnIsFirst | crm_arayuz.py:85-101 | In every cleaned block the name column is column 0. |
| SalesTargets.ConcatMembers | crm_arayuz.py:111 | An element is in the concatenation exactly when it is in one of the parts. |
| SalesTargets.RepresentativeSales | crm_arayuz.py:277-278 | Defines the sales figure of the detail page. A key that is not filed gives 0. A key filed once gives that record's sales. A key filed several times gives no single figure (`None`). |
| SalesTargets.RepresentativeSalesFound | crm_arayuz.py:277-278 | A representative whose key is filed once gets that record's sales. |
| SalesTargets.RepresentativeSalesMissing | crm_arayuz.py:278 | A representative whose key is not filed gets 0. |
| TargetPage.SplitTables | crm_arayuz.py:391-397 | The splitting loop yields one titled raw table per marker, in order. |
| TargetPage.RawTables | crm_arayuz.py:393-397 | There is one raw table per marker. |
| TargetPage.FirstTitleIsMarker | crm_arayuz.py:396 | When the first marker is row 0, the first title is that marker row's own first cell. |
| TargetPage.TitleAboveMarker | crm_arayuz.py:396-397 | A marker below row 0 takes as its title the first cell of the row just above it. |
| TargetPage.TitleFromPreviousBlock | crm_arayuz.py:393-397 | Every marker after the first lies below row 0. Its table's title is the first cell of the row just above it, and that row is the last row of the previous block. |
| TargetPage.TitleRowClosesPreviousTable | crm_arayuz.py:393-399 | Suppose the title row of a later table holds a cell, and the previous block has more rows than its marker row. Then the previous block cleans to a table whose last body row is that title row, cut to the kept columns. |
| TargetPage.CleanTable | crm_arayuz.py:398-408 | `clean_table` gives the cleaned block with its numeric columns coerced, or nothing when the block is skipped. |
| TargetPage.CoerceNumericColumns | crm_arayuz.py:405-407 | The loop coerces each of `HEDEF`, `SATIŞ`, `%`, `KALAN` in turn. |
| TargetPage.CoerceAbsent | crm_arayuz.py:406 | A label not in the header changes nothing. |
| TargetPage.CleanedTableCells | crm_arayuz.py:401-407 | `clean_table` keeps the header, the row count and the row widths. Cells under the four labels are coerced, with 0 for an unparseable value. All other cells are unchanged. |
| TargetPage.CleanAll | crm_arayuz.py:409-410 | Defines the page's cleaned tables. Each raw table is cleaned by `clean_table` under its own title, and the tables that clean to nothing are dropped. CleanAllMembers states which titled tables result. |
| TargetPage.CleanAllMembers | crm_arayuz.py:409-410 | A titled table reaches the page exactly when some raw table has that title and cleans to that table. |
| TargetPage.TableTotals | crm_arayuz.py:412-417 | Defines one table's contribution. A table without a name column fails on that column. One without an exact `TOPLAM` row adds 0, 0, 0. Otherwise the first of `HEDEF`, `SATIŞ`, `KALAN` that is missing fails, in that order. When all three are present, the sums of those columns over the `TOPLAM` rows are added. |
| TargetPage.GrandTotals | crm_arayuz.py:411-417 | Defines the grand totals: the contributions added in table order, where the first failing contribution is the result. |
| TargetPage.SumTotals | crm_arayuz.py:411-417 | The accumulation loop yields the grand totals, or the first failing table's error. |
| TargetPage.GrandTotalsSplit | crm_arayuz.py:412-417 | The grand totals of two runs of tables in a row are the sum of their grand totals. |
| TargetPage.GrandTotalsFail | crm_arayuz.py:413-417 | The totals fail exactly when some table's contribution fails. |
| TargetPage.NoTotalRowContributesZero | crm_arayuz.py:413 | A table with a name column but no `TOPLAM` row contributes 0, 0, 0. |
| TargetPage.ZeroTableAddsNothing | crm_arayuz.py:412-413 | Appending such a table leaves the grand totals unchanged. |
| TargetPage.DisplaySplitsBody | crm_arayuz.py:425 | The displayed rows and the `TOPLAM` rows together account for every body row. A row is displayed exactly when it is not a `TOPLAM` row. |
| TargetPage.SalesTargetPage | crm_arayuz.py:389-429 | A sheet without columns fails. Otherwise the page shows the cleaned titled tables and their grand totals, or the error of a table that lacks a summed column. |
| TargetPage.PageNameColumn | crm_arayuz.py:413 | Every table on the page has the name column first, so selecting it never fails. |
| Aging.LoadLedgerAsWritten | crm_arayuz.py:36-42 | Defines the ledger loading as written. Every row is loaded, because the representative has already been turned into text when the drop runs. |
| Aging.MissingRepBecomesNan | crm_arayuz.py:37-40 | As written, a ledger row with no representative is kept. Its representative is the text "nan", filed under the key "nan". |
| Aging.LoadLedger | crm_arayuz.py:40-42 | Defines the intended loading: rows without a representative are dropped before the rows are loaded. |
| Aging.LoadLedgerKeepsNamedRows | crm_arayuz.py:40-42 | With the drop applied to the cells, the loaded rows are exactly the loaded forms of the rows that have a representative. |
| Aging.BucketsOf | crm_arayuz.py:248-252 | Defines the four overdue figures. Among the rows with positive days and a positive open balance, it sums the balances of the rows at 1-35 days, and of those over 35, 45 and 60 days. |
| Aging.BucketsPartition | crm_arayuz.py:248-250 | The 1-35 bucket plus the over-35 bucket is the whole overdue amount. |
| Aging.BucketsOrdered | crm_arayuz.py:248-252 | 0 ≤ over 60 ≤ over 45 ≤ over 35, and the 1-35 bucket is not negative. |
| Aging.TotalSplit | crm_arayuz.py:249-250 | Two complementary masks split a total into two parts. |
| Aging.RepBuckets | crm_arayuz.py:279-284 | Defines the figures of one representative: the four overdue figures over that representative's own rows. |
| Aging.RepOverdueCommutes | crm_arayuz.py:279-282 | Taking a representative's rows and then the overdue ones gives the same rows as the other order. |
| Aging.RepBucketsBounded | crm_arayuz.py:282-284 | No bucket of a single representative exceeds the overall bucket. |

## Left out

- **UI.** The Streamlit pages, navigation, metrics, charts, styling, number
  formatting and the download button are not modelled.
  - The display filter at crm_arayuz.py:425 is modelled; its formatting and
    colour gradient are not.
- **Login.** The login page and the session state are not modelled.
- **File I/O.** Reading the Excel files, caching, and writing Excel to
  memory are I/O.
  - The grid and the ledger are inputs to the model.
  - Column labels of the ledger are taken as already stripped.
- **Debt reader.** `solen_borc_excel_oku` ends in float parsing with a
  catch-all fallback, so it is left out.
- **Other pages and scripts.** The stock page, the customer-analysis page
  and `rapor.py` are outside the modelled core. The customer page depends on
  today's date.
- **Overview totals.** The overview's positional column totals are not
  modelled. Neither are the day slider and the per-day filter of the aging
  page, which are UI-driven.
- **Numbers.** Amounts are unbounded integers, not floating point.
  - The text a numeric name cell turns into is the integer's decimal
    notation. Pandas would print a float such as "5.0".
- **Coercion.** `pd.to_numeric` itself is a parameter.
- **Lower-casing.** `lower` is modelled for ASCII capitals and the Turkish
  capitals Ç Ğ İ Ö Ş Ü only. Other characters pass unchanged.
- **Duplicate labels.** With two columns of the same label, pandas selects a
  frame instead of a column. `pd.to_numeric` then raises a `TypeError`. In
  `clean_table` (crm_arayuz.py:407) that error makes the page show its error
  message (crm_arayuz.py:430-431). In the parser (crm_arayuz.py:103) it stops
  the application at crm_arayuz.py:597. The model does not raise here.
  - The label lookups of the parser and of the totals use the first column
    with the label.
  - `clean_table`'s coercion (`TargetPage.CoerceRow`) coerces every column
    that carries one of its labels.
- **Name column type.** If a table's name column holds only numbers, the
  source's `.str` accessor would raise. The model treats every cell as text.
- **Errors.** The catch-all `try` of the page is modelled only for the
  errors named above: no first column, and a missing summed column.
- **Index lookup.** For a key filed several times, the lookup of
  crm_arayuz.py:278 yields a column of values instead of one number.
  `SalesTargets.RepresentativeSales` gives `None` there, and the model does
  not say what the page then shows.
- Names.NormalizeIdempotent: this contract is weaker than the source's
  claim of idempotence. It requires every combining dot above (U+0307) in
  the trimmed lowercase name to follow an "i" directly. `Names.IdempotenceCanFail`
  shows the claim fails without that requirement, for "i" followed by two
  such dots.
- SalesTargets.ShortBlockAddsNothing: this requires a rectangular grid, as a
  data frame always is.

## Findings

| source | as written | input that shows it | evidently intended | confidence | as-written member | corrected member |
|---|---|---|---|---|---|---|
| crm_arayuz.py:37-40 | `dropna(subset=['ST'])` runs after `astype(str)` has turned every missing representative into "nan", so the drop removes nothing | a ledger row whose ST cell is empty: it stays, under representative "nan" | rows without a representative are dropped | not executed | Aging.MissingRepBecomesNan | Aging.LoadLedgerKeepsNamedRows |
