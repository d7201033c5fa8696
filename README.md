# Procurement master-table harvester: reconciliation and expiry

This project models the core of `ejecutar_proceso` in `main.py`: one daily run
of a harvester that keeps a master table of public tenders from
mercadopublico.cl in a Google Sheet. The run goes like this:

1. It reads the downloaded daily listing and trims its headers. It then finds
   the number, name, buyer and closing-date columns by substring tests. The
   buyer column falls back to `"Comprador"`. A missing number, name or
   closing-date column stops the run.
2. It reads the stored records and collects the text of every stored
   `Número`. The listing rows whose number is not among those keys are the
   new rows, kept in listing order.
3. It builds one seven-field row per new listing row: link, number, buyer,
   name, description, closing date, publication date. It then appends those
   rows to the sheet.
4. It re-reads the sheet and sweeps out every row whose closing date (field 5)
   reads as a calendar date strictly before today. The sheet is rewritten only
   when some row was dropped.

The model is in Dafny, module by module:

- `Wrappers`: Option and Result.
- `Strings`: the Python `str` operations the run uses (`strip`, `split`,
  `replace`, `in`, digit tests, zero-padded decimals).
- `Dates`: calendar dates, the sweep's date reader, and the `strftime`
  formatting of closing timestamps.
- `Columns`: the listing and the column resolver.
- `Reconcile`: the existing keys and the new-row filter.
- `RowBuilder`: the row assembly, a loop method proved against the function
  `MasterRows`.
- `Expiry`: the sweep, a loop method proved against `KeptRows` and
  `ExpiredRows`.
- `Sync`: the store as a `Worksheet` class, and one whole run as `RunCycle`.
- `Seqs`: generic sequence facts used by the proofs.

Several external inputs become parameters:
- The downloaded listing is an `Option<Listing>`. A listing is headers plus
  rows of cells, each cell either text or a structured timestamp.
- Whether the store could be opened is a boolean.
- The detail pages are a function from the listing number to what the page
  yielded for the description and for the publication date.
- Today's date is a parameter.

The date reader follows CPython's `strptime` with the patterns `%d-%m-%Y` and
`%Y-%m-%d`:
- `%d` and `%m` take one or two ASCII digits, worth 1–31 and 1–12.
- `%Y` takes exactly four digits.
- The whole text must be consumed.
- The three numbers must form a real date: year 1 to 9999, the month's days,
  and leap years.

A header such as `N° Licitación` contains neither `Número` nor `Numero`
(main.py:158). So with the headers `N° Licitación`, `Nombre Adquisición` and
`Fecha de Cierre` the run stops at main.py:163-165. `ResolveColumns` states
this as an if-and-only-if: its result is a failure exactly when no trimmed
header passes the number test, the name test or the closing-date test.

The number column is turned into text in place (main.py:186) before the
builder reads the closing date (main.py:234-237). When one header is both the
number and the closing-date column, a timestamp there has already become its
`str`, `YYYY-MM-DD HH:MM:SS`, and is stored that way rather than day first.
`ClosingCell` models this, and `BuiltRowExpiry` shows the sweep reads both
forms as the same date.

## Model

| member | source | states |
|---|---|---|
| Strings.Strip | main.py:157 | the result is no longer than the input and neither starts nor ends with whitespace; a text that already does neither comes back unchanged |
| Strings.Contains | main.py:158-161 | no contract of its own: Python's `t in s`, a contiguous occurrence; `ContainsWithin` states that a text contains each piece it is built from and nothing longer than itself |
| Strings.ContainsWithin | main.py:158-161 | a text built as `pre + t + post` contains `t`, and no text contains a longer one |
| Strings.ReplaceChar | main.py:292 | the result has the input's length, holds the replacement wherever the input held the replaced character and the input's character elsewhere, and no longer holds the replaced character |
| Strings.Split | main.py:292 | the pieces contain no separator and, joined by the separator, give back the text |
| Strings.SplitOfJoin | main.py:292 | splitting undoes joining when no piece holds the separator |
| Strings.PadFacts | main.py:237 | a zero-padded number is all digits, reads back as the number, and has exactly the requested width when the number fits |
| Columns.Labels | main.py:157 | each header is replaced by its trimmed text, position by position |
| Columns.FirstWith | main.py:158-161 | like `next(...)` over the headers: the first header passing the test, or nothing exactly when no header passes it |
| Columns.CellAt | main.py:234 | the cell is the row's cell at the first column with that header |
| Columns.CellText | main.py:201 | no contract of its own: `str` of a cell, the text itself or `IsoStamp` of a timestamp; `RecordIdentity` and `RecordClosing` state what it yields in the built row |
| Columns.ResolveColumns | main.py:157-165 | failure exactly when no trimmed header passes the number, name or closing-date test; on success, number, name and closing date are the first passing headers; the buyer is the first header with both "Nombre" and "Organismo", or "Comprador" when there is none |
| Reconcile.ExistingKeys | main.py:177-179 | the key set is empty exactly when the master is empty or no record has a `Número` column; otherwise every stored `Número` is a key |
| Reconcile.KeyText | main.py:179 | no contract of its own: `astype(str)` of a record's `Número`, "nan" when the record lacks it; `ExistingKeys` and `ExistingKeyStored` state which of these texts are keys |
| Reconcile.KeyOf | main.py:186-201 | no contract of its own: the text of a listing row's number cell after `astype(str)`, which is both the filter's key and `lic_id`; `NewRowsExactly` and `RecordIdentity` state how it is used |
| Reconcile.ExistingKeyStored | main.py:177-179 | every key is the `str` of some stored record's `Número`, and exists only when the column does |
| Reconcile.NewRows | main.py:186-187 | the new rows are listing rows, no more of them than the listing has |
| Reconcile.NewRowsExactly | main.py:186-187 | a row is new if and only if it is a listing row whose key text is not an existing key |
| Reconcile.NewRowsConcat | main.py:187 | the filter distributes over concatenation, so it keeps the listing's relative order |
| Reconcile.KnownRowsAreNotNew | main.py:187 | rows whose keys are all known yield no new row |
| Reconcile.NewRowsIdempotent | main.py:177-187 | filtering the new rows again, against the existing keys plus their own keys, yields nothing |
| Reconcile.NewKeysAreUnstored | main.py:187 | no new row's key is an existing key |
| Reconcile.NothingStoredAllNew | main.py:187 | with no existing keys every listing row is new, in order |
| Reconcile.EmptyMasterAllNew | main.py:177-187 | an empty master, or one without a `Número` column, makes every listing row new |
| RowBuilder.CleanDescription | main.py:219 | the description is a prefix of the trimmed page text with every newline turned into a space, as long as that text or 2500 characters, whichever is less; so it has no newline, and a trimmed text without newlines of at most 2500 characters is kept as it is |
| RowBuilder.DescriptionText | main.py:205-219 | the description field is "No encontrada" when the page yielded none, and the cleaned page text otherwise; either way it has no newline and is at most 2500 characters long |
| RowBuilder.PublicationText | main.py:206-225 | a publication date the page did not yield is "No encontrada"; one it did is trimmed, and a text without surrounding whitespace is kept as it is |
| RowBuilder.ClosingText | main.py:235-237 | a text closing date is kept as it is; a timestamp is written so that cleaning it leaves its `DD-MM-YYYY` date part, and the sweep reads it back as the same date when that date is real |
| RowBuilder.ClosingCell | main.py:186 | the closing cell as the builder sees it after the number column became text: its text is the listed cell's text, and it is the listed cell itself unless the closing-date column is the number column |
| RowBuilder.BuyerText | main.py:243 | the buyer is the buyer column's text, or "N/A" when the listing has no such column |
| RowBuilder.BuildRecord | main.py:198-248 | no contract of its own: the record of one listing row; `RecordIdentity`, `RecordDetails` and `RecordClosing` state its fields |
| RowBuilder.Fields | main.py:239-248 | a stored row has seven fields: link, number, buyer, name, description, closing date, publication date, at positions 0 to 6 |
| RowBuilder.RecordIdentity | main.py:196-244 | the number is the listing's number cell, the link is the base URL followed by it, the name comes from the name column, and the buyer comes from the buyer column or is "N/A" when there is none |
| RowBuilder.RecordDetails | main.py:205-226 | the record's description and publication date are the description and publication fields of the page fetched for its number; the description has no newline and is at most 2500 characters long; a detail the page did not yield stays "No encontrada" |
| RowBuilder.RecordClosing | main.py:186-237 | a text closing date is kept as its text; a timestamp is written `DD-MM-YYYY HH:MM:SS`, except one in the number column itself, which line 186 already turned into `YYYY-MM-DD HH:MM:SS` |
| RowBuilder.MasterRows | main.py:198-249 | one built row per new listing row |
| RowBuilder.RowAtLayout | main.py:239-248 | the row built for one listing row has seven fields, its number and a link made from it, and a one-line description of at most 2500 characters |
| RowBuilder.MasterRowsLayout | main.py:196-249 | every appended row has seven fields, is keyed and linked by its listing row's number, and has a one-line description of at most 2500 characters |
| RowBuilder.BuildRow | main.py:200-248 | the loop body builds exactly the record's seven fields, starting from the "No encontrada" defaults |
| RowBuilder.BuildRows | main.py:198-249 | the loop appends the built rows in listing order, one per new row |
| Dates.DateFrom | main.py:294-296 | a date results exactly when year, month and day form a real calendar date |
| Dates.Before | main.py:298 | no contract of its own: `fecha_obj < hoy` on dates, by year, then month, then day; `BeforeIsStrictOrder` states its order properties |
| Dates.BeforeIsStrictOrder | main.py:298 | date comparison is a strict total order: irreflexive, asymmetric, transitive, and any two different dates compare one way |
| Dates.ParseDayFirst | main.py:294 | a date results exactly when the text splits at `-` into a day token, a month token and a four-digit year that form a real date, and the date is day = first piece, month = second, year = third |
| Dates.ParseYearFirst | main.py:296 | a date results exactly when the text splits at `-` into a four-digit year, a month token and a day token that form a real date, and the date is year = first piece, month = second, day = third |
| Dates.ParseSegment | main.py:293-296 | a date results exactly when one of the two orders accepts the text, it is valid, and when day-first refuses the text the result is the year-first reading |
| Dates.OrdersExclusive | main.py:293-296 | no text reads both day first and year first, so the fallback order never changes a result |
| Dates.CleanSegment | main.py:292 | the cleaned segment holds no slash and no space, and neither starts nor ends with whitespace |
| Dates.Normalise | main.py:290-296 | a date is read exactly when the raw text is longer than 8 characters and its cleaned segment parses in one of the two orders; such a date is valid |
| Dates.DayFirstTextChars | main.py:237 | the date part of a formatted timestamp is at least 10 characters long and holds no whitespace and no slash |
| Dates.CleanFormattedStamp | main.py:292 | cleaning a formatted timestamp (slashes to dashes, text before the first space, trimmed) leaves exactly its date part |
| Dates.DashedDateParses | main.py:294 | a day token, a month token and a four-digit year that form a real date, joined by dashes, parse day first to that date |
| Dates.DashedYearFirstParses | main.py:293-296 | a four-digit year, a month token and a day token that form a real date, joined by dashes, are refused day first and read year first as that date |
| Dates.CleanDateText | main.py:292 | three runs of digits separated by `-` or `/`, followed by nothing or by a space and anything, clean to the three runs joined by dashes |
| Dates.NormaliseDayFirst | main.py:289-294 | `DD-MM-YYYY` or `DD/MM/YYYY` of a real date, with or without a time after a space, is read as that date when longer than 8 characters |
| Dates.NormaliseYearFirst | main.py:289-296 | `YYYY-MM-DD` or `YYYY/MM/DD` of a real date, with or without a time after a space, is read as that date when longer than 8 characters |
| Dates.SlashesReadAsDashes | main.py:292 | replacing every slash by a dash beforehand never changes what the reader returns |
| Dates.FormatStamp | main.py:237 | no contract of its own: `strftime("%d-%m-%Y %H:%M:%S")`; `CleanFormattedStamp` and `FormatStampNormalises` state how the sweep reads it |
| Dates.IsoStamp | main.py:235 | no contract of its own: `str` of a timestamp; `IsoStampNormalises` states how the sweep reads it |
| Dates.IsoStampNormalises | main.py:235 | a timestamp stored as its `str` reads back through the sweep's date reader, by the year-first fallback, as the same calendar date |
| Dates.DayFirstTextParses | main.py:294 | the date part of a formatted timestamp parses day first to that timestamp's date |
| Dates.FormatStampNormalises | main.py:236-237 | a closing timestamp written by the row builder reads back through the sweep's date reader (lines 290-296) as the same calendar date |
| Expiry.ClosingFieldText | main.py:288 | a row with at most five fields has "" as its closing text |
| Expiry.Expired | main.py:288-299 | a row can expire only if it has a field 5 longer than 8 characters; `ExpiredExactly` states the full condition |
| Expiry.KeptRows | main.py:302-303 | the kept rows are input rows that have not expired |
| Expiry.ExpiredRows | main.py:304-305 | the dropped rows are input rows that have expired |
| Expiry.ExpiredExactly | main.py:287-305 | a row is dropped if and only if its field 5 is longer than 8 characters, its cleaned segment parses to a valid date, and that date is strictly before today |
| Expiry.KeptWhenUnreadable | main.py:288-300 | rows with fewer than six fields, short date texts and texts that parse in neither order are kept |
| Expiry.KeptWhenCurrent | main.py:298-299 | a row whose date is today or later is kept |
| Expiry.KeptRowsExactly | main.py:287-303 | a row is kept if and only if it is an input row that has not expired |
| Expiry.KeptRowsConcat | main.py:287-303 | the sweep distributes over concatenation, so kept rows stay in table order |
| Expiry.SweepPartition | main.py:284-305 | kept and dropped counts add up to the data rows, and together they are the input as a multiset |
| Expiry.NothingExpiredKeepsAll | main.py:302-307 | nothing is dropped exactly when every row is kept |
| Expiry.NoneExpiredDropsNothing | main.py:302-305 | rows none of which has expired lose nothing |
| Expiry.KeptRowsIdempotent | main.py:287-305 | sweeping the kept rows again keeps them all |
| Expiry.SweptTable | main.py:278-311 | a table with at most a header row is left unchanged; otherwise the header stays first |
| Expiry.SweptTableKeepsCurrent | main.py:282-311 | whether or not the store is rewritten, the table left is the header followed by the rows that have not expired |
| Expiry.SweptTableIdempotent | main.py:278-311 | a second sweep on the same day changes nothing |
| Expiry.Conserve | main.py:288-300 | the loop body keeps a row if and only if it has not expired |
| Expiry.SweepRows | main.py:284-305 | the loop yields the header followed by the kept rows in order, and counts the dropped rows |
| Expiry.SweepTable | main.py:278-305 | a table with at most a header row comes back unchanged with count 0; otherwise the result is header plus kept rows; table size plus count is the input size; the count is positive exactly when the swept table differs from the input |
| Sync.RecordOf | main.py:174 | no contract of its own: `dict(zip(header, row))` with "" padding; `RecordOfKeys` and `RecordOfAt` state its keys and values |
| Sync.Records | main.py:174 | one record per stored row below the header row |
| Sync.RecordOfKeys | main.py:174 | a record's keys are exactly the header's names |
| Sync.RecordOfAt | main.py:174 | a record maps a header name to that row's cell at the name's last column, or "" past the end of a short row |
| Sync.StoredKey | main.py:177-179 | with the number in column B under a single `Número` header, every stored row's field 1 is an existing key |
| Sync.RecordsKeyed | main.py:174-178 | every record has the `Número` column exactly when the header row does |
| Sync.ExistingKeysGrow | main.py:177-179 | rows appended below an unchanged header keep every existing key |
| Sync.ResolvedReadable | main.py:157-165 | once the columns resolve, the builder can read every listing row |
| Sync.NewListingRows | main.py:186-187 | the new listing rows are readable by the builder |
| Sync.Harvest | main.py:186-249 | one appended row per new listing row |
| Sync.AppendedKeysAreNew | main.py:186-249 | every appended row has seven fields, and its number was not a stored key |
| Sync.AppendedRowsStored | main.py:240-256 | when the sheet's header row has `Número` in column B and nowhere after it, every appended listing row's number is a stored key after the append |
| Sync.HarvestAgainAddsNothing | main.py:174-256 | once a run has appended its rows, the same listing yields no new row |
| Sync.BuiltRowExpiry | main.py:234-299 | a row built from a closing timestamp of a real date expires exactly when that date is before today, whether the timestamp was written day first or, in the number column, as its `str` |
| Sync.Worksheet.constructor | main.py:172 | the sheet holds the given cells |
| Sync.Worksheet.AppendRows | main.py:256 | the rows go below the stored rows |
| Sync.Worksheet.Rewrite | main.py:310-311 | the sheet then holds exactly the given rows |
| Sync.Worksheet.SweepExpired | main.py:271-311 | the sheet becomes the swept table; the count is the number of rows removed, positive exactly when the sheet changed |
| Sync.AppendNew | main.py:174-256 | the sheet becomes the old cells followed by the harvested rows, and the count is their number |
| Sync.RunCycle | main.py:142-316 | no listing, missing key columns and no store are each reported as such and leave the sheet unchanged; a completed run appends the harvested rows, sweeps, and reports both counts |

## Left out

- The browser: Selenium setup, stealth options and the user-agent fallback (main.py:18-95). Also the download and file-polling loop (main.py:98-139). The listing enters as an optional value.
- Excel reading with pandas (main.py:149-154). The listing is a value of headers and cells. Listing rows whose width differs from the header count are excluded by `Listing.Valid`, as a data frame excludes them.
- Google Sheets authentication and the open call (main.py:35-47, 168-172). The store is a `Worksheet` object plus a boolean saying whether it could be opened.
- Store calls that fail partway are not modelled: a read, an append or a rewrite that raises (main.py:181-183, 258-259, 273-276, 313-314). Every call after a successful connection succeeds.
- `clear` followed by `update` (main.py:310-311) is modelled as one atomic rewrite.
- gspread's conversion of numeric-looking cells in `get_all_records` (main.py:174). Records hold the cells' text.
- What `USER_ENTERED` does to appended text (main.py:256, 311). Sheets may re-read a date-like text as a date or a number. The model stores the text as given.
- Fetching the detail pages is out of scope: the 403 "Forbidden" retry, the 60-second pause and the DOM lookups (main.py:208-231). Their results enter as a function from listing number to `Detail`. A page fetched twice for the same number yields the same detail.
- `time.sleep` and `random.uniform` pacing (main.py:213, 250). `datetime.now()` (main.py:283) is the `today` parameter.
- Temp-file deletion (main.py:265-269, 275, 279, 318) and all console output.
- The `str` of a listing cell for number, name, buyer and a closing date in the number column: text cells are their own text, and a timestamp cell is `YYYY-MM-DD HH:MM:SS`. Other pandas renderings are not modelled, such as a float `1234.0`, `NaN` or `NaT`, or a timestamp with sub-second digits.
- Columns.CellAt: with duplicate trimmed headers, pandas returns several columns for one name. The model reads the first of them.
- Dates.Normalise: digits are the ASCII digits only. CPython's `\d` also accepts other Unicode decimal digits.
- Sync.HarvestAgainAddsNothing: stated for a sheet whose header row has `Número` in column B and nowhere after it. That is the layout the builder writes. Other header rows are not covered.
