# readfiletime: file names to a date index

The script `xarray-inputdata_preparation.py` turns a directory of GeoTIFF
rasters named `VAR_YYYYMM_location.tif` (for example `AET_198010_ok.tif`)
into one time-indexed array. The only part with its own logic is
`readfiletime` (lines 25-30). For each file name, in list order, it:

1. takes the base name, the text after the last `/`;
2. splits it on `_` and takes token `[1]`;
3. parses that token with `strptime(..., '%Y%m')`;
4. renders the result with `strftime('%Y-%m-%d')` and appends it to a list.

The collected texts then become a `DatetimeIndex`, which is read here as an
ordered sequence of dates.

This project models that function in Dafny:

- `Paths` holds POSIX `os.path.basename` and `str.split('_')`, with the
  split's inverse `Join`.
- `Decimal` holds fixed-width decimal rendering and reading.
- `Dates` holds `datetime` dates, the `%Y%m` parse (`ParseYYYYMM`), the
  `%Y-%m-%d` rendering (`FormatYMD`) and the reading back of that rendering
  (`ParseIsoDate`).
- `Outcome` holds the two exceptions (IndexError, ValueError) as values, and
  `Collect`, which runs per-item results in order and stops at the first error.
- `FileTime` holds the per-file chain `ParseFileDate` and the whole-list
  specification `ReadAll`. It also holds the imperative `ReadFileTime`, whose
  `for` loop appends to `collect` as the source appends to `datetimecollect`
  and which is proved equal to `ReadAll`.

`ReadAll` and `DatetimeIndex` are `Collect` applied to two plain maps:
`FileTime.FileDates` gives `ParseFileDate` of each file name and
`FileTime.TextDates` gives `ParseIsoDate` of each collected text, both in list
order. `Decimal.Pad`, `Decimal.Value` and their round-trip lemmas `ValueOfPad`
and `PadOfValue` are helpers of `FormatYMD` and `ParseYYYYMM`. `Pad` gives the
zero-padded digits that `%Y`, `%m` and `%d` print, and `Value` reads the digit
groups that `%Y%m` matches (line 29).

What `%Y%m` accepts follows CPython's `strptime`:

- `%Y` is exactly four digits.
- `%m` is tried as `1[0-2]`, then `0[1-9]`, then a single `[1-9]`. The first
  alternative that matches is kept.
- Any unmatched trailing text is an error, and so is year 0.

So the accepted tokens are exactly `YYYY` followed by `01`..`12`, or `YYYY`
followed by one digit `1`..`9`. The single-digit form is a separate case
(`ParseYYYYMMAcceptsOneDigitMonth`). Here the code is more lenient than the
six-digit `VAR_YYYYMM_location.tif` form documented at line 21, and the model
follows the code. The model also does not sort the dates. It keeps the order
of the input list, as the code does, even though glob order need not be
chronological.

## Model

| member | source | states |
|---|---|---|
| `Paths.Basename` | xarray-inputdata_preparation.py:28 | the base name is the longest suffix of the path that holds no `/`: empty when the path ends with `/`, the whole path when it has none |
| `Paths.BasenameUnique` | xarray-inputdata_preparation.py:28 | exactly one suffix has those three properties, so they define the base name |
| `Paths.BasenameUnderDirectory` | xarray-inputdata_preparation.py:28 | prefixing any directory (underscores included) and a `/` leaves the base name unchanged |
| `Paths.BasenameOfName` | xarray-inputdata_preparation.py:28 | a `/`-free name under an empty directory or one ending in `/` is its own base name |
| `Paths.SplitOnUnderscore` | xarray-inputdata_preparation.py:28 | `split('_')` yields at least one token, no token holds `_`, and joining with `_` gives the text back (empty tokens kept) |
| `Paths.SplitOfJoin` | xarray-inputdata_preparation.py:28 | splitting undoes joining for any non-empty list of `_`-free tokens |
| `Paths.SplitOfToken` | xarray-inputdata_preparation.py:28 | a `_`-free text splits into itself alone |
| `Paths.SplitOfPrefixed` | xarray-inputdata_preparation.py:28 | a `_`-free text followed by `_` becomes the first token, and the rest splits as before |
| `Paths.SecondTokenExists` | xarray-inputdata_preparation.py:28 | index `[1]` exists if and only if the text holds an `_` |
| `Paths.SplitSecondToken` | xarray-inputdata_preparation.py:28 | in `prefix_token` and `prefix_token_rest`, token `[1]` is `token` |
| `FileTime.SecondToken` | xarray-inputdata_preparation.py:28 | `[1]` succeeds exactly when the base name holds `_`, yields an `_`-free token, and fails with IndexError on that base name otherwise |
| `Dates.ParseYYYYMM` | xarray-inputdata_preparation.py:29 | an accepted token has length 5 or 6 and gives a valid date on day 1; a rejected one is a ValueError on that token |
| `Dates.ParseYYYYMMAcceptsTwoDigitMonth` | xarray-inputdata_preparation.py:29 | every four-digit year 1..9999 followed by a two-digit month 01..12 parses to the first of that month |
| `Dates.ParseYYYYMMAcceptsOneDigitMonth` | xarray-inputdata_preparation.py:29 | separately, a four-digit year followed by a single digit 1..9 parses to the first of that month |
| `Dates.ParseYYYYMMOnlyYearMonth` | xarray-inputdata_preparation.py:29 | every accepted token is the four-digit year followed by the month at width 2, or at width 1 for months 1..9; nothing else parses |
| `Dates.ParseYYYYMMRejects` | xarray-inputdata_preparation.py:29 | month 13, month 00, `198019` (a leftover digit), trailing characters, non-digits, year 0000, a two-digit year and the empty token are all errors |
| `Dates.MonthDigits` | xarray-inputdata_preparation.py:29 | the characters of a month rendered at width 1 or 2 |
| `Dates.FormatYMD` | xarray-inputdata_preparation.py:29 | `%Y-%m-%d` is ten characters: four digits, `-`, two digits, `-`, two digits |
| `Dates.FormatYMDRoundTrip` | xarray-inputdata_preparation.py:29-30 | reading the rendering of any valid date gives that date back |
| `Dates.ParseIsoDateRoundTrip` | xarray-inputdata_preparation.py:29-30 | every text that reads as a date is the rendering of that date, so rendering and reading are inverse |
| `Dates.ParseIsoDate` | xarray-inputdata_preparation.py:30 | a text read as a date gives a valid date; anything else is a ValueError on that text |
| `Dates.FormatYMDFirstOfMonth` | xarray-inputdata_preparation.py:29 | the rendering of the first of a month ends in day `01` |
| `Dates.FormatYMDOfFirst` | xarray-inputdata_preparation.py:29 | the first of month M of year Y renders as `YYYY-MM-01` |
| `FileTime.ParseFileDate` | xarray-inputdata_preparation.py:28-29 | a file name that parses gives a valid date that is the first of its month |
| `FileTime.FileDateText` | xarray-inputdata_preparation.py:28-29 | the appended text exists exactly when the file parses, fails with the file's own error otherwise, and is ten characters ending in day `01` |
| `FileTime.FileDateTextReadsBack` | xarray-inputdata_preparation.py:29-30 | reading the appended text back as a date gives exactly the file's parsed date |
| `FileTime.ParseFileDateUnderDirectory` | xarray-inputdata_preparation.py:28 | any leading directory leaves the date, the text and the error unchanged |
| `FileTime.ParseFileDateSecondTokenOnly` | xarray-inputdata_preparation.py:28 | the result is the parse of the second `_` token alone, whatever the variable prefix, the location, the extension or the directory |
| `FileTime.ParseFileDateDocumentedShape` | xarray-inputdata_preparation.py:28-29 | `VAR_YYYYMM_location.tif` gives the first of month MM of year YYYY, rendered `YYYY-MM-01` |
| `FileTime.DocumentedExample` | xarray-inputdata_preparation.py:21 | `AET_198010_ok.tif` gives 1 October 1980, rendered `1980-10-01` |
| `FileTime.ParseFileDateNoUnderscore` | xarray-inputdata_preparation.py:28 | the file fails with IndexError if and only if its base name holds no `_` |
| `FileTime.ParseFileDateBadToken` | xarray-inputdata_preparation.py:28-29 | a second token that is not a year-month fails the file with ValueError on that token |
| `Outcome.Collect` | xarray-inputdata_preparation.py:26-29 | results taken in order succeed exactly when every one does, giving one value per result in the same order |
| `Outcome.CollectFirstError` | xarray-inputdata_preparation.py:27-29 | the error reported is that of the first failing result |
| `Outcome.CollectCons` | xarray-inputdata_preparation.py:27-29 | the results are taken one at a time: a failing first result stops everything with its error, otherwise its value goes in front of the rest's values or the rest's error is reported |
| `Outcome.CollectConcat` | xarray-inputdata_preparation.py:26-29 | collecting a concatenation is concatenating the collections |
| `FileTime.FileDatesConcat` | xarray-inputdata_preparation.py:27-29 | the per-file results of a concatenation are the concatenated per-file results |
| `FileTime.ReadAll` | xarray-inputdata_preparation.py:25-30 | the call succeeds if and only if every file parses; it then gives exactly one date per file, the i-th being the date of the i-th file |
| `FileTime.ReadAllFirstError` | xarray-inputdata_preparation.py:27-29 | one bad file name fails the whole call with its own error, if every file before it parses |
| `FileTime.ReadAllSameBaseNames` | xarray-inputdata_preparation.py:26-28 | two lists that agree on base names, position by position, give the same result |
| `FileTime.ReadAllConcat` | xarray-inputdata_preparation.py:26-30 | dates keep list order with no sorting: the result for `f + g` is the result for `f` followed by that for `g` |
| `FileTime.ReadAllCons` | xarray-inputdata_preparation.py:26-29 | the call takes one file at a time: a bad first file fails it with that file's error; otherwise the first date goes in front of the dates of the remaining files, or their first error is reported |
| `FileTime.ReadAllEmpty` | xarray-inputdata_preparation.py:26-30 | an empty list gives an empty date index |
| `FileTime.DatetimeIndex` | xarray-inputdata_preparation.py:30 | the index has one date per collected text, each being that text read as a date |
| `FileTime.ReadFileTimeResult` | xarray-inputdata_preparation.py:29-30 | the index built from the texts appended for a list equals `ReadAll` of that list |
| `FileTime.ReadFileTime` | xarray-inputdata_preparation.py:25-30 | the loop that appends one text per file and then builds the index returns exactly `ReadAll(flist)`, including the first file's error when one fails |

## Left out

- `os.chdir('../data')`, `os.getcwd()` and `glob.glob('*.tif')` (lines 37-45) are left out. They are filesystem I/O and process-wide state. The list of names is a parameter, and its order, which glob does not define, is kept as given.
- `get_ipython().magic(...)` (line 12) is notebook set-up.
- `xr.Variable`, `xr.open_rasterio` with `chunks`, and `xr.concat` (lines 52-66) are left out. They are raster decoding and lazy chunked arrays in external libraries, and chunking is only a performance hint.
- `da.to_netcdf` (line 73) is left out: NetCDF encoding is done entirely by a library.
- `isel(...).to_pandas()`, `head()`, `.plot()` and `.to_csv` (lines 85-97) are left out. They are foreign dataframe, plotting and CSV calls on floating-point pixel data.
- `pd.datetime` (line 29) is read as `datetime.datetime`. pandas 1.x has that alias, deprecated from 1.0; pandas 2.0 removed it, so under pandas 2.0 or later line 29 raises AttributeError. The model assumes a pandas 1.x with nanosecond timestamps.
- `Dates.ParseIsoDate`: `pd.DatetimeIndex` accepts many text forms and holds nanosecond timestamps limited to about the years 1677-2262. Only the exact `YYYY-MM-DD` form is read, and the range is the full `datetime` range 1..9999.
- `Paths.Basename`: only POSIX `posixpath.basename` with separator `/` is modelled. The Windows form, which also splits on `\` and drive letters, is not.
- `Dates.ParseYYYYMM`: only ASCII digits are accepted. Python's `\d` in `strptime` also matches other Unicode decimal digits.
- `Dates.FormatYMD`: the year is always rendered with four digits. Some C libraries render years below 1000 with fewer digits under `%Y`.
