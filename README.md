# Article and lot lookup form — Dafny model

A warehouse operator types (or scans) an article code. The form searches the
loaded catalog sheet for rows whose `codarticulo` contains that code, ignoring
case. It offers the distinct lots of the found rows plus an `Otro` ("other")
choice for a new lot, and takes an optional quantity. When the operator presses
"add", the form appends one entry to the session's `consultas` list. That entry
has the typed code, the chosen lot, and the descriptive columns of the first
row found.

The model has six modules:

- `Optional` (optional.dfy): the `Option` type used for session keys that may be absent.
- `Strings` (strings.dfy):
  - the column-name normalisation of the loaded sheet (`NormalizeColumn`: lower-case, then strip);
  - ASCII lower-casing and Python-style stripping;
  - case-insensitive literal substring search (`ContainsIgnoringCase`), proved equal to
    "some window of the text equals the code up to case".
- `Catalog` (catalog.dfy):
  - the datatypes: `Cell` (empty or text), `Row` (the six columns the form reads) and
    `Table` (its column names and its rows);
  - `Search`, which is specified as the order-preserving selection of exactly the matching rows.
- `Lots` (lots.dfy):
  - the non-empty lots of the found rows (`NonNullLots`);
  - pandas-style `unique` (`Dedup`, first-seen order);
  - the option list with the `Otro` marker (`LotOptions`);
  - the selection box (`Choose`).
- `Entry` (entry.dfy):
  - code selection (`SelectCode`: a decoded barcode beats the typed code);
  - the effective lot (`EffectiveLot`);
  - record construction (`BuildRecord`);
  - `Interaction`, a function giving the outcome of one pass of the form:
    `Idle`, `ColumnError`, `NotTextColumn`, `NotFound`, `Offered`, `MissingLot` or `Added`.

  The lemmas state what one pass does.
- `Sessions` (session.dfy): the `Session` class holds the session's `barcode` and
  `consultas` keys. Its methods update them in place:
  - `InitConsultas` creates the list only if it is absent;
  - `ScanFrame` runs the barcode loop of one camera frame;
  - `AddEntry` is the add button;
  - `Run` is one top-to-bottom pass of the script.

  `Run` is proved to return the outcome `Interaction` describes. It is also proved to
  append that outcome's record, and nothing else, to the earlier entries.

Modelling choices:
- `str.contains(code, case=False)` runs a regular expression. The model treats the code
  as a literal substring, so it assumes the code has no regular-expression
  metacharacters. Case-insensitivity is ASCII lower-casing.
- `str.strip` removes the characters Python treats as whitespace in the ASCII range:
  space, tab, line feed, vertical tab, form feed, carriage return and 0x1C–0x1F.
- Both a pandas NaN and a Python `None` are `Cell.Null`. An absent column reads as `Null`.
- Indexing a column the sheet lacks (`codarticulo` at line 86, or `lote` at line 90 once
  rows were found) raises `KeyError` in the script. The model returns
  `ColumnError(column)` for it.
- When every article-code cell of a non-empty sheet is empty, pandas reads the column
  as numbers and the `.str` accessor at line 86 raises. The model returns
  `NotTextColumn("codarticulo")` for it. In a column that also holds text, an empty
  code cell simply never matches.
- The selection box always returns an offered lot. The choice is given as a
  position in the list. A position past the end selects the first entry, which is
  the box's default.
- The model follows `app.py` as written:
  - The descriptive fields come from the first matching row (`iloc[0]`), not from the
    row of the chosen lot. `TwoLotScenario` shows this: choosing `L2` saves the name of
    the `L1` row.
  - The lot is checked only for emptiness, so a lot of one blank is accepted
    (`BlankLotAccepted`).
  - The quantity is free text and is kept as typed. An empty quantity becomes an empty
    cell. It is neither parsed nor checked to be non-negative.
  - The expiry is copied as it is, with no `dd/mm/yyyy` reformatting.
  - The marker is the literal `Otro`. When a catalog lot is itself `Otro`, the offered
    list holds the marker twice (`LotOptionsDistinctIff`), and choosing that lot asks
    for a new lot.

## Model

| member | source | states |
|---|---|---|
| `Strings.Lower` | app.py:86 | same length as the input, each character lowered, no ASCII upper-case letter left |
| `Strings.TrimLeft` | app.py:20 | result is a suffix of the input, everything dropped is whitespace, result does not start with whitespace |
| `Strings.TrimRight` | app.py:20 | result is a prefix of the input, everything dropped is whitespace, result does not end with whitespace |
| `Strings.Strip` | app.py:20 | result is a slice `s[i..j]` with only whitespace before `i` and after `j`, and it neither starts nor ends with whitespace |
| `Strings.StripIdempotent` | app.py:20 | stripping a stripped name changes nothing |
| `Strings.NormalizeColumn` | app.py:20 | the normalised name is the slice of the lower-cased raw name left after removing the whitespace on both sides; it has no upper-case letter and does not start or end with whitespace |
| `Strings.NormalizeColumnIdempotent` | app.py:20 | normalising an already normalised column name leaves it unchanged |
| `Strings.NormalizeColumnCollides` | app.py:20 | two different header cells (`Lote`, ` lote`) normalise to the same column name `lote` |
| `Strings.IsInfixCorrect` | app.py:86 | the literal substring test holds exactly when the code occurs at some position of the text |
| `Strings.ContainsIgnoringCaseCorrect` | app.py:86 | the case-insensitive test holds exactly when some window of the article code equals the entered code letter by letter up to case |
| `Catalog.Search` | app.py:86 | the result is a subsequence of the catalog (catalog order kept), every result row has a text article code containing the code ignoring case (so empty article-code cells never match), and every matching row is kept as often as it occurs |
| `Catalog.SearchEmptyIff` | app.py:86-88 | the search result is empty exactly when no catalog row matches |
| `Catalog.SearchHeadIsFirstMatch` | app.py:111-115 | the first search result (`iloc[0]`) is the first catalog row the code matches |
| `Lots.NonNullLots` | app.py:90 | the non-empty lot values are exactly the lots of some row, no more values than rows (their first-seen order is pinned down through `FirstLotOrder`) |
| `Lots.Dedup` | app.py:90 | `unique()` keeps each value once, keeps exactly the values of its input, and orders them by first occurrence |
| `Lots.LotOptions` | app.py:90-91 | the offered list ends with `Otro`; before it come the distinct non-empty lots of the found rows, exactly those, ordered by the first row that carries each |
| `Lots.FirstLotOrder` | app.py:90 | ordering lots by first position among the non-empty lots (`dropna` then `unique`) is ordering them by the first row that carries them |
| `Lots.OfferedLotHasRow` | app.py:90-91 | every offered lot other than the marker is the lot of some found row |
| `Lots.LotOptionsDistinctIff` | app.py:90-91 | the whole offered list is free of repeats exactly when no found row has the lot `Otro` |
| `Lots.Choose` | app.py:92 | the selected lot is one of the offered lots, the one at the chosen position when there is one |
| `Entry.QuantityCell` | app.py:116 | an empty quantity becomes an empty cell, any other is kept unchanged |
| `Entry.SelectCode` | app.py:82 | the code is the session barcode when one is set, the typed code otherwise |
| `Entry.EffectiveLot` | app.py:95-98 | the lot is the typed lot when `Otro` is selected and the selected lot otherwise |
| `Entry.BuildRecord` | app.py:109-117 | the record carries the entered code, the given lot, the quantity (empty cell exactly when the text is empty), and the name, barcode, presentation and expiry of the first found row, each empty where the sheet lacks the column |
| `Entry.Interaction` | app.py:84-124 | a pass is idle exactly when the code is empty; raises a column error exactly when the code column is missing, or the lot column is missing once the search found rows, naming that column; raises on a code column without text; reports not-found exactly when the code column has text and the search is empty; offers lots exactly when both columns are present, the search found rows and add was not pressed, and then offers its `LotOptions`; refuses or adds only when add is pressed, and an added record has the entered code and a non-empty lot |
| `Entry.NoCodeNoSearch` | app.py:84 | a pass does nothing exactly when the code is empty |
| `Entry.NotFoundIffNoMatch` | app.py:123-124 | with a code, the not-found error is reported exactly when the code column holds some text and no catalog row matches; it comes with no lot list |
| `Entry.AllEmptyCodesRaise` | app.py:86 | a non-empty sheet whose article-code cells are all empty makes the search raise, whatever the code |
| `Entry.LotsOnlyForMatches` | app.py:84-92 | lots are offered exactly when the code is non-empty, both the code and lot columns exist, some catalog row matches and add was not pressed, and they are the lot options of the search result; a column error arises exactly when the code column is missing or, with some row matching, the lot column is missing, and it names the code column in the first case and the lot column in the second |
| `Entry.MissingLotIffEmpty` | app.py:104-107 | with lots offered and add pressed, the entry is refused exactly when the effective lot is empty, and added exactly when it is not |
| `Entry.BlankLotAccepted` | app.py:105-106 | a typed lot of one blank under `Otro` is accepted and saved as is (no stripping) |
| `Entry.AddedRecord` | app.py:109-117 | a saved record has the entered code, the typed lot when `Otro` was selected and the selected lot otherwise (never empty), the quantity or an empty cell, and the descriptive fields of the first matching catalog row (empty where the column is absent) |
| `Entry.PickedLotBelongsToMatch` | app.py:95-98 | a lot picked from the list (not `Otro`) is the lot of some row the code matches |
| `Entry.ScannedCodeWins` | app.py:82 | once a barcode is in the session, the typed code makes no difference to the pass |
| `Entry.TwoLotScenario` | app.py:86-117 | two `A100` rows with lots `L1`, `L2`: searching `a100` offers `L1`, `L2`, `Otro`; choosing `L2` with quantity `5` saves code `a100`, lot `L2` and the name of the `L1` row |
| `Sessions.Session.constructor` | app.py:70 | a new session has neither a barcode nor an entry list |
| `Sessions.Session.InitConsultas` | app.py:70-71 | the entry list becomes empty only when it was absent; an existing list is kept |
| `Sessions.Session.ScanFrame` | app.py:43-59 | after a frame, the session barcode is the last decoded value, or unchanged when nothing was decoded |
| `Sessions.Session.AddEntry` | app.py:104-121 | an empty lot leaves the list unchanged; otherwise exactly one record is appended at the end and the earlier entries stay |
| `Sessions.Session.Run` | app.py:82-124 | one pass returns the outcome `Interaction` gives for the session barcode or typed code; the list afterwards is the earlier list (empty if absent) plus that outcome's record when one was added, and nothing else |

## Left out

- Loading the catalog (`cargar_base`, app.py:13-24) is not modelled: the HTTP fetch, the spreadsheet parsing of the sheet `TP's GHG`, the `st.cache_data` memoisation and the load-failure message. The model takes the loaded table as input. A failed load leaves `None`, which makes the search line raise; that path is not modelled.
- Excel export (`convertir_a_excel`, app.py:27-32) and the download button are not modelled. Their byte output comes from pandas and openpyxl.
- The camera callback's decoding, rectangle and text drawing are not modelled. Only its loop over the decoded values is (`ScanFrame`). It runs on the video component's own thread; the model does not capture interleaving with script passes.
- Rendering, widgets' retained state across reruns, and the success, error and warning messages are not modelled. The outcome datatype names which message a pass shows.
- Regular-expression semantics of `str.contains` and Unicode case folding and whitespace are not modelled. The code is a literal substring; case and whitespace are ASCII only.
- Cells that are numbers or dates are not distinguished from text; a cell is empty or a text value. So the model does not capture that a numeric article code in a mixed column never matches (it is searched as text here), that an all-numeric code column makes the `.str` accessor raise, or Python truthiness of non-text lots (a lot `0`).
- Duplicate column names produced by normalisation are not modelled. A table's columns are a set; `NormalizeColumnCollides` shows that such duplicates can arise.
