# Side-effect flags per ATC code

This project models the data preparation of a small Streamlit app that predicts
whether a drug, given by its ATC code, may cause dizziness, nausea or a rash.
The app reads a table of `(ATC Code, Side Effect)` rows (`meddra_freq.tsv`). Then
`load_data` does four things:

- It lower-cases every side-effect description.
- It adds three 0/1 columns, `has_dizziness`, `has_nausea` and `has_rash`. Each
  is 1 when the lower-cased text contains the substring `dizziness`, `nausea` or
  `rash`. It is a substring test, not a word test: "crash" also sets `has_rash`.
- It groups the rows by ATC code and takes the maximum of each column.
- It fills a missing code with `'unknown'`.

The code the user types is upper-cased before it is handed to the classifiers.

Modules:

- `Wrappers` (`wrappers.dfy`): `Option` for a cell that may be missing, and
  `Result` for a step that may raise.
- `Text` (`text.dfy`): ASCII lower- and upper-casing, equality up to case, and
  `Contains`. `Contains` is a left-to-right substring test proved equivalent to
  "the pattern occurs at some index" (`OccursAt`).
- `Loader` (`loader.dfy`): the rows, the flag columns, the column step
  (`FlagRow`, `FlagRows`), the grouping keys (`DropMissingCodes`), the grouped
  maximum (`GroupMax`) and `LoadData`. It also holds the corrected variant
  `LoadDataKeepingUnknown` (see "## Findings").
- `LoaderProperties` (`loader_properties.dfy`): `Expected`, a reference definition
  of the result that does not depend on how the result is computed. It holds the
  proof that `LoadData` computes exactly that, and the properties that follow.
- `Query` (`query.dfy`): the normalisation of the typed code.

How `LoadData` reaches the pandas behaviour:

- A missing description makes `str.contains` yield a missing value. `astype(int)`
  cannot convert that value and raises. `LoadData` returns
  `Failure(MissingSideEffect)` in that case.
- `groupby` drops rows whose key is missing (`dropna=True` is the default). So
  the keys reaching `fillna('unknown')` are never missing, and the fill has no
  effect. The model follows the code: those rows are dropped.

## Model

| member | source | states |
|---|---|---|
| Text.Contains | app.py:26-28 | the test used by `str.contains` on a pattern without metacharacters holds exactly when the pattern occurs in the text at some index |
| Text.LowerStr | app.py:25 | `str.lower` on ASCII letters: each character is lower-cased in place, so no upper-case letter remains |
| Text.EqualIgnoringCaseIff | app.py:25 | two texts equal up to letter case are exactly those with the same lower-cased form |
| Loader.FlagRow | app.py:25-28 | the stored description is the lower-cased text, and flag X is 1 exactly when the lower-cased text contains X's trigger substring (otherwise 0) |
| Loader.FlagRows | app.py:25-28 | the column step fails exactly when some description is missing; otherwise it keeps the row count and flags each row from its own code and description |
| Loader.DropMissingCodes | app.py:31 | the rows that reach the grouping are exactly those with a code, each keyed by its code and carrying its flags |
| Loader.MaxFlags | app.py:31-35 | the column-wise `max` of two 0/1 flag vectors sets a flag exactly when either vector sets it |
| Loader.GroupMax | app.py:31-35 | the grouped table has exactly one record per distinct key of its input |
| Loader.LoadData | app.py:20-38 | `load_data` fails exactly when some description is missing |
| LoaderProperties.GroupMaxFlag | app.py:31-35 | the grouped maximum of a flag is 1 exactly when some row of the group has it set |
| LoaderProperties.LoadDataMeetsSpec | app.py:20-38 | `load_data` fails exactly on a missing description and otherwise equals the reference table `Expected` |
| LoaderProperties.LoadDataRecords | app.py:26-35 | a code has a record exactly when some row carries that code; its flag X is 1 exactly when one of the code's descriptions, lower-cased, contains X's trigger substring |
| LoaderProperties.CaseDoesNotMatter | app.py:25-28 | changing the letter case of any description leaves the result unchanged |
| LoaderProperties.OrderDoesNotMatter | app.py:31-35 | any permutation of the rows gives the same result |
| LoaderProperties.MoreRowsOnlyRaiseFlags | app.py:31-35 | appending rows keeps every code, and a flag can go from 0 to 1 but never from 1 to 0 |
| LoaderProperties.SymptomFlagIndependent | app.py:26-35 | two tables whose rows line up with the same codes and agree row by row on whether each description contains one symptom's trigger substring give every code the same flag for that symptom, however they differ on the other two |
| LoaderProperties.OwnRowsTriggerDecides | app.py:26-35 | a code's flag for one symptom depends only on whether that code's own descriptions contain that symptom's trigger substring: tables whose rows for the code agree on that test give the code the same flag, whatever their other rows and other symptoms say |
| LoaderProperties.RecordDependsOnOwnRows | app.py:31-35 | the record of a code equals the result of loading that code's rows on their own |
| Loader.CodeOrUnknown | app.py:37 | `fillna('unknown')` keeps a present code and turns a missing one into `'unknown'` |
| Loader.FillMissingCodes | app.py:31-37 | with the fill applied before grouping, every row reaches the grouping, keyed by its code or `'unknown'` |
| Loader.LoadDataKeepingUnknown | app.py:31-37 | the corrected pipeline fails exactly when some description is missing |
| LoaderProperties.KeepingUnknownMeetsSpec | app.py:31-37 | the corrected pipeline is `load_data` on the table with missing codes filled; rows without a code form the group `'unknown'` |
| LoaderProperties.MissingCodeRowsVanish | app.py:31-37 | as written, rows without a code produce no `'unknown'` record, while the corrected pipeline produces one |
| LoaderProperties.MissingCodeExample | app.py:31-37 | one row with a missing code and description "Nausea": as written the result is empty; corrected it is `{'unknown': (0, 1, 0)}` |
| Query.NormalizeQuery | app.py:56-57 | an empty input asks for nothing; otherwise the query is the input upper-cased: equal to it up to case, with no lower-case letter |
| Query.NormalizeQueryIdempotent | app.py:57 | normalising a normalised query changes nothing |
| Query.NormalizeQueryIgnoresCase | app.py:57 | inputs that differ only in letter case give the same query |

## Left out

- Streamlit page setup, the text box and the rendered predictions (app.py:10-16, 54-66) are user interface.
- Reading `meddra_freq.tsv` (app.py:22) is file I/O. The model takes the table as a sequence of rows in which either cell may be missing.
- The `@st.cache_data` memoisation (app.py:19) is a framework cache. The model recomputes the result.
- `CountVectorizer`, `LogisticRegression`, the training loop that fills `models`, and `predict` (app.py:43-61) are foreign library code with floating-point numerics. They are not modelled.
- Text.LowerStr: maps only the ASCII letters A-Z and keeps the length. Python's `str.lower` also lower-cases non-ASCII letters and can lengthen a string (for example 'İ' becomes 'i' followed by a combining dot). The flags are not affected: the only non-ASCII characters whose lower-case form is an ASCII letter are 'İ' (giving 'i' plus a combining dot) and the Kelvin sign (giving 'k'), and neither can complete `dizziness`, `nausea` or `rash`.
- Query.NormalizeQuery: maps only the ASCII letters a-z. Python's `str.upper` also upper-cases non-ASCII letters and can lengthen a string (for example 'ß' becomes 'SS').
- The model treats `str.contains` as a plain substring test. This matches the code because the three patterns contain no regular-expression metacharacters.
- Loader.LoadData: returns a map from code to flags, not a data frame. So it does not model the row order of the grouped frame, which pandas sorts by code.
- Loader.LoadData: a single `MissingSideEffect` error stands for the exception pandas raises. Its message and type are not modelled.
- Loader.LoadData: the failure on a missing description follows pandas 1.x and 2.x, where `read_table` gives the column the object dtype, `str.contains` yields NaN for a missing cell and `astype(int)` raises on it. Under pandas 3.0's default string dtype the test yields False for a missing cell instead; that behaviour is not modelled.

## Findings

| source | as written | input that shows it | evidently intended | confidence | as-written member | corrected member |
|---|---|---|---|---|---|---|
| app.py:31-37 | `fillna('unknown')` runs after `groupby`. `groupby` already dropped the rows with a missing ATC code (`dropna=True` by default), so the fill never applies and those rows disappear | a table whose only row has a missing code and the description "Nausea": the result is empty | rows without a code are collected under the code `'unknown'`: fill the codes before grouping | medium, not executed | LoaderProperties.MissingCodeRowsVanish | LoaderProperties.KeepingUnknownMeetsSpec |
