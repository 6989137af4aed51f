# Life-insurance record cleaning, modelled in Dafny

`cleaning.py` loads a table of life-insurance policies, cleans it in one
straight-line pass, and writes it back. This project models the cleaning
pass (lines 15-48) as pure functions over an immutable table and proves what
each step does and what the whole pass guarantees about the rows it writes.

The table is a `seq<Record>`. A `Record` has the twelve columns of the data
file. Each field is a `Cell`: `Null` (pandas' NaN/NA/NaT), `Str` (text), `Num`
(a number) or `When` (a parsed date). Because cells are untyped, the model
follows the script's mixed-type columns. Examples:

- an `"unknown"` token can sit among numbers;
- a string fill value can land in the age column;
- a number can reach the phone column.

The steps, in the script's order:

| step | lines | Dafny |
|---|---|---|
| drop rows without both names | 15 | `Cleaning.DropIncomplete` |
| mode imputation of age, amount, term (`"unknown"` counts as missing) | 16, 20-21 | `Cleaning.ModeOf`, `Cleaning.ImputeUnknown` |
| placeholder fills | 17-19, 22-23 | `Cleaning.FillNa`, `Cleaning.FillContacts`, `Cleaning.FillLabels` |
| coerce to number, then refill with the mode | 26, 29-30 | `Cleaning.ToNumeric` |
| parse dates | 27-28 | `Cleaning.ToDatetime` |
| strip the phone to digits and regroup it as `ddd-ddd-d…` | 33-34 | `Cleaning.StripNonDigits`, `Cleaning.RegroupPhones`, `Text.NormalizePhone` |
| lower-case the email | 35 | `Cleaning.LowerEmails`, `Text.Lower` |
| remove repeated rows, keeping the first | 38 | `Seqs.Dedup`, `Cleaning.DropDuplicates` |
| drop negative ages and amounts | 41-48 | `Cleaning.DropInvalid` |

`Cleaning.Clean` chains all of the steps. The pandas exceptions the script can
raise become `Err` values:

- `NoMode(c)`: `mode()[0]` on a column with no value.
- `NotText(Phone)`: the regrouping lambda receives something that is not a
  string.
- `NotText(Email)`: the `.str` accessor of line 35 refuses the email column,
  because none of its values is text and they are all numbers or all dates.
- `NotComparable(c)`: `< 0` meets a string or a date.

Three library behaviours are parameters rather than code:

- `pd.to_numeric` is `NumberParser`.
- `pd.to_datetime` is `DateParser`, one per date column: without `format=`
  pandas infers the format from each column's own first string, so the same
  string can parse in one date column and not in the other.
- `Series.mode()[0]` is `ModePicker`. A picker is constrained by
  `Modes.IsModePicker`: it returns a most frequent non-null value, and fails
  exactly when the column has no value. Which of several tied values it picks
  is left open, so every result holds for every tie-break. `Modes.FirstMode`
  shows that such a picker exists.

Files:

- `wrappers.dfy`: `Option` and `Result`.
- `seqs.dfy`: counting, order-preserving filtering, first-occurrence
  deduplication, and the subsequence-by-positions predicate `PicksFrom`.
- `frame.dfy`: cells, records, columns, tables.
- `modes.dfy`: what a mode is.
- `text.dfy`: digit stripping, Python slicing, phone regrouping, ASCII
  lower-casing.
- `cleaning.dfy`: the script's steps and the pipeline.
- `scenarios.dfy`: concrete tables and strings whose results are proved.

### Behaviour worth knowing

- **The mode can be `"unknown"`.** The fill value at lines 16, 20 and 21 is
  the mode of the column *before* the `"unknown"` token is replaced. So the
  token is counted and can win. When it wins, the line writes `"unknown"` back
  into the column (`Scenarios.UnknownCanWinTheMode`).
- **Refill modes come from the uncoerced column.** The refill values at lines
  26, 29 and 30 are modes of the column as lines 16-21 left it, not after
  coercion. A refill reaches only the cells that do not parse as numbers.
  When such a mode is a string and some cell fails to parse, the string lands
  in the numeric column. In age or amount, line 41 or 42 then raises
  (`NotComparable`). Nothing later compares `policy_term`, so there the
  string is written out.
- **`policy_term` is imputed too.** Line 21 imputes it exactly like age and
  amount.
- **Bad values can stop the script.** It stops:
  - on a column with no value (`NoMode`);
  - on a phone that is not text, or an email column the `.str` accessor
    refuses (`NotText`);
  - on a string or date in age or amount at validation (`NotComparable`).

  `Cleaning.CleanModeFailure` states exactly when the first of these happens,
  and `Cleaning.ReshapeFails` that after the fills only the second can.

## Model

| member | source | states |
|---|---|---|
| Cleaning.DropIncomplete | cleaning.py:15 | every kept row has both names and comes from the input; every input row with both names is kept |
| Cleaning.DropIncompleteSelects | cleaning.py:15 | the result is the order-preserving subsequence of exactly the input rows whose holder name and last name are both present |
| Scenarios.NamelessRowDropped | cleaning.py:15 | a row without a holder name is not in the result, whatever its other fields |
| Cleaning.FillNa | cleaning.py:17-19 | null cells of the column become the placeholder; non-null cells and every other column are unchanged; the length is kept |
| Cleaning.FillNaIdempotent | cleaning.py:17-19 | filling a column twice with the same placeholder is the same as filling it once |
| Cleaning.FillContacts | cleaning.py:17-19 | each row is the input row with its email, phone and address filled by their placeholders, and nothing else changed |
| Cleaning.FillLabels | cleaning.py:22-23 | each row is the input row with its status and beneficiary filled by their placeholders, and nothing else changed |
| Cleaning.ModeOf | cleaning.py:16 | the mode lookup succeeds exactly when the column holds a non-null value; the value found occurs in the column and no value occurs more often; otherwise it fails with `NoMode` for that column |
| Cleaning.ImputeUnknown | cleaning.py:16-21 | cells that are null or the `"unknown"` token become the fill value; all other cells and columns are unchanged |
| Cleaning.ImputedModeStaysMode | cleaning.py:16-30 | a mode of the raw column, used as the fill, is still a mode of the imputed column, which lines 26, 29 and 30 read again |
| Scenarios.UnknownAgeTakesMode | cleaning.py:16 | with ages "unknown", 30, 30, 45, every admissible mode picker yields 30, and the "unknown" row gets age 30 |
| Scenarios.UnknownCanWinTheMode | cleaning.py:16 | with ages "unknown", "unknown", 30, the mode is the token itself and imputation writes it back |
| Cleaning.FillMissingFails | cleaning.py:16-23 | lines 16-23 fail exactly when age, amount or term has no value; the failure is always `NoMode`, and it names age exactly when age has no value |
| Cleaning.FillMissingFills | cleaning.py:16-23 | on success every filled column of every row holds a value, the length is kept, and names and dates are unchanged |
| Cleaning.ToNumeric | cleaning.py:26-30 | numbers stay; strings that parse become their number; every other cell becomes the fill value; other columns are unchanged |
| Cleaning.ToNumericSettles | cleaning.py:26-30 | with a numeric fill the column becomes all numbers, and coercing it again changes nothing |
| Cleaning.ToDatetime | cleaning.py:27-28 | every cell of the column becomes a date or null: dates stay, strings that parse become their date, strings that do not parse become null; other columns are unchanged |
| Cleaning.ToDatetimeIdempotent | cleaning.py:27-28 | parsing a date column a second time changes nothing |
| Cleaning.CorrectTypesSpec | cleaning.py:26-30 | on a non-empty table whose numeric columns are filled, lines 26-30 always succeed; age, amount and term stay filled, both date columns hold dates or nulls, and every other column is unchanged |
| Cleaning.StripNonDigits | cleaning.py:33 | text phones are reduced to their digits; a non-text phone becomes null; nothing else changes |
| Cleaning.RegroupPhones | cleaning.py:34 | regrouping fails with `NotText(Phone)` exactly when some phone is not text; otherwise each phone is split at 3 and 6 with Python slice semantics and nothing else changes |
| Cleaning.LowerEmails | cleaning.py:35 | line 35 fails with `NotText(Email)` exactly when the `.str` accessor refuses the column: no email is text and the values are all numbers or all dates; otherwise text emails are lower-cased, a non-text email becomes null, and nothing else changes |
| Cleaning.NumberEmailsRefused | cleaning.py:35 | a non-empty email column of numbers only makes line 35 fail |
| Cleaning.TextEmailAccepted | cleaning.py:35 | an email column holding some text is never refused |
| Cleaning.StandardizeFormatsSpec | cleaning.py:33-35 | lines 33-35 succeed exactly when every phone is text and the `.str` accessor accepts the email column; a failure names the phone exactly when some phone is not text, and the email otherwise; on success each row's phone is its normalised form, its email is lower-cased, and nothing else changes |
| Text.Digits | cleaning.py:33 | the result consists of digits only and is no longer than the input; a digit-only input is returned unchanged |
| Text.DigitsAppend | cleaning.py:33 | stripping a concatenation gives the concatenation of the stripped parts |
| Text.NormalizePhone | cleaning.py:33-34 | the result has the shape of a regrouped phone, is two characters longer than the input's digits, and stripping it gives back exactly those digits |
| Text.FormatPhoneShape | cleaning.py:34 | regrouping a digit string gives a regrouped phone shape, adds exactly two characters, and stripping the result gives the digits back |
| Text.ShapeIsFormatted | cleaning.py:34 | every string of regrouped shape is the regrouping of its own digits |
| Text.ShapeHasTwoDashes | cleaning.py:34 | a regrouped phone contains exactly two `-` characters |
| Text.NormalizePhoneFixpoints | cleaning.py:33-34 | phone normalisation leaves a string unchanged exactly when the string already has regrouped shape |
| Text.NormalizePhoneIdempotent | cleaning.py:33-34 | normalising a phone twice is the same as normalising it once |
| Scenarios.DottedPhone | cleaning.py:33-34 | "555.123.4567x" becomes "555-123-4567" |
| Scenarios.PlaceholderPhoneStays | cleaning.py:33-34 | the line-18 placeholder "000-000-0000" is a fixed point of phone normalisation |
| Text.Lower | cleaning.py:35 | lower-casing keeps the length, turns each upper-case letter into the same letter in lower case, keeps every other character, and leaves no upper-case letter |
| Text.LowerFixpoints | cleaning.py:35 | lower-casing leaves a string unchanged exactly when it has no upper-case letter |
| Text.LowerIdempotent | cleaning.py:35 | lower-casing twice is the same as lower-casing once |
| Seqs.Dedup | cleaning.py:38 | the result has no two equal elements; every element of the result is in the input and every input element is in the result |
| Seqs.DedupPicks | cleaning.py:38 | the result is the order-preserving subsequence of exactly the positions whose value does not occur earlier, so each kept row is the first occurrence of its value |
| Cleaning.DropDuplicates | cleaning.py:38 | the one-pass loop with a set of rows already seen computes exactly the first-occurrence deduplication |
| Scenarios.TwinRowsMerge | cleaning.py:38 | two identical rows leave one |
| Cleaning.DropInvalid | cleaning.py:41-48 | validation fails exactly when an age or amount cell is a string or a date, and names age exactly when an age cell is; on success, kept rows have a non-negative numeric age and amount and come from the input, and every such input row is kept |
| Seqs.FilterTwice | cleaning.py:47-48 | filtering by age and then by amount equals one filter by both conditions |
| Cleaning.DropInvalidSelects | cleaning.py:47-48 | the kept rows are the order-preserving subsequence of exactly the rows with non-negative numeric age and amount |
| Cleaning.DropInvalidKeepsDistinct | cleaning.py:38-48 | a table without repeated rows has none after validation |
| Scenarios.NegativeAgeDropped | cleaning.py:47-48 | a row with age -5 is removed and the valid row kept |
| Cleaning.ReshapeFails | cleaning.py:26-38 | on a non-empty table whose age, amount and term are filled, lines 26-30 always find their three modes, so lines 26-38 can stop only with `NotText`: on the phone exactly when some phone is not text, otherwise on an email column the `.str` accessor refuses |
| Cleaning.PrepareSpec | cleaning.py:15-38 | every row reaching validation has both names, filled numeric and text columns, a regrouped phone, an email that is null or has no upper-case letter, and dates or nulls in its date columns; no row repeats |
| Cleaning.CleanGuarantees | cleaning.py:15-48 | whenever the script completes, every written row has both names, a non-negative age and amount, a regrouped phone, a lower-case or null email and filled placeholders, and no row is written twice |
| Cleaning.CleanModeFailure | cleaning.py:15-30 | the script stops on an empty mode exactly when, after the identity drop, age, amount or term holds no value; the failure names age exactly when age holds none |

## Left out

- Loading and saving the CSV file (lines 5 and 51): file I/O. The model
  starts from the loaded table and ends with the table that would be written.
- Printing (lines 8-13, 44-45, 52): these lines only produce output.
  - The frames of lines 41-42 are built only for printing. Only their
    comparisons are modelled, because those comparisons can raise.
- Numeric and date parsing: `pd.to_numeric` and `pd.to_datetime` are library
  parsers. They are the parameters `NumberParser` and `DateParser` (one per
  date column), and no particular format is fixed.
- Floating point: numbers are integers, and amounts are whole units. NaN, NA
  and NaT are all `Null`.
- Mode tie-break: pandas' order among equally frequent values is not
  modelled. The results hold for any most frequent value.
- Column dtypes:
  - If the `.str` accessor of line 33 refuses the phone column, pandas raises
    `AttributeError` there, not `TypeError` in the lambda of line 34. Both are
    `NotText(Phone)` here.
  - The `.str` accessor's dtype inference is modelled on the four cell kinds
    only; floats and booleans, which would change the inferred dtype, do not
    occur.
  - `pd.to_datetime` on a numeric cell, which pandas reads as an epoch
    offset, gives `Null` here.
- Missing or extra columns: the record always has exactly the twelve columns
  of the data file, so the `KeyError` of a missing column is not modelled.
- Row index: pandas carries the original row index along, and the script
  drops it on saving (`index=False`). The model has no index.
- Whole-pipeline idempotence: the script does not promise it, so it is not
  stated.
- Text.Lower: lower-cases ASCII letters only. Python's `str.lower` also maps
  non-ASCII letters.
- Cleaning.CorrectTypesSpec: takes a non-empty table whose numeric columns are
  filled, which is what lines 16-23 deliver. `Cleaning.PrepareSpec` links the
  two, and `Cleaning.CleanModeFailure` covers the empty case.
