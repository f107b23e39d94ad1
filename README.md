# Invoice structure recognizer, modelled in Dafny

This project models the part of the invoice processor
`facturas-orc/procesador_facturas.py` that runs after OCR. It takes the
word records the OCR engine returns (text, `left`, `top`, confidence) and
produces three results:

- the line-item records of the invoice;
- the total printed on the document;
- the total computed from the records.

It also models the coherence verdict that the batch driver draws from those
three results.

The pipeline runs in this order:

1. **Confidence filter** (`Words`, lines 70-81). It keeps each word whose
   stripped text is non-empty and whose confidence is above 60.
2. **Sort and line grouping** (`Words`, `Grouping`, lines 84-99). The words
   are sorted stably by `(top, left)`. A single pass then cuts them into
   lines wherever two consecutive words are 20 or more pixels apart
   vertically. Each line is then sorted stably by `left`.
3. **Header detection** (`Columns`, lines 108-137). The four columns are
   Cant, Descripción, P.Unit and Importe, and each has a list of aliases.
   The first line in which any alias is found inside a word fixes the
   column anchors: the `left` of the word that contained it.
4. **Three-state row classifier** (`Recognizer`, lines 102-182). The states
   are `buscando_columnas`, `extrayendo_detalles` and `buscando_total`.
   After the header, a line containing `total` with a word that parses as an
   amount sets the document total and ends detail extraction. A line
   containing any alias is skipped. Any other line is a detail candidate.
5. **Nearest-anchor assignment** (`Columns`, lines 154-160). Each word of a
   detail line goes to the column whose anchor is closest. Ties go to the
   first of Cant, Descripción, P.Unit, Importe.
6. **Consolidation** (`Items`, lines 163-182). It yields one record, or it
   drops the line. Only the `ValueError`, `InvalidOperation` and `IndexError`
   that line 181 catches drop the line silently; any other exception raised
   inside the `try` propagates.
7. **Amounts** (`Amounts`, lines 43-56 and 176). `normalizar_monto` and the
   quantity conversion.
8. **Sum and verdict** (`Items`, lines 189 and 228-237).

The imperative loops of the source are methods with loop invariants, each
proved equal to a specification function:

- `FilterWords` (filter loop);
- `GroupLines` (grouping loop);
- `FindAnchor`, `ScanAliases` and `DetectColumns` (nested header loops);
- `AssignWords` (assignment loop);
- `Recognize` (main loop over the lines).

The properties are lemmas about those functions. The mutable locals of the
main loop (`estado`, `columnas`, `total_factura`, `detalles`) are the fields
of the `Scan` datatype. `Step` is one iteration of the loop, and `Run`
folds `Step` over the lines.

Modelling choices:

- **Decimals.** An exact decimal is represented by its value, a `real`.
  Python compares `Decimal`s by value, so this is enough.
- **Column order.** The detected columns are a `map` from `Column` to the
  anchor. Their iteration order is `ColumnOrder`. This matches the
  dictionary's insertion order: anchors are written only while scanning the
  header line, in the order of the alias table, and a later write to an
  existing key keeps its position.
- **Library calls.** Python's `sort`, `sorted`, `min`, `any` and `sum` are
  functions: a stable insertion sort, a first-minimum scan, a quantifier and
  a fold.

Where the code differs from its own comments or from the obvious reading,
the model follows the code:

- `normalizar_monto("78.90")` is 7890, not the 78.90 the docstring at line 46
  gives. Every `.` is deleted before parsing (`NormalizePointQuirk`,
  `NormalizeExamplePoint`).
- Inside the header line, the anchor of a column is overwritten by each later
  alias that matches, so the last matching alias wins, not the first
  (`LastAliasWins`, `HeaderAnchor`).
- A Cant column that was detected but whose first word does not parse drops
  the whole line. The quantity defaults to 1 only when no Cant column was
  detected, or when its first word is empty.
- A detected Cant, P.Unit or Importe column that gets no word drops the line,
  because indexing its empty list raises `IndexError`.
- P.Unit can be `None`: this happens when the first P.Unit word does not
  normalise.
- No detail is extracted after the first total line, because the state becomes
  `buscando_total` and line 149 requires `extrayendo_detalles`. A later total
  line still overwrites the total.
- `total` is itself an alias of Importe. So a line containing `total` but no
  amount is never a detail either.

## Model

| member | source | states |
|---|---|---|
| `Text.Strip` | facturas-orc/procesador_facturas.py:73 | `str.strip()`: the result is the slice of the text left after cutting only whitespace from both ends; it has no whitespace at either end, and it is empty exactly when the text is all whitespace |
| `Text.LowerAppend` | facturas-orc/procesador_facturas.py:116-126 | lowering distributes over concatenation, so lowering the joined line of line 116 gives the words lowered one by one, as line 126 lowers them |
| `Text.LowerIdempotent` | facturas-orc/procesador_facturas.py:116 | lowering an already lowered text changes nothing |
| `Text.LowerExample` | facturas-orc/procesador_facturas.py:110-116 | the header word `DESCRIPCIÓN` lowers to the alias `descripción`, accent included |
| `Text.JoinSplit` | facturas-orc/procesador_facturas.py:50-51 | joining the pieces of `split('.')` with nothing in between deletes every `.` |
| `Text.SplitCount` | facturas-orc/procesador_facturas.py:50-51 | `split` gives one piece exactly when the separator is absent, and two exactly when it occurs once |
| `Amounts.ParseDecimal` | facturas-orc/procesador_facturas.py:53-56 | `Decimal(u)` succeeds exactly on the unsigned plain numerals of the model's grammar, with their exact value, and gives `None` otherwise, never an exception; the value is non-negative only because that grammar has no sign |
| `Amounts.RewriteIsCanonical` | facturas-orc/procesador_facturas.py:49-52 | the rewrite deletes every `.` and every `,` but the last, and the last `,` becomes the decimal point |
| `Amounts.NormalizeDefined` | facturas-orc/procesador_facturas.py:43-56 | `normalizar_monto` returns a value exactly when that canonical form is an unsigned numeral, so in the model the value is non-negative (the source's `Decimal` also takes a sign) |
| `Amounts.NormalizeIgnoresDots` | facturas-orc/procesador_facturas.py:49 | every `.` is treated as a thousands separator: deleting the points first changes nothing |
| `Amounts.NormalizeDotGroups` | facturas-orc/procesador_facturas.py:43-56 | digit groups joined by `.` followed by `,` and decimals give the integer formed by the groups, plus those decimals |
| `Amounts.NormalizeCommaGroups` | facturas-orc/procesador_facturas.py:49-52 | with several commas, all but the last are dropped and the last is the decimal point |
| `Amounts.NormalizePointQuirk` | facturas-orc/procesador_facturas.py:45-49 | a lone `.` is deleted, so `whole.frac` is read as the integer `wholefrac` |
| `Amounts.NormalizeExampleThousands` | facturas-orc/procesador_facturas.py:46 | `"1.234,56"` gives 1234.56 |
| `Amounts.NormalizeExampleCommas` | facturas-orc/procesador_facturas.py:49-52 | `"1,234,56"` gives 1234.56 |
| `Amounts.NormalizeExampleComma` | facturas-orc/procesador_facturas.py:49-56 | `"78,90"` gives 78.90 |
| `Amounts.NormalizeExampleMillions` | facturas-orc/procesador_facturas.py:49-52 | `"1.234.567,89"` gives 1234567.89 |
| `Amounts.NormalizeExamplePoint` | facturas-orc/procesador_facturas.py:45-49 | `"78.90"` gives 7890, against the docstring |
| `Amounts.NormalizeExampleWord` | facturas-orc/procesador_facturas.py:53-56 | `"Total"` gives `None` |
| `Amounts.NormalizeExampleEmpty` | facturas-orc/procesador_facturas.py:53-56 | `""` gives `None` |
| `Amounts.NormalizeExampleLoneComma` | facturas-orc/procesador_facturas.py:49-56 | `","` gives `None` |
| `Amounts.Quantity` | facturas-orc/procesador_facturas.py:176 | `int(float(s.replace(',', '.')))` succeeds exactly on numerals once `,` becomes `.`; the result is the value truncated toward zero |
| `Words.FilterWords` | facturas-orc/procesador_facturas.py:70-81 | the filter loop computes exactly the kept words, in OCR order |
| `Words.FilteredExactly` | facturas-orc/procesador_facturas.py:72-81 | the kept words are exactly the stripped texts, with their position, of the OCR words whose stripped text is non-empty and whose confidence is above 60 |
| `Words.LowConfidenceDropped` | facturas-orc/procesador_facturas.py:74 | a word with confidence 60 or less leaves the kept words unchanged |
| `Words.SortBy` | facturas-orc/procesador_facturas.py:84 | the sort is a permutation of its input |
| `Words.SortBySorted` | facturas-orc/procesador_facturas.py:84 | the sort orders its result by `(top, left)`, or by `left` for line 97 |
| `Words.SortByStable` | facturas-orc/procesador_facturas.py:97 | the sort is stable: words with equal keys keep their relative order |
| `Grouping.GroupLines` | facturas-orc/procesador_facturas.py:86-99 | the grouping loop computes exactly the runs of the sorted words, each sorted by `left` |
| `Grouping.RunsPartition` | facturas-orc/procesador_facturas.py:86-99 | the runs concatenate back to the sorted words and are non-empty; inside a run consecutive words are under 20 px apart vertically, and at each cut 20 px or more |
| `Grouping.LinesPartition` | facturas-orc/procesador_facturas.py:86-99 | the lines hold every word exactly once; each line is non-empty and sorted by `left`; there are no lines exactly when there are no words |
| `Columns.Rank` | facturas-orc/procesador_facturas.py:108-113 | the columns' order is Cant, Descripción, P.Unit, Importe |
| `Columns.FindAnchor` | facturas-orc/procesador_facturas.py:125-129 | the word loop with `break` finds the `left` of the first word containing the alias |
| `Columns.ScanAliases` | facturas-orc/procesador_facturas.py:122-129 | one column's alias loop: the anchor comes from the last alias that matches, and `found` is set exactly when one did |
| `Columns.DetectColumns` | facturas-orc/procesador_facturas.py:119-130 | the whole header scan of one line: the new anchors and `found_cols` |
| `Columns.FirstWithFirst` | facturas-orc/procesador_facturas.py:125-129 | an alias's anchor is the `left` of the first word containing it; there is none exactly when no word contains it |
| `Columns.HitIsFirstWord` | facturas-orc/procesador_facturas.py:116-126 | the whole-line test of line 123 never hides a word match: an alias yields exactly the first word's anchor |
| `Columns.LastAliasWins` | facturas-orc/procesador_facturas.py:122-128 | the anchor comes from the last alias that yields one; there is none exactly when no alias does |
| `Columns.DetectedAnchors` | facturas-orc/procesador_facturas.py:121-128 | after the scan a column has an anchor exactly when it had one or an alias yielded one, and the yielded one replaces the old |
| `Columns.HeaderAnchor` | facturas-orc/procesador_facturas.py:119-129 | a column is detected exactly when some word contains one of its aliases; the anchor is the first such word for the last such alias |
| `Columns.MatchedExists` | facturas-orc/procesador_facturas.py:120-130 | `found_cols` is true exactly when some column's alias yields an anchor |
| `Columns.Nearest` | facturas-orc/procesador_facturas.py:158-159 | each word is assigned a detected column |
| `Columns.ClosestLeast` | facturas-orc/procesador_facturas.py:158-159 | Python's `min` over the anchors in dictionary order: no detected column is closer than the one it picks |
| `Columns.ClosestFirst` | facturas-orc/procesador_facturas.py:158-159 | the picked column is the first of the closest ones in dictionary order |
| `Columns.NearestIsFirstMinimum` | facturas-orc/procesador_facturas.py:158-159 | the assigned column is at minimal distance, and every column earlier in Cant, Descripción, P.Unit, Importe is strictly farther |
| `Columns.NearestUnique` | facturas-orc/procesador_facturas.py:158-159 | those two facts single out the assigned column |
| `Columns.AssignWords` | facturas-orc/procesador_facturas.py:155-160 | the assignment loop builds, for each detected column, the texts of exactly the words nearest to it, in line order |
| `Columns.BucketAppend` | facturas-orc/procesador_facturas.py:156-160 | each column's list keeps the left-to-right order of the line |
| `Columns.BucketEmpty` | facturas-orc/procesador_facturas.py:155-160 | a column's list is empty exactly when no word is nearest to it |
| `Columns.BucketFirst` | facturas-orc/procesador_facturas.py:160-169 | the first entry of a column's list is the text of the leftmost word nearest to it |
| `Columns.BucketsPartition` | facturas-orc/procesador_facturas.py:155-160 | every word of a detail line lands in exactly one column's list |
| `Columns.BucketsHoldTexts` | facturas-orc/procesador_facturas.py:155-160 | the lists of a detail line together hold exactly the texts of its words, each as many times as it occurs |
| `Items.Consolidate` | facturas-orc/procesador_facturas.py:163-182 | a record exists exactly when: every detected Cant/P.Unit/Importe column has a word; the description is non-empty; the first Importe word normalises; and the first Cant word, if any, is a number. It gives the amount, description, defaults and the `IndexError` drop |
| `Items.TotalAppend` | facturas-orc/procesador_facturas.py:189 | the computed total is additive over concatenation |
| `Items.TotalPermutation` | facturas-orc/procesador_facturas.py:189 | the computed total does not depend on the order of the records |
| `Items.TotalNonNegative` | facturas-orc/procesador_facturas.py:189 | records with non-negative amounts, which are the only ones the model's sign-free amounts produce, sum to a non-negative total |
| `Items.AssessPermutation` | facturas-orc/procesador_facturas.py:228-237 | reordering the records never changes the verdict |
| `Recognizer.Recognize` | facturas-orc/procesador_facturas.py:70-191 | the whole recognizer returns the records and total of `Recognition` and their sum, which is non-negative because the model's amounts carry no sign |
| `Recognizer.RunAmountsNonNegative` | facturas-orc/procesador_facturas.py:173-179 | every record has a non-negative amount, because the model's amount grammar has no sign |
| `Recognizer.AnchorsFixed` | facturas-orc/procesador_facturas.py:119-137 | once the header is found the state never returns to `buscando_columnas` and the anchors never change |
| `Recognizer.NoHeaderNoVerdict` | facturas-orc/procesador_facturas.py:119-137 | when no line contains an alias inside a word, no header is found, nothing happens, and the verdict of lines 228-237 is that there is not enough data |
| `Recognizer.BeforeHeader` | facturas-orc/procesador_facturas.py:115-137 | while no header has been found nothing has happened: no anchors, no total, no records |
| `Recognizer.HeaderAnchors` | facturas-orc/procesador_facturas.py:119-137 | all anchors come from one header line; before it nothing happened, and it is consumed without a record |
| `Recognizer.AliasLineNoRecord` | facturas-orc/procesador_facturas.py:151-152 | a line containing any alias never yields a record |
| `Recognizer.TotalLineSetsTotal` | facturas-orc/procesador_facturas.py:140-146 | after the header, a total line sets the total to its last normalising word, moves to `buscando_total`, and changes nothing else |
| `Recognizer.LastAmountLast` | facturas-orc/procesador_facturas.py:142-144 | a line's amount is that of its last normalising word, missing exactly when none normalises |
| `Recognizer.LastTotalWins` | facturas-orc/procesador_facturas.py:140-146 | after the header the last total line wins; without one the total is unchanged |
| `Recognizer.NoRecordsAfterTotal` | facturas-orc/procesador_facturas.py:145-149 | from the first total line on, no record is added |
| `Recognizer.DetailLine` | facturas-orc/procesador_facturas.py:149-182 | any other line after the header yields its consolidation's record or nothing, and leaves state, anchors and total alone |
| `Recognizer.StepAppendsAtMostOne` | facturas-orc/procesador_facturas.py:175-180 | one line appends at most one record, at the end |
| `Recognizer.RecordsInLineOrder` | facturas-orc/procesador_facturas.py:115-182 | the records of a prefix of the lines are a prefix of the records, and there are no more records than lines |
| `Recognizer.LowConfidenceIgnored` | facturas-orc/procesador_facturas.py:74 | an OCR word with confidence 60 or less has no effect on the result |

## Left out

- The OCR call `pytesseract.image_to_data` and its configuration, lines 12-15 and 64-68, are a foreign engine. Its output is the input of `Recognize`.
- `preprocesar_imagen`, lines 22-40, is OpenCV image input and thresholding.
- The rest of `procesar_lote_facturas` is left out: directory listing, report writing and pandas printing are I/O. Only its verdict, lines 228-237, is modelled (`Assess`).
- The `print` calls are left out. So are the no-op statements at lines 132-133 and the dead assignment at lines 185-186, because neither can be observed.
- `width` and `height` of the word records are never read, so they are left out.
- `Amounts.ParseDecimal`: does not model the rest of the `Decimal` grammar. Signs, exponents, `NaN`, `Infinity`, underscores, surrounding whitespace and non-ASCII decimal digits (Arabic-Indic, full-width and the like, which `Decimal` accepts) are all missing, and those inputs give `None` in the model. Within the model's grammar, results are exact, with no 28-digit context.
- The computed total of line 189 is an exact sum. The 28-digit context precision of `sum` over `Decimal`s is not modelled.
- `Amounts.Quantity`: models `int(float(...))` as truncating the exact value of a plain numeral. Binary floating point is not modelled, and the results differ on long numerals:
  - `"0.99999999999999999"` rounds to the float 1.0, so the source gives 1 where the model gives 0;
  - `"9007199254740993"` rounds to 9007199254740992 in the source, while the model keeps the exact value;
  - a numeral with 310 or more integer digits becomes `inf`, and `int(inf)` raises `OverflowError`, which line 181 does not catch. The source call raises, while the model yields a record.
  
  Signs, exponents, `inf`, `nan`, underscores and surrounding whitespace are not in the model's grammar either; those inputs drop the line in the model.
- `Text.Lower`: lowercases only `A`-`Z` and the Latin-1 capitals U+00C0 to U+00DE, except U+00D7, which is what Python does in that range. Other scripts are left unchanged.
- `Recognizer.RunAmountsNonNegative`: non-negativity holds only in the model. `Decimal` accepts a sign, so the source turns `"-5,00"` into -5.00 and can record a negative amount and compute a negative total; the model's sign-free grammar drops such lines instead. The same holds for the non-negative amounts in `Items.Consolidate`, `Items.TotalNonNegative` and `Recognizer.Recognize`.
- `Words.FilteredExactly`: the confidence is modelled as the integer that `int(data['conf'][i])` yields. The conversion itself is not modelled: truncating a fractional confidence, or raising on one that is not a number.
- `Text.Strip`: strips only the ASCII and Latin-1 characters that Python treats as whitespace.
- `Words.SortBy`: Python's in-place `list.sort` and its `sorted` are modelled as one stable insertion sort on values. The in-place update is not modelled, only the stability and ordering the library promises.
