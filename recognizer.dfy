/**
 * The structure recognizer of `reconocer_factura`
 * (facturas-orc/procesador_facturas.py:70-191) after the OCR call: the
 * three-state machine of lines 102-182 over the grouped lines, and the
 * whole pipeline from the OCR words to the records, the document total and
 * the computed total.
 */
module Recognizer {
  import opened Options
  import opened Text
  import opened Amounts
  import opened Words
  import opened Grouping
  import opened Columns
  import opened Items

  /** `estado`: `buscando_columnas`, `extrayendo_detalles`, `buscando_total`. */
  datatype Phase = SeekingColumns | ExtractingDetails | SeekingTotal

  /** The mutable locals of the main loop: `estado`, `columnas`, `total_factura`, `detalles`. */
  datatype Scan = Scan(phase: Phase, cols: Anchors, total: Option<real>, details: seq<LineItem>)

  /** Lines 102-105. */
  const Initial: Scan := Scan(SeekingColumns, map[], None, [])

  /** `normalizar_monto` of each word of the line (line 142). */
  function WordAmounts(line: seq<Word>): (r: seq<Option<real>>)
    ensures |r| == |line| && forall i :: 0 <= i < |line| ==> r[i] == Normalize(line[i].text)
  {
    seq(|line|, i requires 0 <= i < |line| => Normalize(line[i].text))
  }

  /** The last value present in `vals`, if any. */
  function LastSome(vals: seq<Option<real>>): Option<real> {
    if vals == [] then None
    else if vals[|vals| - 1].Some? then vals[|vals| - 1]
    else LastSome(vals[..|vals| - 1])
  }

  /** Lines 142-144: the value of the last word of the line that normalises. */
  function LastAmount(line: seq<Word>): Option<real> {
    LastSome(WordAmounts(line))
  }

  /** The test of line 140 together with the non-empty amount list of line 143. */
  predicate TotalLine(line: seq<Word>) {
    Contains(LineText(line), "total") && LastAmount(line).Some?
  }

  /** Line 151: the lowered line contains some alias of some column. */
  predicate AnyAlias(text: string) {
    exists k, j :: 0 <= k < |ColumnOrder| && 0 <= j < |Aliases(ColumnOrder[k])| && Contains(text, Aliases(ColumnOrder[k])[j])
  }

  /** One iteration of the loop of lines 115-182. */
  function Step(st: Scan, line: seq<Word>): Scan {
    var text := LineText(line);
    if st.phase == SeekingColumns then
      var cols := ScanColumns(line, text, st.cols, ColumnOrder);
      if Matched(line, text, ColumnOrder) then st.(phase := ExtractingDetails, cols := cols)
      else st.(cols := cols)
    else if Contains(text, "total") && LastAmount(line).Some? then
      st.(phase := SeekingTotal, total := LastAmount(line))
    else if st.phase == ExtractingDetails && st.cols != map[] && !AnyAlias(text) then
      match Consolidate(Buckets(line, st.cols))
      case Record(item) => st.(details := st.details + [item])
      case Dropped(_) => st
    else
      st
  }

  /** The loop of lines 115-182 run over `lines` from the state `st`. */
  function RunFrom(st: Scan, lines: seq<seq<Word>>): Scan {
    if lines == [] then st else Step(RunFrom(st, lines[..|lines| - 1]), lines[|lines| - 1])
  }

  function Run(lines: seq<seq<Word>>): Scan {
    RunFrom(Initial, lines)
  }

  /** The lines the grouping builds from the OCR words (lines 70-99). */
  function TextLines(raw: seq<OcrWord>): seq<seq<Word>> {
    Lines(SortBy(ByPosition, Filtered(raw)))
  }

  /** The state the recognizer ends in for the OCR words `raw`. */
  function Recognition(raw: seq<OcrWord>): Scan {
    Run(TextLines(raw))
  }

  /**
   * `reconocer_factura` after the OCR call: the records, the document
   * total and the computed total. The computed total is non-negative
   * because the numerals the model's amounts accept carry no sign.
   */
  method Recognize(raw: seq<OcrWord>) returns (details: seq<LineItem>, total: Option<real>, computed: real)
    ensures details == Recognition(raw).details && total == Recognition(raw).total
    ensures computed == Total(details) && computed >= 0.0
  {
    var words := FilterWords(raw);
    var sorted := SortBy(ByPosition, words);
    var lines := GroupLines(sorted);
    var phase := SeekingColumns;
    var cols: Anchors := map[];
    total := None;
    details := [];
    for i := 0 to |lines|
      invariant Scan(phase, cols, total, details) == Run(lines[..i])
    {
      assert lines[..i + 1][..i] == lines[..i];
      assert Run(lines[..i + 1]) == Step(Run(lines[..i]), lines[i]);
      var line := lines[i];
      var text := LineText(line);
      if phase == SeekingColumns {
        var found;
        cols, found := DetectColumns(line, text, cols);
        if found {
          phase := ExtractingDetails;
          continue;
        }
      }
      if Contains(text, "total") && phase != SeekingColumns {
        var amount := LastAmount(line);
        if amount.Some? {
          total := amount;
          phase := SeekingTotal;
          continue;
        }
      }
      if phase == ExtractingDetails && cols != map[] {
        if AnyAlias(text) {
          continue;
        }
        var buckets := AssignWords(line, cols);
        var outcome := Consolidate(buckets);
        if outcome.Record? {
          details := details + [outcome.item];
        }
      }
    }
    assert lines[..|lines|] == lines;
    RunAmountsNonNegative(lines);
    TotalNonNegative(details);
    computed := Total(details);
  }

  // ---------------------------------------------------------------------
  // Properties of the state machine.

  /** Every record has a non-negative amount, as the model's amount grammar has no sign. */
  lemma {:induction false} RunAmountsNonNegative(lines: seq<seq<Word>>)
    ensures forall i :: 0 <= i < |Run(lines).details| ==> Run(lines).details[i].amount >= 0.0
  {
    if lines != [] {
      RunAmountsNonNegative(lines[..|lines| - 1]);
      StepAmountsNonNegative(Run(lines[..|lines| - 1]), lines[|lines| - 1]);
    }
  }

  lemma StepAmountsNonNegative(st: Scan, line: seq<Word>)
    requires forall i :: 0 <= i < |st.details| ==> st.details[i].amount >= 0.0
    ensures forall i :: 0 <= i < |Step(st, line).details| ==> Step(st, line).details[i].amount >= 0.0
  {
    if st.phase == ExtractingDetails && st.cols != map[] {
      var o := Consolidate(Buckets(line, st.cols));
      if o.Record? {
        assert o.item.amount >= 0.0;
      }
    }
  }

  /** A header scan without any match leaves the anchors alone. */
  lemma {:induction false} NoMatchNoChange(line: seq<Word>, text: string, cols: Anchors, cs: seq<Column>)
    requires !Matched(line, text, cs)
    ensures ScanColumns(line, text, cols, cs) == cols
  {
    if cs != [] {
      NoMatchNoChange(line, text, cols, cs[..|cs| - 1]);
    }
  }

  /**
   * Once the header is found the state never returns to
   * `buscando_columnas`, and the anchors never change again.
   */
  lemma {:induction false} AnchorsFixed(st: Scan, rest: seq<seq<Word>>)
    requires st.phase != SeekingColumns
    ensures RunFrom(st, rest).phase != SeekingColumns && RunFrom(st, rest).cols == st.cols
  {
    if rest != [] {
      AnchorsFixed(st, rest[..|rest| - 1]);
    }
  }

  /**
   * While no header has been found, nothing at all has happened: no
   * anchors, no total and no records (lines before the header are
   * discarded).
   */
  lemma {:induction false} BeforeHeader(lines: seq<seq<Word>>)
    requires Run(lines).phase == SeekingColumns
    ensures Run(lines) == Initial
  {
    if lines != [] {
      var n := |lines|;
      var front := lines[..n - 1];
      if Run(front).phase == SeekingColumns {
        BeforeHeader(front);
        NoMatchNoChange(lines[n - 1], LineText(lines[n - 1]), map[], ColumnOrder);
      }
    }
  }

  /**
   * Without a line in which some alias is found nothing at all happens, so
   * the batch driver has no records to check and reports no verdict.
   */
  lemma {:induction false} NoHeaderNoVerdict(lines: seq<seq<Word>>)
    requires forall i :: 0 <= i < |lines| ==> !Matched(lines[i], LineText(lines[i]), ColumnOrder)
    ensures Run(lines) == Initial
    ensures Assess(Run(lines).details, Run(lines).total, Total(Run(lines).details)) == NotEnoughData
  {
    if lines != [] {
      var n := |lines|;
      var front := lines[..n - 1];
      assert forall i :: 0 <= i < |front| ==> front[i] == lines[i];
      NoHeaderNoVerdict(front);
      NoMatchNoChange(lines[n - 1], LineText(lines[n - 1]), map[], ColumnOrder);
    }
  }

  /**
   * Line `h` is the header: before it nothing has happened, it has an
   * alias match, and it is consumed without a record, leaving its anchors.
   */
  predicate HeaderAt(lines: seq<seq<Word>>, h: nat)
    requires h < |lines|
  {
    Run(lines[..h]) == Initial && Matched(lines[h], LineText(lines[h]), ColumnOrder) &&
    Run(lines[..h + 1]) == Scan(ExtractingDetails, HeaderCols(lines[h]), None, [])
  }

  lemma HeaderAtExtend(lines: seq<seq<Word>>, h: nat)
    requires lines != [] && h < |lines| - 1 && HeaderAt(lines[..|lines| - 1], h)
    ensures HeaderAt(lines, h)
  {
    var front := lines[..|lines| - 1];
    assert front[..h] == lines[..h] && front[..h + 1] == lines[..h + 1] && front[h] == lines[h];
  }

  /**
   * Once the header has been found, all anchors come from one line, the
   * first line with any alias match, and never change afterwards.
   */
  lemma {:induction false} HeaderAnchors(lines: seq<seq<Word>>)
    requires Run(lines).phase != SeekingColumns
    ensures exists h :: 0 <= h < |lines| && HeaderAt(lines, h) && Run(lines).cols == HeaderCols(lines[h])
  {
    var n := |lines|;
    var front := lines[..n - 1];
    if Run(front).phase != SeekingColumns {
      HeaderAnchors(front);
      var h :| 0 <= h < |front| && HeaderAt(front, h) && Run(front).cols == HeaderCols(front[h]);
      HeaderAtExtend(lines, h);
      assert Run(lines).cols == Run(front).cols;
      assert front[h] == lines[h];
    } else {
      BeforeHeader(front);
      assert lines[..n] == lines;
      assert HeaderAt(lines, n - 1);
    }
  }

  /** A line containing any alias never yields a record (lines 151-152). */
  lemma AliasLineNoRecord(st: Scan, line: seq<Word>)
    requires AnyAlias(LineText(line))
    ensures Step(st, line).details == st.details
  {
  }

  /**
   * After the header, a total line sets the total to the value of the last
   * word that normalises and moves to `buscando_total`; nothing else
   * changes.
   */
  lemma TotalLineSetsTotal(st: Scan, line: seq<Word>)
    requires st.phase != SeekingColumns && TotalLine(line)
    ensures Step(st, line) == Scan(SeekingTotal, st.cols, LastAmount(line), st.details)
    ensures exists j ::
              0 <= j < |line| && Normalize(line[j].text) == LastAmount(line) &&
              forall i :: j < i < |line| ==> Normalize(line[i].text).None?
  {
    LastAmountLast(line);
  }

  lemma {:induction false} LastSomeLast(vals: seq<Option<real>>)
    ensures LastSome(vals).None? <==> forall i :: 0 <= i < |vals| ==> vals[i].None?
    ensures LastSome(vals).Some? ==>
      exists j :: 0 <= j < |vals| && vals[j] == LastSome(vals) && forall i :: j < i < |vals| ==> vals[i].None?
  {
    if vals != [] {
      var n := |vals|;
      var front := vals[..n - 1];
      LastSomeLast(front);
      if vals[n - 1].Some? {
        assert LastSome(vals) == vals[n - 1];
      } else if LastSome(front).Some? {
        var j :| 0 <= j < |front| && front[j] == LastSome(front) && forall i :: j < i < |front| ==> front[i].None?;
        assert vals[j] == front[j];
        forall i | j < i < n ensures vals[i].None? {
          if i < n - 1 {
            assert vals[i] == front[i];
          }
        }
      } else {
        forall i | 0 <= i < n ensures vals[i].None? {
          if i < n - 1 {
            assert vals[i] == front[i];
          }
        }
      }
    }
  }

  /**
   * The amount of a line is that of its last word that normalises, and it
   * is missing exactly when no word normalises.
   */
  lemma LastAmountLast(line: seq<Word>)
    ensures LastAmount(line).None? <==> forall i :: 0 <= i < |line| ==> Normalize(line[i].text).None?
    ensures LastAmount(line).Some? ==>
      exists j :: 0 <= j < |line| && Normalize(line[j].text) == LastAmount(line) &&
        forall i :: j < i < |line| ==> Normalize(line[i].text).None?
  {
    LastSomeLast(WordAmounts(line));
  }

  /** The amount of the last total line among `lines`, if any. */
  function LastTotal(lines: seq<seq<Word>>): Option<real> {
    if lines == [] then None
    else if TotalLine(lines[|lines| - 1]) then LastAmount(lines[|lines| - 1])
    else LastTotal(lines[..|lines| - 1])
  }

  /**
   * After the header, the last total line wins: every later one
   * overwrites the total, and without one the total stays as it was.
   */
  lemma {:induction false} LastTotalWins(st: Scan, rest: seq<seq<Word>>)
    requires st.phase != SeekingColumns
    ensures RunFrom(st, rest).total == if LastTotal(rest).Some? then LastTotal(rest) else st.total
  {
    if rest != [] {
      var n := |rest|;
      LastTotalWins(st, rest[..n - 1]);
      AnchorsFixed(st, rest[..n - 1]);
    }
  }

  /** From the first total line on, no record is added (line 149 needs `extrayendo_detalles`). */
  lemma {:induction false} NoRecordsAfterTotal(st: Scan, rest: seq<seq<Word>>)
    requires st.phase == SeekingTotal
    ensures RunFrom(st, rest).phase == SeekingTotal && RunFrom(st, rest).details == st.details
  {
    if rest != [] {
      NoRecordsAfterTotal(st, rest[..|rest| - 1]);
    }
  }

  /**
   * Any other line after the header and before the first total line is a
   * detail candidate: it yields the record its consolidation gives, or
   * nothing.
   */
  lemma DetailLine(st: Scan, line: seq<Word>)
    requires st.phase == ExtractingDetails && st.cols != map[]
    requires !TotalLine(line) && !AnyAlias(LineText(line))
    ensures Step(st, line).phase == ExtractingDetails && Step(st, line).cols == st.cols && Step(st, line).total == st.total
    ensures Step(st, line).details == st.details + match Consolidate(Buckets(line, st.cols))
      case Record(item) => [item]
      case Dropped(_) => []
  {
  }

  /**
   * One line adds at most one record, at the end: earlier records are kept
   * in document line order.
   */
  lemma StepAppendsAtMostOne(st: Scan, line: seq<Word>)
    ensures var d := Step(st, line).details;
      st.details <= d && |d| <= |st.details| + 1
  {
  }

  /** The records of a prefix of the lines are a prefix of the records, and there are at most as many records as lines. */
  lemma {:induction false} RecordsInLineOrder(lines: seq<seq<Word>>, i: nat)
    requires i <= |lines|
    ensures Run(lines[..i]).details <= Run(lines).details
    ensures |Run(lines).details| <= |lines|
  {
    if lines != [] {
      var n := |lines|;
      var front := lines[..n - 1];
      assert Run(lines) == Step(Run(front), lines[n - 1]);
      StepAppendsAtMostOne(Run(front), lines[n - 1]);
      if i < n {
        assert lines[..i] == front[..i];
        RecordsInLineOrder(front, i);
      } else {
        assert lines[..i] == lines;
        RecordsInLineOrder(front, 0);
      }
    }
  }

  /** An OCR word with confidence 60 or less has no effect on the result. */
  lemma LowConfidenceIgnored(before: seq<OcrWord>, r: OcrWord, after: seq<OcrWord>)
    requires r.conf <= MinConfidence
    ensures Recognition(before + [r] + after) == Recognition(before + after)
  {
    LowConfidenceDropped(before, r, after);
  }
}
