/**
 * The four table columns of an invoice: the alias table of
 * facturas-orc/procesador_facturas.py:108-113, the header scan of lines
 * 119-128 and the nearest-anchor assignment of lines 154-160.
 */
module Columns {
  import opened Options
  import opened Text
  import opened Words
  import opened Grouping

  /** The keys of `MAPEO_COLUMNAS`, in the order the dictionary lists them. */
  datatype Column = Cant | Descripcion | PUnit | Importe

  const ColumnOrder: seq<Column> := [Cant, Descripcion, PUnit, Importe]

  /** The position of a column in `ColumnOrder`. */
  function Rank(c: Column): (k: nat)
    ensures k < |ColumnOrder| && ColumnOrder[k] == c
  {
    match c
    case Cant => 0
    case Descripcion => 1
    case PUnit => 2
    case Importe => 3
  }

  /** The aliases of each column, in the order the table lists them. */
  function Aliases(c: Column): seq<string> {
    match c
    case Cant => ["cant", "cantidad", "qty"]
    case Descripcion => ["descripci\U{F3}n", "descripcion", "producto", "servicio", "concepto"]
    case PUnit => ["p.unit", "unitario", "precio", "p/u"]
    case Importe => ["importe", "total", "subtotal", "valor"]
  }

  /** The column anchors: the `left` of each detected column's header word. */
  type Anchors = map<Column, int>

  function Texts(line: seq<Word>): (r: seq<string>)
    ensures |r| == |line| && forall i :: 0 <= i < |line| ==> r[i] == line[i].text
  {
    seq(|line|, i requires 0 <= i < |line| => line[i].text)
  }

  /** `linea_texto` of line 116: the words joined by spaces, lowercased. */
  function LineText(line: seq<Word>): string {
    Lower(Join(" ", Texts(line)))
  }

  /** The test of line 126: the word's lowercased text contains the alias. */
  predicate WordHas(w: Word, alias: string) {
    Contains(Lower(w.text), alias)
  }

  /** The `left` of the first word of the line that contains the alias. */
  function FirstWith(line: seq<Word>, alias: string): Option<int> {
    if line == [] then None
    else if WordHas(line[0], alias) then Some(line[0].left)
    else FirstWith(line[1..], alias)
  }

  /** Lines 123-128 for one alias: the anchor it yields, if any. */
  function Hit(line: seq<Word>, text: string, alias: string): Option<int> {
    if Contains(text, alias) then FirstWith(line, alias) else None
  }

  /**
   * Lines 122-128 for one column: each alias that hits overwrites the
   * anchor, so the last alias that hits decides it.
   */
  function AliasesHit(line: seq<Word>, text: string, aliases: seq<string>): Option<int> {
    if aliases == [] then None
    else
      match Hit(line, text, aliases[|aliases| - 1])
      case Some(x) => Some(x)
      case None => AliasesHit(line, text, aliases[..|aliases| - 1])
  }

  function Put(cols: Anchors, c: Column, anchor: Option<int>): Anchors {
    match anchor
    case None => cols
    case Some(x) => cols[c := x]
  }

  /** The anchors after lines 121-128 have run over the columns `cs`. */
  function ScanColumns(line: seq<Word>, text: string, cols: Anchors, cs: seq<Column>): Anchors {
    if cs == [] then cols
    else
      var c := cs[|cs| - 1];
      Put(ScanColumns(line, text, cols, cs[..|cs| - 1]), c, ColumnAnchor(line, text, c))
  }

  /** Lines 122-128 for column `c`: the anchor its aliases yield, if any. */
  function ColumnAnchor(line: seq<Word>, text: string, c: Column): Option<int> {
    AliasesHit(line, text, Aliases(c))
  }

  /** `found_cols` after lines 121-128 have run over the columns `cs`. */
  predicate Matched(line: seq<Word>, text: string, cs: seq<Column>) {
    cs != [] && (Matched(line, text, cs[..|cs| - 1]) || ColumnHit(line, text, cs[|cs| - 1]))
  }

  /** Lines 125-129: the first word of the line containing the alias. */
  method FindAnchor(line: seq<Word>, alias: string) returns (anchor: Option<int>)
    ensures anchor == FirstWith(line, alias)
  {
    anchor := None;
    for j := 0 to |line|
      invariant FirstWith(line, alias) == FirstWith(line[j..], alias)
      invariant anchor == None
    {
      assert line[j..][1..] == line[j + 1..];
      if Contains(Lower(line[j].text), alias) {
        anchor := Some(line[j].left);
        break;
      }
    }
  }

  lemma AliasesHitSnoc(line: seq<Word>, text: string, aliases: seq<string>, alias: string)
    ensures AliasesHit(line, text, aliases + [alias]) ==
      if Hit(line, text, alias).Some? then Hit(line, text, alias) else AliasesHit(line, text, aliases)
  {
    assert (aliases + [alias])[..|aliases|] == aliases;
  }

  /** Lines 122-128: the aliases of one column, each overwriting the anchor. */
  method ScanAliases(line: seq<Word>, text: string, cols: Anchors, c: Column, aliases: seq<string>)
    returns (updated: Anchors, hit: bool)
    ensures updated == Put(cols, c, AliasesHit(line, text, aliases))
    ensures hit == AliasesHit(line, text, aliases).Some?
  {
    updated := cols;
    hit := false;
    for ai := 0 to |aliases|
      invariant updated == Put(cols, c, AliasesHit(line, text, aliases[..ai]))
      invariant hit == AliasesHit(line, text, aliases[..ai]).Some?
    {
      assert aliases[..ai + 1] == aliases[..ai] + [aliases[ai]];
      AliasesHitSnoc(line, text, aliases[..ai], aliases[ai]);
      if Contains(text, aliases[ai]) {
        var anchor := FindAnchor(line, aliases[ai]);
        if anchor.Some? {
          updated := updated[c := anchor.value];
          hit := true;
        }
      }
    }
    assert aliases[..|aliases|] == aliases;
  }

  /**
   * Lines 119-128: one pass of the header scan over a line whose lowered
   * text is `text`.
   */
  method DetectColumns(line: seq<Word>, text: string, cols: Anchors) returns (updated: Anchors, found: bool)
    ensures updated == ScanColumns(line, text, cols, ColumnOrder)
    ensures found == Matched(line, text, ColumnOrder)
  {
    updated := cols;
    found := false;
    for ci := 0 to |ColumnOrder|
      invariant updated == ScanColumns(line, text, cols, ColumnOrder[..ci])
      invariant found == Matched(line, text, ColumnOrder[..ci])
    {
      assert ColumnOrder[..ci + 1][..ci] == ColumnOrder[..ci];
      var hit;
      updated, hit := ScanAliases(line, text, updated, ColumnOrder[ci], Aliases(ColumnOrder[ci]));
      found := found || hit;
    }
    assert ColumnOrder[..|ColumnOrder|] == ColumnOrder;
  }

  // ---------------------------------------------------------------------
  // What the header scan computes.

  /**
   * The anchor an alias yields is the `left` of the first word containing
   * it, and there is none exactly when no word contains it.
   */
  lemma {:induction false} FirstWithFirst(line: seq<Word>, alias: string)
    ensures FirstWith(line, alias).None? <==> forall j :: 0 <= j < |line| ==> !WordHas(line[j], alias)
    ensures FirstWith(line, alias).Some? ==>
      exists j :: 0 <= j < |line| && WordHas(line[j], alias) && line[j].left == FirstWith(line, alias).value &&
        forall i :: 0 <= i < j ==> !WordHas(line[i], alias)
  {
    if line != [] && !WordHas(line[0], alias) {
      FirstWithFirst(line[1..], alias);
      if FirstWith(line, alias).Some? {
        var j :| 0 <= j < |line[1..]| && WordHas(line[1..][j], alias) && line[1..][j].left == FirstWith(line, alias).value &&
          forall i :: 0 <= i < j ==> !WordHas(line[1..][i], alias);
        assert line[j + 1] == line[1..][j];
        forall i | 0 <= i < j + 1 ensures !WordHas(line[i], alias) {
          if i > 0 {
            assert line[i] == line[1..][i - 1];
          }
        }
      } else {
        forall j | 0 <= j < |line| ensures !WordHas(line[j], alias) {
          if j > 0 {
            assert line[j] == line[1..][j - 1];
          }
        }
      }
    }
  }

  lemma {:induction false} ContainsAfter(p: string, s: string, sub: string)
    requires Contains(s, sub)
    ensures Contains(p + s, sub)
  {
    if p != [] {
      ContainsAfter(p[1..], s, sub);
      assert (p + s)[1..] == p[1..] + s;
    } else {
      assert p + s == s;
    }
  }

  lemma {:induction false} ContainsBefore(s: string, q: string, sub: string)
    requires Contains(s, sub)
    ensures Contains(s + q, sub)
    decreases |s|
  {
    if StartsWith(s, sub) {
      assert (s + q)[..|sub|] == s[..|sub|];
    } else {
      ContainsBefore(s[1..], q, sub);
      assert (s + q)[1..] == s[1..] + q;
    }
  }

  /** An alias contained in one part is contained in the lowered join. */
  lemma {:induction false} JoinContains(parts: seq<string>, k: int, sub: string)
    requires 0 <= k < |parts| && Contains(Lower(parts[k]), sub)
    ensures Contains(Lower(Join(" ", parts)), sub)
  {
    if |parts| > 1 {
      var rest := Join(" ", parts[1..]);
      assert Join(" ", parts) == parts[0] + (" " + rest);
      LowerAppend(parts[0], " " + rest);
      if k == 0 {
        ContainsBefore(Lower(parts[0]), Lower(" " + rest), sub);
      } else {
        JoinContains(parts[1..], k - 1, sub);
        LowerAppend(" ", rest);
        ContainsAfter(Lower(" "), Lower(rest), sub);
        ContainsAfter(Lower(parts[0]), Lower(" ") + Lower(rest), sub);
        assert Lower(parts[0]) + (Lower(" ") + Lower(rest)) == Lower(parts[0]) + Lower(" " + rest);
      }
    }
  }

  /**
   * The whole-line test of line 123 never hides a word-level match: an
   * alias yields exactly the anchor of the first word containing it.
   */
  lemma HitIsFirstWord(line: seq<Word>, alias: string)
    ensures Hit(line, LineText(line), alias) == FirstWith(line, alias)
  {
    FirstWithFirst(line, alias);
    if FirstWith(line, alias).Some? {
      var j :| 0 <= j < |line| && WordHas(line[j], alias) && line[j].left == FirstWith(line, alias).value &&
        forall i :: 0 <= i < j ==> !WordHas(line[i], alias);
      JoinContains(Texts(line), j, alias);
    }
  }

  /**
   * The anchor of one column comes from the last of its aliases that
   * yields one (a later alias overwrites an earlier one); there is none
   * exactly when no alias yields one.
   */
  lemma {:induction false} LastAliasWins(line: seq<Word>, text: string, aliases: seq<string>)
    ensures AliasesHit(line, text, aliases).None? <==> forall k :: 0 <= k < |aliases| ==> Hit(line, text, aliases[k]).None?
    ensures AliasesHit(line, text, aliases).Some? ==>
      exists k :: 0 <= k < |aliases| && Hit(line, text, aliases[k]) == AliasesHit(line, text, aliases) &&
        forall k' :: k < k' < |aliases| ==> Hit(line, text, aliases[k']).None?
  {
    if aliases != [] {
      var n := |aliases|;
      var front := aliases[..n - 1];
      LastAliasWins(line, text, front);
      assert forall k :: 0 <= k < n - 1 ==> front[k] == aliases[k];
      if Hit(line, text, aliases[n - 1]).None? {
        if AliasesHit(line, text, aliases).Some? {
          var k :| 0 <= k < |front| && Hit(line, text, front[k]) == AliasesHit(line, text, front) &&
            forall k' :: k < k' < |front| ==> Hit(line, text, front[k']).None?;
          assert Hit(line, text, aliases[k]) == AliasesHit(line, text, aliases);
        }
      }
    }
  }

  /** Neither a column outside `cs` nor its anchor is touched by the scan. */
  lemma {:induction false} ScanOthers(line: seq<Word>, text: string, cols: Anchors, cs: seq<Column>, c: Column)
    requires c !in cs
    ensures var m := ScanColumns(line, text, cols, cs);
      (c in m <==> c in cols) && (c in cols ==> m[c] == cols[c])
  {
    if cs != [] {
      assert cs[|cs| - 1] != c;
      ScanOthers(line, text, cols, cs[..|cs| - 1], c);
    }
  }

  lemma {:induction false} ScanAppend(line: seq<Word>, text: string, cols: Anchors, a: seq<Column>, b: seq<Column>)
    ensures ScanColumns(line, text, cols, a + b) == ScanColumns(line, text, ScanColumns(line, text, cols, a), b)
  {
    if b == [] {
      assert a + b == a;
    } else {
      var n := |b|;
      assert (a + b)[..|a + b| - 1] == a + b[..n - 1];
      assert (a + b)[|a + b| - 1] == b[n - 1];
      ScanAppend(line, text, cols, a, b[..n - 1]);
    }
  }

  /**
   * After the header scan, a column has an anchor exactly when it had one
   * or one of its aliases yielded one, and then the yielded anchor replaces
   * the old one.
   */
  lemma DetectedAnchors(line: seq<Word>, text: string, cols: Anchors, c: Column)
    ensures var m := ScanColumns(line, text, cols, ColumnOrder);
      var hit := ColumnAnchor(line, text, c);
      (c in m <==> c in cols || hit.Some?) &&
      (c in m ==> m[c] == if hit.Some? then hit.value else cols[c])
  {
    var k := Rank(c);
    var front := ColumnOrder[..k];
    var rest := ColumnOrder[k + 1..];
    assert ColumnOrder == front + [c] + rest;
    assert c !in front && c !in rest;
    ScanOthers(line, text, cols, front, c);
    ScanAppend(line, text, cols, front + [c], rest);
    assert (front + [c])[..k] == front;
    var m := ScanColumns(line, text, cols, front + [c]);
    ScanOthers(line, text, m, rest, c);
  }

  /** The anchors the header scan of `line` yields, starting from none. */
  function HeaderCols(line: seq<Word>): Anchors {
    ScanColumns(line, LineText(line), map[], ColumnOrder)
  }

  /**
   * The header line gives a column an anchor exactly when some word of the
   * line contains one of its aliases; the anchor is then the `left` of the
   * first word containing the last such alias in the table.
   */
  lemma HeaderAnchor(line: seq<Word>, c: Column)
    ensures c in HeaderCols(line) <==> exists k :: 0 <= k < |Aliases(c)| && FirstWith(line, Aliases(c)[k]).Some?
    ensures c in HeaderCols(line) ==>
      exists k :: 0 <= k < |Aliases(c)| && Some(HeaderCols(line)[c]) == FirstWith(line, Aliases(c)[k]) &&
        forall k' :: k < k' < |Aliases(c)| ==> FirstWith(line, Aliases(c)[k']).None?
  {
    var text := LineText(line);
    var aliases := Aliases(c);
    DetectedAnchors(line, text, map[], c);
    LastAliasWins(line, text, aliases);
    forall k | 0 <= k < |aliases| ensures Hit(line, text, aliases[k]) == FirstWith(line, aliases[k]) {
      HitIsFirstWord(line, aliases[k]);
    }
  }

  /**
   * `found_cols` is true exactly when some column's alias yields an anchor,
   * and then that column has an anchor.
   */
  lemma {:induction false} MatchedExists(line: seq<Word>, text: string, cs: seq<Column>)
    ensures Matched(line, text, cs) <==> exists k {:trigger ColumnHit(line, text, cs[k])} :: 0 <= k < |cs| && ColumnHit(line, text, cs[k])
  {
    if cs != [] {
      var n := |cs|;
      var front := cs[..n - 1];
      MatchedExists(line, text, front);
      if Matched(line, text, cs) {
        if Matched(line, text, front) {
          var k :| 0 <= k < |front| && ColumnHit(line, text, front[k]);
          assert cs[k] == front[k];
        } else {
          assert ColumnHit(line, text, cs[n - 1]);
        }
      } else {
        forall k | 0 <= k < n ensures !ColumnHit(line, text, cs[k]) {
          if k < n - 1 {
            assert cs[k] == front[k];
          }
        }
      }
    }
  }

  /** Some alias of the column yields an anchor. */
  predicate ColumnHit(line: seq<Word>, text: string, c: Column) {
    ColumnAnchor(line, text, c).Some?
  }

  // ---------------------------------------------------------------------
  // The nearest anchor of a word (lines 158-159).

  function Distance(cols: Anchors, c: Column, left: int): nat
    requires c in cols
  {
    Abs(left - cols[c])
  }

  /**
   * Python's `min` over the distances in the dictionary's order `cs`: a
   * later column replaces the best one only when strictly closer.
   */
  function Closest(cols: Anchors, left: int, cs: seq<Column>): (r: Option<Column>)
    ensures r.None? <==> forall k :: 0 <= k < |cs| ==> cs[k] !in cols
    ensures r.Some? ==> r.value in cols && r.value in cs
  {
    if cs == [] then None
    else
      var best := Closest(cols, left, cs[..|cs| - 1]);
      var c := cs[|cs| - 1];
      if c !in cols then best
      else if best.None? || Distance(cols, c, left) < Distance(cols, best.value, left) then Some(c)
      else best
  }

  /** The column a word at `left` is assigned to, among the detected ones. */
  function Nearest(cols: Anchors, left: int): (c: Column)
    requires cols != map[]
    ensures c in cols
  {
    var some :| some in cols;
    assert ColumnOrder[Rank(some)] == some;
    Closest(cols, left, ColumnOrder).value
  }

  /** `cs[k]` is detected and every detected column before it is strictly farther away. */
  predicate FirstMinimum(cols: Anchors, left: int, cs: seq<Column>, k: int)
    requires 0 <= k < |cs|
  {
    cs[k] in cols &&
    forall i :: 0 <= i < k && cs[i] in cols ==> Distance(cols, cs[i], left) > Distance(cols, cs[k], left)
  }

  /** No detected column of `cs` is closer than the one `Closest` picks. */
  lemma {:induction false} ClosestLeast(cols: Anchors, left: int, cs: seq<Column>)
    requires Closest(cols, left, cs).Some?
    ensures forall k :: 0 <= k < |cs| && cs[k] in cols ==>
      Distance(cols, Closest(cols, left, cs).value, left) <= Distance(cols, cs[k], left)
  {
    var n := |cs|;
    var front := cs[..n - 1];
    var r := Closest(cols, left, cs).value;
    if Closest(cols, left, front).Some? {
      ClosestLeast(cols, left, front);
    }
    forall k | 0 <= k < n && cs[k] in cols ensures Distance(cols, r, left) <= Distance(cols, cs[k], left) {
      if k < n - 1 {
        assert front[k] == cs[k];
      }
    }
  }

  /** `Closest` picks the first of the closest detected columns of `cs`. */
  lemma {:induction false} ClosestFirst(cols: Anchors, left: int, cs: seq<Column>)
    requires Closest(cols, left, cs).Some?
    ensures exists k :: 0 <= k < |cs| && cs[k] == Closest(cols, left, cs).value && FirstMinimum(cols, left, cs, k)
  {
    var n := |cs|;
    var front := cs[..n - 1];
    var best := Closest(cols, left, front);
    var r := Closest(cols, left, cs).value;
    if best.Some? && r == best.value {
      ClosestFirst(cols, left, front);
      var k :| 0 <= k < |front| && front[k] == r && FirstMinimum(cols, left, front, k);
      forall i | 0 <= i <= k ensures cs[i] == front[i] {
      }
      assert FirstMinimum(cols, left, cs, k);
    } else {
      assert r == cs[n - 1];
      if best.Some? {
        ClosestLeast(cols, left, front);
      }
      forall i | 0 <= i < n - 1 && cs[i] in cols ensures Distance(cols, cs[i], left) > Distance(cols, r, left) {
        assert front[i] == cs[i];
      }
      assert FirstMinimum(cols, left, cs, n - 1);
    }
  }

  /**
   * Line 159: the assigned column is at minimal distance from the word,
   * and every column earlier in `Cant, Descripción, P.Unit, Importe` is
   * strictly farther away.
   */
  lemma NearestIsFirstMinimum(cols: Anchors, left: int)
    requires cols != map[]
    ensures forall d :: d in cols ==> Distance(cols, Nearest(cols, left), left) <= Distance(cols, d, left)
    ensures forall d :: d in cols && Rank(d) < Rank(Nearest(cols, left)) ==>
      Distance(cols, d, left) > Distance(cols, Nearest(cols, left), left)
  {
    var some :| some in cols;
    assert ColumnOrder[Rank(some)] == some;
    ClosestLeast(cols, left, ColumnOrder);
    ClosestFirst(cols, left, ColumnOrder);
    forall d | d in cols ensures Distance(cols, Nearest(cols, left), left) <= Distance(cols, d, left) {
      assert ColumnOrder[Rank(d)] == d;
    }
    var k :| 0 <= k < |ColumnOrder| && ColumnOrder[k] == Nearest(cols, left) && FirstMinimum(cols, left, ColumnOrder, k);
    assert k == Rank(Nearest(cols, left));
    forall d | d in cols && Rank(d) < k ensures Distance(cols, d, left) > Distance(cols, Nearest(cols, left), left) {
      assert ColumnOrder[Rank(d)] == d;
    }
  }

  /** Those two facts single out the assigned column. */
  lemma NearestUnique(cols: Anchors, left: int, c: Column)
    requires c in cols
    requires forall d :: d in cols ==> Distance(cols, c, left) <= Distance(cols, d, left)
    requires forall d :: d in cols && Rank(d) < Rank(c) ==> Distance(cols, d, left) > Distance(cols, c, left)
    ensures c == Nearest(cols, left)
  {
    NearestIsFirstMinimum(cols, left);
    var n := Nearest(cols, left);
    assert Distance(cols, n, left) == Distance(cols, c, left);
    assert Rank(n) == Rank(c);
    assert ColumnOrder[Rank(c)] == c && ColumnOrder[Rank(n)] == n;
  }

  // ---------------------------------------------------------------------
  // The per-column word lists of a detail line (lines 154-160).

  /** The texts of the words of `line` whose nearest column is `c`, in order. */
  function Bucket(line: seq<Word>, cols: Anchors, c: Column): seq<string>
    requires cols != map[]
  {
    if line == [] then []
    else
      var w := line[|line| - 1];
      Bucket(line[..|line| - 1], cols, c) + if Nearest(cols, w.left) == c then [w.text] else []
  }

  /** `detalle_linea` after line 160 has run over every word of the line. */
  function Buckets(line: seq<Word>, cols: Anchors): map<Column, seq<string>>
    requires cols != map[]
  {
    map c | c in cols :: Bucket(line, cols, c)
  }

  /** Lines 154-160: the per-column lists of one detail line. */
  method AssignWords(line: seq<Word>, cols: Anchors) returns (buckets: map<Column, seq<string>>)
    requires cols != map[]
    ensures buckets == Buckets(line, cols)
  {
    buckets := map c | c in cols :: [];
    assert buckets == Buckets(line[..0], cols);
    for i := 0 to |line|
      invariant buckets == Buckets(line[..i], cols)
    {
      assert line[..i + 1][..i] == line[..i];
      var c := Nearest(cols, line[i].left);
      buckets := buckets[c := buckets[c] + [line[i].text]];
      assert forall d :: d in cols ==> buckets[d] == Bucket(line[..i + 1], cols, d);
    }
    assert line[..|line|] == line;
  }

  /** The lists keep the line's left-to-right order across any cut. */
  lemma {:induction false} BucketAppend(a: seq<Word>, b: seq<Word>, cols: Anchors, c: Column)
    requires cols != map[]
    ensures Bucket(a + b, cols, c) == Bucket(a, cols, c) + Bucket(b, cols, c)
  {
    if b == [] {
      assert a + b == a;
    } else {
      var n := |b|;
      assert (a + b)[..|a + b| - 1] == a + b[..n - 1];
      BucketAppend(a, b[..n - 1], cols, c);
    }
  }

  /** A column's list is empty exactly when no word of the line is nearest to it. */
  lemma {:induction false} BucketEmpty(line: seq<Word>, cols: Anchors, c: Column)
    requires cols != map[]
    ensures Bucket(line, cols, c) == [] <==> forall i :: 0 <= i < |line| ==> Nearest(cols, line[i].left) != c
  {
    if line != [] {
      var n := |line|;
      BucketEmpty(line[..n - 1], cols, c);
      assert forall i :: 0 <= i < n - 1 ==> line[..n - 1][i] == line[i];
    }
  }

  /**
   * The first entry of a column's list (the one lines 167-169 take) is the
   * text of the leftmost word of the line nearest to that column.
   */
  lemma {:induction false} BucketFirst(line: seq<Word>, cols: Anchors, c: Column)
    requires cols != map[] && Bucket(line, cols, c) != []
    ensures exists j :: 0 <= j < |line| && Bucket(line, cols, c)[0] == line[j].text && FirstNearest(line, cols, c, j)
  {
    var n := |line|;
    var front := line[..n - 1];
    var last := line[n - 1];
    assert Bucket(line, cols, c) == Bucket(front, cols, c) + if Nearest(cols, last.left) == c then [last.text] else [];
    if Bucket(front, cols, c) != [] {
      BucketFirst(front, cols, c);
      var j :| 0 <= j < |front| && Bucket(front, cols, c)[0] == front[j].text && FirstNearest(front, cols, c, j);
      forall i | 0 <= i <= j ensures line[i] == front[i] {
      }
      assert FirstNearest(line, cols, c, j);
    } else {
      BucketEmpty(front, cols, c);
      forall i | 0 <= i < n - 1 ensures Nearest(cols, line[i].left) != c {
        assert line[i] == front[i];
      }
      assert FirstNearest(line, cols, c, n - 1);
    }
  }

  /** `line[j]` is the leftmost word of the line nearest to `c`. */
  predicate FirstNearest(line: seq<Word>, cols: Anchors, c: Column, j: int)
    requires cols != map[] && 0 <= j < |line|
  {
    Nearest(cols, line[j].left) == c && forall i :: 0 <= i < j ==> Nearest(cols, line[i].left) != c
  }

  /** The number of words held by the lists of the columns `cs`. */
  function BucketTotal(line: seq<Word>, cols: Anchors, cs: seq<Column>): nat
    requires cols != map[]
  {
    if cs == [] then 0
    else BucketTotal(line, cols, cs[..|cs| - 1]) + (if cs[|cs| - 1] in cols then |Bucket(line, cols, cs[|cs| - 1])| else 0)
  }

  lemma {:induction false} BucketTotalSnoc(line: seq<Word>, w: Word, cols: Anchors, cs: seq<Column>)
    requires cols != map[]
    requires forall i, j :: 0 <= i < j < |cs| ==> cs[i] != cs[j]
    ensures BucketTotal(line + [w], cols, cs) == BucketTotal(line, cols, cs) + if Nearest(cols, w.left) in cs then 1 else 0
  {
    assert (line + [w])[..|line|] == line;
    if cs != [] {
      var n := |cs|;
      BucketTotalSnoc(line, w, cols, cs[..n - 1]);
      if Nearest(cols, w.left) == cs[n - 1] {
        assert Nearest(cols, w.left) !in cs[..n - 1];
      } else if Nearest(cols, w.left) in cs {
        assert Nearest(cols, w.left) in cs[..n - 1];
      }
    }
  }

  /** Every word of a detail line lands in exactly one column's list. */
  lemma {:induction false} BucketsPartition(line: seq<Word>, cols: Anchors)
    requires cols != map[]
    ensures BucketTotal(line, cols, ColumnOrder) == |line|
  {
    if line != [] {
      var n := |line|;
      BucketsPartition(line[..n - 1], cols);
      assert line == line[..n - 1] + [line[n - 1]];
      assert ColumnOrder[Rank(Nearest(cols, line[n - 1].left))] == Nearest(cols, line[n - 1].left);
      BucketTotalSnoc(line[..n - 1], line[n - 1], cols, ColumnOrder);
    } else {
      BucketTotalEmpty(line, cols, ColumnOrder);
    }
  }

  lemma {:induction false} BucketTotalEmpty(line: seq<Word>, cols: Anchors, cs: seq<Column>)
    requires cols != map[] && line == []
    ensures BucketTotal(line, cols, cs) == 0
  {
    if cs != [] {
      BucketTotalEmpty(line, cols, cs[..|cs| - 1]);
    }
  }

  /** The texts in the list of column `c`, as a multiset; none when `c` was not detected. */
  function Part(line: seq<Word>, cols: Anchors, c: Column): multiset<string>
    requires cols != map[]
  {
    if c in cols then multiset(Bucket(line, cols, c)) else multiset{}
  }

  /** The texts held by all the lists of `detalle_linea`, as a multiset. */
  function BucketBag(line: seq<Word>, cols: Anchors): multiset<string>
    requires cols != map[]
  {
    Part(line, cols, Cant) + Part(line, cols, Descripcion) + Part(line, cols, PUnit) + Part(line, cols, Importe)
  }

  lemma PartSnoc(line: seq<Word>, w: Word, cols: Anchors, c: Column)
    requires cols != map[]
    ensures Part(line + [w], cols, c) ==
      Part(line, cols, c) + if Nearest(cols, w.left) == c then multiset{w.text} else multiset{}
  {
    assert (line + [w])[..|line|] == line;
  }

  lemma BucketBagSnoc(line: seq<Word>, w: Word, cols: Anchors)
    requires cols != map[]
    ensures BucketBag(line + [w], cols) == BucketBag(line, cols) + multiset{w.text}
  {
    PartSnoc(line, w, cols, Cant);
    PartSnoc(line, w, cols, Descripcion);
    PartSnoc(line, w, cols, PUnit);
    PartSnoc(line, w, cols, Importe);
  }

  lemma BucketBagEmpty(line: seq<Word>, cols: Anchors)
    requires cols != map[] && line == []
    ensures BucketBag(line, cols) == multiset{}
  {
  }

  /** The lists of a detail line hold exactly the texts of its words, each as often as it occurs. */
  lemma {:induction false} BucketsHoldTexts(line: seq<Word>, cols: Anchors)
    requires cols != map[]
    ensures BucketBag(line, cols) == multiset(Texts(line))
  {
    if line != [] {
      var n := |line|;
      var front := line[..n - 1];
      BucketsHoldTexts(front, cols);
      assert line == front + [line[n - 1]];
      assert Texts(line) == Texts(front) + [line[n - 1].text];
      BucketBagSnoc(front, line[n - 1], cols);
    } else {
      BucketBagEmpty(line, cols);
    }
  }
}
