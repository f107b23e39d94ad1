/**
 * The line-item records of an invoice: the consolidation of one detail
 * line (facturas-orc/procesador_facturas.py:162-182), the computed total of
 * line 189 and the coherence verdict of lines 228-237.
 */
module Items {
  import opened Options
  import opened Text
  import opened Amounts
  import opened Columns

  /** One record of `detalles` (lines 175-180). */
  datatype LineItem = LineItem(quantity: int, description: string, unitPrice: Option<real>, amount: real)

  /** Why consolidation produced no record. */
  datatype DropReason =
    | EmptyColumn   // a detected column got no word: `[0]` raises IndexError
    | NoAmount      // no Importe word, or an empty description (line 172)
    | BadAmount     // the Importe word does not normalise (lines 173-174)
    | BadQuantity   // the Cant word is not a number: `float` raises ValueError

  datatype Outcome = Record(item: LineItem) | Dropped(reason: DropReason)

  /**
   * `detalle_linea.get(c, [None])[0]` of lines 167-169: `Absent` when the
   * column was not detected, `Empty` when it was but got no word (the
   * indexing raises), and otherwise the column's first word.
   */
  datatype Cell = Absent | Empty | First(text: string)

  function CellOf(buckets: map<Column, seq<string>>, c: Column): (cell: Cell)
    ensures cell.Absent? <==> c !in buckets
    ensures cell.Empty? <==> c in buckets && buckets[c] == []
    ensures cell.First? ==> c in buckets && buckets[c] != [] && cell.text == buckets[c][0]
  {
    if c !in buckets then Absent
    else if buckets[c] == [] then Empty
    else First(buckets[c][0])
  }

  /** Python's truth value of the `cant_str`, `punit_str` or `importe_str` of lines 167-169. */
  predicate Truthy(cell: Cell) {
    cell.First? && cell.text != []
  }

  /** The column was detected and its first word is a non-empty text. */
  predicate HasText(buckets: map<Column, seq<string>>, c: Column) {
    c in buckets && buckets[c] != [] && buckets[c][0] != []
  }

  /** Line 165: the Descripción words joined by spaces. */
  function Description(buckets: map<Column, seq<string>>): string {
    Join(" ", if Descripcion in buckets then buckets[Descripcion] else [])
  }

  /**
   * Lines 163-182: the record one detail line yields, or why it yields none.
   * A record needs every detected Cant, P.Unit and Importe column to have a
   * word, an Importe column whose first word normalises, a non-empty
   * description, and a Cant word (when there is one) that is a number.
   * Cant defaults to 1 and P.Unit to the amount only when the column is
   * absent.
   */
  function Consolidate(buckets: map<Column, seq<string>>): (o: Outcome)
    ensures o.Record? <==>
      (forall c :: c in {Cant, PUnit, Importe} && c in buckets ==> buckets[c] != []) &&
      HasText(buckets, Importe) && Description(buckets) != [] &&
      Normalize(buckets[Importe][0]).Some? &&
      (HasText(buckets, Cant) ==> Quantity(buckets[Cant][0]).Some?)
    ensures o.Record? ==>
      o.item.amount == Normalize(buckets[Importe][0]).value && o.item.amount >= 0.0 &&
      o.item.description == Description(buckets) &&
      o.item.quantity == (if HasText(buckets, Cant) then Quantity(buckets[Cant][0]).value else 1) &&
      o.item.unitPrice == (if HasText(buckets, PUnit) then Normalize(buckets[PUnit][0]) else Some(o.item.amount))
    ensures o.Dropped? && o.reason == EmptyColumn <==>
      exists c :: c in {Cant, PUnit, Importe} && c in buckets && buckets[c] == []
  {
    var cant := CellOf(buckets, Cant);
    var punit := CellOf(buckets, PUnit);
    var importe := CellOf(buckets, Importe);
    var desc := Description(buckets);
    if cant.Empty? || punit.Empty? || importe.Empty? then
      Dropped(EmptyColumn)
    else if !Truthy(importe) || desc == [] then
      Dropped(NoAmount)
    else
      match Normalize(importe.text)
      case None => Dropped(BadAmount)
      case Some(amount) =>
        if Truthy(cant) && Quantity(cant.text).None? then Dropped(BadQuantity)
        else
          var quantity := if Truthy(cant) then Quantity(cant.text).value else 1;
          var unitPrice := if Truthy(punit) then Normalize(punit.text) else Some(amount);
          Record(LineItem(quantity, desc, unitPrice, amount))
  }

  /** `total_calculado` of line 189: the sum of the amounts, 0 for no records. */
  function Total(items: seq<LineItem>): real {
    if items == [] then 0.0 else Total(items[..|items| - 1]) + items[|items| - 1].amount
  }

  lemma {:induction false} TotalAppend(a: seq<LineItem>, b: seq<LineItem>)
    ensures Total(a + b) == Total(a) + Total(b)
  {
    if b == [] {
      assert a + b == a;
    } else {
      var n := |b|;
      assert (a + b)[..|a + b| - 1] == a + b[..n - 1];
      TotalAppend(a, b[..n - 1]);
    }
  }

  lemma TotalRemove(items: seq<LineItem>, k: int)
    requires 0 <= k < |items|
    ensures Total(items) == Total(items[..k] + items[k + 1..]) + items[k].amount
  {
    var before := items[..k];
    var after := items[k + 1..];
    var upto := before + [items[k]];
    Around(items, k);
    TotalAppend(upto, after);
    assert upto[..|upto| - 1] == before && upto[|upto| - 1] == items[k];
    assert Total(upto) == Total(before) + items[k].amount;
    TotalAppend(before, after);
  }

  lemma RemoveOne<T>(s: seq<T>, k: int)
    requires 0 <= k < |s|
    ensures multiset(s[..k] + s[k + 1..]) == multiset(s) - multiset{s[k]}
  {
    assert s == s[..k] + [s[k]] + s[k + 1..];
  }

  /** The computed total does not depend on the order of the records. */
  lemma {:induction false} TotalPermutation(a: seq<LineItem>, b: seq<LineItem>)
    requires multiset(a) == multiset(b)
    ensures Total(a) == Total(b)
  {
    if a != [] {
      var n := |a|;
      var x := a[n - 1];
      assert x in multiset(b);
      var k :| 0 <= k < |b| && b[k] == x;
      var rest := b[..k] + b[k + 1..];
      RemoveOne(b, k);
      RemoveOne(a, n - 1);
      assert a[..n - 1] + a[n..] == a[..n - 1];
      TotalPermutation(a[..n - 1], rest);
      TotalRemove(b, k);
    } else {
      assert b == [];
    }
  }

  /** Records with non-negative amounts, as the model's sign-free amounts make them, sum to a non-negative total. */
  lemma {:induction false} TotalNonNegative(items: seq<LineItem>)
    requires forall i :: 0 <= i < |items| ==> items[i].amount >= 0.0
    ensures Total(items) >= 0.0
  {
    if items != [] {
      TotalNonNegative(items[..|items| - 1]);
    }
  }

  /** What lines 228-237 report for one invoice. */
  datatype Verdict = NotEnoughData | Checked(coherent: bool)

  /**
   * Lines 228-237: no verdict without records or without a document total;
   * otherwise coherent exactly when the computed total equals it.
   */
  function Assess(details: seq<LineItem>, total: Option<real>, computed: real): (v: Verdict)
    ensures v.Checked? <==> details != [] && total.Some?
    ensures v.Checked? ==> (v.coherent <==> computed == total.value)
  {
    if details == [] || total.None? then NotEnoughData
    else Checked(computed == total.value)
  }

  /** Re-ordering the records never changes the verdict. */
  lemma AssessPermutation(a: seq<LineItem>, b: seq<LineItem>, total: Option<real>)
    requires multiset(a) == multiset(b)
    ensures Assess(a, total, Total(a)) == Assess(b, total, Total(b))
  {
    TotalPermutation(a, b);
    if a == [] {
      assert |b| == |multiset(b)| == 0;
    } else {
      assert |b| == |multiset(b)| == |a|;
    }
  }
}
