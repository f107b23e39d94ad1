/**
 * The recognized words of one invoice: the confidence filter
 * (facturas-orc/procesador_facturas.py:70-81) and the stable sorts of
 * lines 84 and 97.
 */
module Words {
  import opened Text

  /** One entry of the OCR engine's output: text, position and confidence. */
  datatype OcrWord = OcrWord(text: string, left: int, top: int, conf: int)

  /** A word that passed the filter: its stripped text and its position. */
  datatype Word = Word(text: string, left: int, top: int)

  /** Confidences strictly above this value are kept. */
  const MinConfidence: int := 60

  /** The test of line 74. */
  predicate Keeps(r: OcrWord) {
    Strip(r.text) != [] && r.conf > MinConfidence
  }

  /** The record appended at line 75 (width and height are not modelled). */
  function Recognized(r: OcrWord): Word {
    Word(Strip(r.text), r.left, r.top)
  }

  /** The words lines 71-81 keep, in OCR order. */
  function Filtered(raw: seq<OcrWord>): seq<Word> {
    if raw == [] then []
    else Filtered(raw[..|raw| - 1]) + (if Keeps(raw[|raw| - 1]) then [Recognized(raw[|raw| - 1])] else [])
  }

  /** Lines 71-81: the loop that appends the kept words. */
  method FilterWords(raw: seq<OcrWord>) returns (words: seq<Word>)
    ensures words == Filtered(raw)
  {
    words := [];
    for i := 0 to |raw|
      invariant words == Filtered(raw[..i])
    {
      FilteredStep(raw, i);
      var text := Strip(raw[i].text);
      if text != [] && raw[i].conf > MinConfidence {
        words := words + [Word(text, raw[i].left, raw[i].top)];
      }
    }
    assert raw[..|raw|] == raw;
  }

  lemma FilteredStep(raw: seq<OcrWord>, i: int)
    requires 0 <= i < |raw|
    ensures Filtered(raw[..i + 1]) == Filtered(raw[..i]) + if Keeps(raw[i]) then [Recognized(raw[i])] else []
  {
    assert raw[..i + 1][..i] == raw[..i];
  }

  lemma FilteredSnoc(s: seq<OcrWord>, x: OcrWord)
    ensures Filtered(s + [x]) == Filtered(s) + if Keeps(x) then [Recognized(x)] else []
  {
    assert (s + [x])[..|s|] == s;
  }

  lemma {:induction false} FilteredAppend(a: seq<OcrWord>, b: seq<OcrWord>)
    ensures Filtered(a + b) == Filtered(a) + Filtered(b)
  {
    if b == [] {
      assert a + b == a;
    } else {
      var front, x := b[..|b| - 1], b[|b| - 1];
      assert b == front + [x];
      assert a + b == (a + front) + [x];
      FilteredAppend(a, front);
      FilteredSnoc(a + front, x);
      FilteredSnoc(front, x);
    }
  }

  /**
   * Every kept word has a non-empty stripped text and comes from an OCR
   * word with confidence above 60; every such OCR word is kept.
   */
  lemma {:induction false} FilteredExactly(raw: seq<OcrWord>)
    ensures forall w :: w in Filtered(raw) ==> w.text != []
    ensures forall w :: w in Filtered(raw) ==> exists r :: r in raw && Keeps(r) && w == Recognized(r)
    ensures forall r :: r in raw && Keeps(r) ==> Recognized(r) in Filtered(raw)
  {
    if raw != [] {
      var front := raw[..|raw| - 1];
      var last := raw[|raw| - 1];
      FilteredExactly(front);
      assert raw == front + [last];
      assert Filtered(raw) == Filtered(front) + (if Keeps(last) then [Recognized(last)] else []);
      forall w | w in Filtered(raw) ensures exists r :: r in raw && Keeps(r) && w == Recognized(r) {
        if w in Filtered(front) {
          var r :| r in front && Keeps(r) && w == Recognized(r);
          assert r in raw;
        } else {
          assert last in raw;
        }
      }
    }
  }

  /** A word whose confidence is 60 or less disappears without a trace. */
  lemma LowConfidenceDropped(before: seq<OcrWord>, r: OcrWord, after: seq<OcrWord>)
    requires r.conf <= MinConfidence
    ensures Filtered(before + [r] + after) == Filtered(before + after)
  {
    FilteredAppend(before + [r], after);
    FilteredAppend(before, after);
    var front := before + [r];
    assert front[..|front| - 1] == before && front[|front| - 1] == r;
    assert !Keeps(r);
    assert Filtered(front) == Filtered(before);
  }

  // ---------------------------------------------------------------------
  // Python's `list.sort` and `sorted` are stable.  They are modelled as the
  // stable insertion sort below, which places each word before every later
  // word whose key is not smaller.

  /** The two sort keys: `(top, left)` at line 84 and `left` at line 97. */
  datatype Order = ByPosition | ByLeft

  predicate Before(o: Order, a: Word, b: Word) {
    match o
    case ByPosition => a.top < b.top || (a.top == b.top && a.left <= b.left)
    case ByLeft => a.left <= b.left
  }

  predicate SameKey(o: Order, a: Word, b: Word) {
    Before(o, a, b) && Before(o, b, a)
  }

  predicate Sorted(o: Order, s: seq<Word>) {
    forall i, j :: 0 <= i < j < |s| ==> Before(o, s[i], s[j])
  }

  function Insert(o: Order, w: Word, s: seq<Word>): (r: seq<Word>)
    ensures multiset(r) == multiset(s) + multiset{w}
    ensures |r| == |s| + 1
  {
    if s == [] || Before(o, w, s[0]) then [w] + s
    else
      assert s == [s[0]] + s[1..];
      [s[0]] + Insert(o, w, s[1..])
  }

  function SortBy(o: Order, s: seq<Word>): (r: seq<Word>)
    ensures multiset(r) == multiset(s)
    ensures |r| == |s|
  {
    if s == [] then []
    else
      assert s == [s[0]] + s[1..];
      Insert(o, s[0], SortBy(o, s[1..]))
  }

  lemma ConsSorted(o: Order, x: Word, s: seq<Word>)
    requires Sorted(o, s) && forall k :: 0 <= k < |s| ==> Before(o, x, s[k])
    ensures Sorted(o, [x] + s)
  {
    var r := [x] + s;
    forall i, j | 0 <= i < j < |r| ensures Before(o, r[i], r[j]) {
      assert r[j] == s[j - 1];
      if i > 0 {
        assert r[i] == s[i - 1];
      }
    }
  }

  lemma {:induction false} InsertSorted(o: Order, w: Word, s: seq<Word>)
    requires Sorted(o, s)
    ensures Sorted(o, Insert(o, w, s))
  {
    if s == [] {
      assert Insert(o, w, s) == [w];
    } else if Before(o, w, s[0]) {
      forall k | 0 <= k < |s| ensures Before(o, w, s[k]) {
        if k > 0 {
          assert Before(o, s[0], s[k]);
        }
      }
      ConsSorted(o, w, s);
    } else {
      var tail := s[1..];
      assert Sorted(o, tail) by {
        forall i, j | 0 <= i < j < |tail| ensures Before(o, tail[i], tail[j]) {
          assert tail[i] == s[i + 1] && tail[j] == s[j + 1];
        }
      }
      InsertSorted(o, w, tail);
      var r := Insert(o, w, tail);
      forall k | 0 <= k < |r| ensures Before(o, s[0], r[k]) {
        assert r[k] in multiset(r);
        assert r[k] in multiset(tail) + multiset{w};
        if r[k] != w {
          assert r[k] in tail;
          var m :| 0 <= m < |tail| && tail[m] == r[k];
          assert r[k] == s[m + 1];
        }
      }
      ConsSorted(o, s[0], r);
    }
  }

  /** The sort orders its result by the key. */
  lemma {:induction false} SortBySorted(o: Order, s: seq<Word>)
    ensures Sorted(o, SortBy(o, s))
  {
    if s != [] {
      SortBySorted(o, s[1..]);
      InsertSorted(o, s[0], SortBy(o, s[1..]));
    }
  }

  /** The words of `s` whose key equals that of `k`, in order. */
  function WithKey(o: Order, k: Word, s: seq<Word>): seq<Word> {
    if s == [] then []
    else (if SameKey(o, s[0], k) then [s[0]] else []) + WithKey(o, k, s[1..])
  }

  lemma WithKeyCons(o: Order, k: Word, x: Word, s: seq<Word>)
    ensures WithKey(o, k, [x] + s) == (if SameKey(o, x, k) then [x] else []) + WithKey(o, k, s)
  {
    assert ([x] + s)[0] == x && ([x] + s)[1..] == s;
  }

  /** A word strictly after `x` never shares a key with it. */
  lemma KeyApart(o: Order, w: Word, x: Word, k: Word)
    requires !Before(o, w, x)
    ensures !(SameKey(o, w, k) && SameKey(o, x, k))
  {
  }

  lemma {:induction false} InsertStable(o: Order, k: Word, w: Word, s: seq<Word>)
    ensures WithKey(o, k, Insert(o, w, s)) == (if SameKey(o, w, k) then [w] else []) + WithKey(o, k, s)
  {
    if s == [] || Before(o, w, s[0]) {
      WithKeyCons(o, k, w, s);
    } else {
      var r := Insert(o, w, s[1..]);
      InsertStable(o, k, w, s[1..]);
      PassOver(o, k, w, s[0], s[1..], r);
      assert Insert(o, w, s) == [s[0]] + r;
      assert [s[0]] + s[1..] == s;
    }
  }

  /** Inserting `w` past a word `x` strictly before it keeps the key's words in order. */
  lemma PassOver(o: Order, k: Word, w: Word, x: Word, s: seq<Word>, r: seq<Word>)
    requires !Before(o, w, x)
    requires WithKey(o, k, r) == (if SameKey(o, w, k) then [w] else []) + WithKey(o, k, s)
    ensures WithKey(o, k, [x] + r) == (if SameKey(o, w, k) then [w] else []) + WithKey(o, k, [x] + s)
  {
    WithKeyCons(o, k, x, r);
    WithKeyCons(o, k, x, s);
    KeyApart(o, w, x, k);
  }

  /**
   * The sort is stable: the words that share any one key keep their
   * relative order.
   */
  lemma {:induction false} SortByStable(o: Order, k: Word, s: seq<Word>)
    ensures WithKey(o, k, SortBy(o, s)) == WithKey(o, k, s)
  {
    if s != [] {
      SortByStable(o, k, s[1..]);
      InsertStable(o, k, s[0], SortBy(o, s[1..]));
    }
  }
}
