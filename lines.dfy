/**
 * Grouping the sorted words into text lines
 * (facturas-orc/procesador_facturas.py:86-99).
 */
module Grouping {
  import opened Words

  /** Words whose tops differ by less than this many pixels share a line. */
  const LineGap: int := 20

  function Abs(x: int): nat {
    if x < 0 then -x else x
  }

  /** The test of line 94. */
  predicate SameLine(previous: Word, next: Word) {
    Abs(next.top - previous.top) < LineGap
  }

  function Last<T>(s: seq<T>): T
    requires s != []
  {
    s[|s| - 1]
  }

  /**
   * The runs the loop of lines 87-99 builds, before each is re-sorted
   * by `left`: a word joins the open run when it is close to the word before
   * it (the open run's last word), and opens a new run otherwise.
   */
  function Runs(ws: seq<Word>): (r: seq<seq<Word>>)
    ensures ws == [] <==> r == []
  {
    if ws == [] then []
    else if |ws| == 1 then [[ws[0]]]
    else
      var n := |ws|;
      var runs := Runs(ws[..n - 1]);
      if SameLine(ws[n - 2], ws[n - 1]) then runs[..|runs| - 1] + [Last(runs) + [ws[n - 1]]]
      else runs + [[ws[n - 1]]]
  }

  /** One more word either extends the last run or opens a new one. */
  lemma RunsSnoc(ws: seq<Word>, w: Word)
    requires ws != []
    ensures var runs := Runs(ws);
      Runs(ws + [w]) == if SameLine(Last(ws), w) then runs[..|runs| - 1] + [Last(runs) + [w]] else runs + [[w]]
  {
    assert (ws + [w])[..|ws|] == ws;
  }

  /** The lines appended at lines 97 and 99: each run sorted by `left`. */
  function SortRuns(runs: seq<seq<Word>>): (r: seq<seq<Word>>)
    ensures |r| == |runs| && forall k :: 0 <= k < |runs| ==> r[k] == SortBy(ByLeft, runs[k])
  {
    seq(|runs|, k requires 0 <= k < |runs| => SortBy(ByLeft, runs[k]))
  }

  function Lines(ws: seq<Word>): seq<seq<Word>> {
    SortRuns(Runs(ws))
  }

  lemma SortRunsSnoc(runs: seq<seq<Word>>, run: seq<Word>)
    ensures SortRuns(runs + [run]) == SortRuns(runs) + [SortBy(ByLeft, run)]
  {
  }

  /** One iteration of the grouping loop, on the runs built so far. */
  lemma GroupStep(ws: seq<Word>, i: int, closed: seq<seq<Word>>, current: seq<Word>)
    requires 1 <= i < |ws|
    requires Runs(ws[..i]) == closed + [current]
    requires current != [] && Last(current) == ws[i - 1]
    ensures SameLine(Last(current), ws[i]) ==> Runs(ws[..i + 1]) == closed + [current + [ws[i]]]
    ensures !SameLine(Last(current), ws[i]) ==> Runs(ws[..i + 1]) == (closed + [current]) + [[ws[i]]]
  {
    assert ws[..i + 1] == ws[..i] + [ws[i]];
    RunsSnoc(ws[..i], ws[i]);
    assert (closed + [current])[..|closed|] == closed;
  }

  /** Lines 86-99: the grouping loop over the `(top, left)`-sorted words. */
  method GroupLines(ws: seq<Word>) returns (lines: seq<seq<Word>>)
    ensures lines == Lines(ws)
  {
    lines := [];
    if ws != [] {
      var current := [ws[0]];
      ghost var closed: seq<seq<Word>> := [];
      assert ws[..1] == [ws[0]];
      for i := 1 to |ws|
        invariant Runs(ws[..i]) == closed + [current]
        invariant lines == SortRuns(closed)
        invariant current != [] && Last(current) == ws[i - 1]
      {
        GroupStep(ws, i, closed, current);
        var previous := current[|current| - 1];
        var w := ws[i];
        if Abs(w.top - previous.top) < LineGap {
          current := current + [w];
        } else {
          SortRunsSnoc(closed, current);
          lines := lines + [SortBy(ByLeft, current)];
          closed := closed + [current];
          current := [w];
        }
      }
      SortRunsSnoc(closed, current);
      lines := lines + [SortBy(ByLeft, current)];
      assert ws[..|ws|] == ws;
    }
  }

  function Concat(runs: seq<seq<Word>>): seq<Word> {
    if runs == [] then [] else Concat(runs[..|runs| - 1]) + Last(runs)
  }

  /** Each word of the run is within 20 pixels of the one before it. */
  predicate Chained(run: seq<Word>) {
    forall j :: 0 <= j < |run| - 1 ==> SameLine(run[j], run[j + 1])
  }

  /** Consecutive runs are non-empty and 20 or more pixels apart at the cut. */
  predicate Cuts(runs: seq<seq<Word>>) {
    forall k :: 0 <= k < |runs| - 1 ==> Apart(runs[k], runs[k + 1])
  }

  predicate Apart(a: seq<Word>, b: seq<Word>) {
    a != [] && b != [] && !SameLine(Last(a), b[0])
  }

  lemma {:induction false} RunsConcat(ws: seq<Word>)
    ensures Concat(Runs(ws)) == ws
  {
    if |ws| > 1 {
      var front := ws[..|ws| - 1];
      var w := Last(ws);
      var runs := Runs(front);
      RunsConcat(front);
      assert ws == front + [w];
      RunsSnoc(front, w);
      var n := |runs|;
      var r := Runs(ws);
      if SameLine(Last(front), w) {
        assert r[..n - 1] == runs[..n - 1];
        assert runs == runs[..n - 1] + [Last(runs)];
        assert Concat(runs) == Concat(runs[..n - 1]) + Last(runs);
        assert Concat(r) == Concat(runs[..n - 1]) + (Last(runs) + [w]);
      } else {
        assert r[..n] == runs;
      }
    } else if |ws| == 1 {
      assert Concat(Runs(ws)) == Concat([]) + [ws[0]];
    }
  }

  lemma {:induction false} RunsShape(ws: seq<Word>)
    ensures forall k :: 0 <= k < |Runs(ws)| ==> Runs(ws)[k] != [] && Chained(Runs(ws)[k])
    ensures Cuts(Runs(ws))
  {
    if |ws| > 1 {
      var front := ws[..|ws| - 1];
      var w := Last(ws);
      var runs := Runs(front);
      RunsShape(front);
      assert ws == front + [w];
      RunsSnoc(front, w);
      var n := |runs|;
      var r := Runs(ws);
      if SameLine(Last(front), w) {
        var last := Last(runs) + [w];
        assert r == runs[..n - 1] + [last];
        assert Chained(Last(runs));
        assert Chained(last) by {
          forall j | 0 <= j < |last| - 1 ensures SameLine(last[j], last[j + 1]) {
            if j < |last| - 2 {
              assert last[j] == Last(runs)[j] && last[j + 1] == Last(runs)[j + 1];
            }
          }
        }
        forall k | 0 <= k < |r| ensures r[k] != [] && Chained(r[k]) {
          if k < n - 1 {
            assert r[k] == runs[k];
          }
        }
        forall k | 0 <= k < |r| - 1 ensures Apart(r[k], r[k + 1]) {
          assert r[k] == runs[k];
          if k + 1 < n - 1 {
            assert r[k + 1] == runs[k + 1];
          } else {
            assert r[k + 1][0] == runs[k + 1][0];
          }
        }
      } else {
        assert r == runs + [[w]];
        forall k | 0 <= k < |r| ensures r[k] != [] && Chained(r[k]) {
          if k < n {
            assert r[k] == runs[k];
          }
        }
        forall k | 0 <= k < |r| - 1 ensures Apart(r[k], r[k + 1]) {
          assert r[k] == runs[k];
          if k + 1 < n {
            assert r[k + 1] == runs[k + 1];
          }
        }
      }
    }
  }

  /**
   * The runs cut the sorted words into consecutive non-empty pieces: inside
   * a piece each word is within 20 pixels of the one before it, and at each
   * cut the two words are 20 or more pixels apart.
   */
  lemma RunsPartition(ws: seq<Word>)
    ensures Concat(Runs(ws)) == ws
    ensures forall k :: 0 <= k < |Runs(ws)| ==> Runs(ws)[k] != []
    ensures forall k, j :: 0 <= k < |Runs(ws)| && 0 <= j < |Runs(ws)[k]| - 1 ==>
      SameLine(Runs(ws)[k][j], Runs(ws)[k][j + 1])
    ensures forall k :: 0 <= k < |Runs(ws)| - 1 ==> !SameLine(Last(Runs(ws)[k]), Runs(ws)[k + 1][0])
  {
    RunsConcat(ws);
    RunsShape(ws);
  }

  lemma {:induction false} ConcatMultiset(a: seq<seq<Word>>, b: seq<seq<Word>>)
    requires |a| == |b| && forall k :: 0 <= k < |a| ==> multiset(a[k]) == multiset(b[k])
    ensures multiset(Concat(a)) == multiset(Concat(b))
  {
    if a != [] {
      ConcatMultiset(a[..|a| - 1], b[..|b| - 1]);
    }
  }

  /**
   * The emitted lines partition the words (each appears exactly once),
   * every line is non-empty and sorted by `left`, and there are no lines
   * exactly when there are no words.
   */
  lemma LinesPartition(ws: seq<Word>)
    ensures multiset(Concat(Lines(ws))) == multiset(ws)
    ensures forall k :: 0 <= k < |Lines(ws)| ==> Lines(ws)[k] != [] && Sorted(ByLeft, Lines(ws)[k])
    ensures forall k :: 0 <= k < |Lines(ws)| ==> multiset(Lines(ws)[k]) == multiset(Runs(ws)[k])
    ensures Lines(ws) == [] <==> ws == []
  {
    RunsConcat(ws);
    RunsShape(ws);
    var runs := Runs(ws);
    var lines := Lines(ws);
    forall k | 0 <= k < |lines| ensures lines[k] != [] && Sorted(ByLeft, lines[k]) {
      assert lines[k] == SortBy(ByLeft, runs[k]);
      assert runs[k] != [];
      SortBySorted(ByLeft, runs[k]);
    }
    forall k | 0 <= k < |lines| ensures multiset(lines[k]) == multiset(runs[k]) {
      assert lines[k] == SortBy(ByLeft, runs[k]);
    }
    ConcatMultiset(lines, runs);
  }
}
