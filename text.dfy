/**
 * The string operations of Python that the recognizer relies on:
 * `str.strip`, `str.lower`, `in` on strings, `str.replace` of one
 * character, `str.split` on one character and `str.join`.
 */
module Text {

  /** The characters `str.strip` removes, restricted to the ASCII and Latin-1 range. */
  predicate IsSpace(c: char) {
    c == ' ' || c == '\t' || c == '\n' || c == '\r' || c == '\U{B}' || c == '\U{C}'
    || ('\U{1C}' <= c <= '\U{1F}') || c == '\U{85}' || c == '\U{A0}'
  }

  /** The end of the run of whitespace that starts at `lo`. */
  function BlankRunEnd(s: string, lo: nat): (a: nat)
    requires lo <= |s|
    ensures lo <= a <= |s|
    ensures forall i :: lo <= i < a ==> IsSpace(s[i])
    ensures a == |s| || !IsSpace(s[a])
    decreases |s| - lo
  {
    if lo < |s| && IsSpace(s[lo]) then BlankRunEnd(s, lo + 1) else lo
  }

  /** The start of the run of whitespace that ends at `hi`, going back no further than `lo`. */
  function BlankRunStart(s: string, lo: nat, hi: nat): (b: nat)
    requires lo <= hi <= |s|
    ensures lo <= b <= hi
    ensures forall i :: b <= i < hi ==> IsSpace(s[i])
    ensures b == lo || !IsSpace(s[b - 1])
    decreases hi
  {
    if lo < hi && IsSpace(s[hi - 1]) then BlankRunStart(s, lo, hi - 1) else hi
  }

  /** The characters of `s` before `a` and from `b` on are all whitespace. */
  predicate Margins(s: string, a: int, b: int)
    requires 0 <= a <= b <= |s|
  {
    (forall i :: 0 <= i < a ==> IsSpace(s[i])) && (forall i :: b <= i < |s| ==> IsSpace(s[i]))
  }

  /**
   * Python's `s.strip()`: the slice of `s` left once the whitespace at both
   * ends is cut off, which is empty exactly when `s` is all whitespace.
   */
  function Strip(s: string): (r: string)
    ensures exists a, b :: 0 <= a <= b <= |s| && r == s[a..b] && Margins(s, a, b)
    ensures r == [] || (!IsSpace(r[0]) && !IsSpace(r[|r| - 1]))
    ensures r == [] <==> forall i :: 0 <= i < |s| ==> IsSpace(s[i])
  {
    var a := BlankRunEnd(s, 0);
    var b := BlankRunStart(s, a, |s|);
    assert Margins(s, a, b);
    assert a < b ==> !IsSpace(s[a]);
    s[a..b]
  }

  /**
   * Python's `str.lower` on the ASCII and Latin-1 range: `A`..`Z` and
   * U+00C0..U+00DE except U+00D7 move up by 0x20; every other character
   * is left alone.
   */
  function LowerChar(c: char): char {
    if 'A' <= c <= 'Z' || ('\U{C0}' <= c <= '\U{DE}' && c != '\U{D7}') then
      (c as int + 32) as char
    else
      c
  }

  function Lower(s: string): (r: string)
    ensures |r| == |s| && forall i :: 0 <= i < |s| ==> r[i] == LowerChar(s[i])
  {
    seq(|s|, i requires 0 <= i < |s| => LowerChar(s[i]))
  }

  /** Lowering distributes over concatenation. */
  lemma LowerAppend(a: string, b: string)
    ensures Lower(a + b) == Lower(a) + Lower(b)
  {
    assert forall i :: 0 <= i < |a + b| ==> Lower(a + b)[i] == (Lower(a) + Lower(b))[i];
  }

  /** Lowering a lowered text changes nothing. */
  lemma LowerIdempotent(s: string)
    ensures Lower(Lower(s)) == Lower(s)
  {
    forall i | 0 <= i < |s| ensures Lower(Lower(s))[i] == Lower(s)[i] {
      assert Lower(Lower(s))[i] == LowerChar(LowerChar(s[i]));
    }
  }

  /** The header `DESCRIPCIÓN` lowers to the accented alias of Descripción. */
  lemma LowerExample(s: string)
    requires s == "DESCRIPCI\U{D3}N"
    ensures Lower(s) == "descripci\U{F3}n"
  {
    var r := Lower(s);
    assert r[0] == 'd' && r[1] == 'e' && r[2] == 's' && r[3] == 'c' && r[4] == 'r';
    assert r[5] == 'i' && r[6] == 'p' && r[7] == 'c' && r[8] == 'i' && r[9] == '\U{F3}' && r[10] == 'n';
  }

  predicate StartsWith(s: string, prefix: string) {
    |prefix| <= |s| && s[..|prefix|] == prefix
  }

  /** Python's `sub in s`. */
  predicate Contains(s: string, sub: string)
    decreases |s|
  {
    StartsWith(s, sub) || (s != [] && Contains(s[1..], sub))
  }

  /** Python's `s.replace(old, new)` for one-character `old` and `new`. */
  function ReplaceChar(s: string, from: char, to: char): (r: string)
    ensures |r| == |s|
    ensures forall i :: 0 <= i < |s| ==> r[i] == (if s[i] == from then to else s[i])
  {
    seq(|s|, i requires 0 <= i < |s| => if s[i] == from then to else s[i])
  }

  /** Python's `s.replace(c, '')`. */
  function RemoveChar(s: string, c: char): string
  {
    if s == [] then [] else (if s[0] == c then [] else [s[0]]) + RemoveChar(s[1..], c)
  }

  /** A sequence is its part before `j`, its element at `j` and its part after `j`. */
  lemma Around<T>(s: seq<T>, j: int)
    requires 0 <= j < |s|
    ensures s == s[..j] + [s[j]] + s[j + 1..]
  {
  }

  lemma {:induction false} RemoveCharAppend(a: string, b: string, c: char)
    ensures RemoveChar(a + b, c) == RemoveChar(a, c) + RemoveChar(b, c)
  {
    if a == [] {
      assert a + b == b;
    } else {
      assert (a + b)[0] == a[0];
      assert (a + b)[1..] == a[1..] + b;
      RemoveCharAppend(a[1..], b, c);
    }
  }

  lemma {:induction false} RemoveCharAbsent(s: string, c: char)
    requires c !in s
    ensures RemoveChar(s, c) == s
  {
    if s != [] {
      RemoveCharAbsent(s[1..], c);
    }
  }

  lemma {:induction false} RemoveCharGone(s: string, c: char)
    ensures c !in RemoveChar(s, c)
  {
    if s != [] {
      RemoveCharGone(s[1..], c);
    }
  }

  /** Python's `sep.join(parts)`. */
  function Join(sep: string, parts: seq<string>): string
  {
    if parts == [] then []
    else if |parts| == 1 then parts[0]
    else parts[0] + sep + Join(sep, parts[1..])
  }

  lemma {:induction false} JoinSnoc(sep: string, parts: seq<string>, last: string)
    requires parts != []
    ensures Join(sep, parts + [last]) == Join(sep, parts) + sep + last
  {
    if |parts| > 1 {
      assert (parts + [last])[1..] == parts[1..] + [last];
      JoinSnoc(sep, parts[1..], last);
    }
  }

  /**
   * Python's `s.split(c)`: the pieces between occurrences of `c`, so one
   * more piece than there are occurrences, and `[""]` for the empty string.
   */
  function Split(s: string, c: char): (r: seq<string>)
    ensures r != []
  {
    if s == [] then [[]]
    else
      var pieces := Split(s[..|s| - 1], c);
      if s[|s| - 1] == c then pieces + [[]]
      else pieces[..|pieces| - 1] + [pieces[|pieces| - 1] + [s[|s| - 1]]]
  }

  /** The index of the last occurrence of `c` in `s`, or -1. */
  function LastIndex(s: string, c: char): (j: int)
    ensures -1 <= j < |s|
    ensures j >= 0 ==> s[j] == c
    ensures forall i :: j < i < |s| ==> s[i] != c
  {
    if s == [] then -1
    else if s[|s| - 1] == c then |s| - 1
    else LastIndex(s[..|s| - 1], c)
  }

  lemma {:induction false} SplitWithout(s: string, c: char)
    requires c !in s
    ensures Split(s, c) == [s]
  {
    if s != [] {
      SplitWithout(s[..|s| - 1], c);
      assert s[..|s| - 1] + [s[|s| - 1]] == s;
    }
  }

  /** Splitting at the last separator: the text after it is the final piece. */
  lemma {:induction false} SplitAtLast(s: string, c: char)
    requires LastIndex(s, c) >= 0
    ensures Split(s, c) == Split(s[..LastIndex(s, c)], c) + [s[LastIndex(s, c) + 1..]]
  {
    var j := LastIndex(s, c);
    var n := |s|;
    if j < n - 1 {
      var t := s[..n - 1];
      assert LastIndex(t, c) == j;
      SplitAtLast(t, c);
      assert t[..j] == s[..j];
      assert t[j + 1..] + [s[n - 1]] == s[j + 1..];
    } else {
      assert s[..j] == s[..n - 1];
      assert s[j + 1..] == [];
    }
  }

  /** Joining the pieces with no separator deletes the separator. */
  lemma {:induction false} JoinSplit(s: string, c: char)
    ensures Join([], Split(s, c)) == RemoveChar(s, c)
  {
    if s != [] {
      var n := |s|;
      var t := s[..n - 1];
      var x := s[n - 1];
      var pieces := Split(t, c);
      JoinSplit(t, c);
      assert s == t + [x];
      RemoveCharAppend(t, [x], c);
      assert RemoveChar(s, c) == RemoveChar(t, c) + (if x == c then [] else [x]);
      if x == c {
        JoinSnoc([], pieces, []);
      } else if |pieces| == 1 {
        assert Split(s, c) == [pieces[0] + [x]];
      } else {
        var front := pieces[..|pieces| - 1];
        var back := pieces[|pieces| - 1];
        assert pieces == front + [back];
        assert Split(s, c) == front + [back + [x]];
        JoinSnoc([], front, back);
        JoinSnoc([], front, back + [x]);
      }
    }
  }

  /** There are exactly two pieces when the separator occurs exactly once. */
  lemma SplitCount(s: string, c: char)
    ensures |Split(s, c)| == 1 <==> c !in s
    ensures |Split(s, c)| == 2 <==> (c in s && c !in s[..LastIndex(s, c)])
  {
    if c !in s {
      SplitWithout(s, c);
    } else {
      var j := LastIndex(s, c);
      SplitAtLast(s, c);
      if c !in s[..j] {
        SplitWithout(s[..j], c);
      } else {
        var u := s[..j];
        SplitAtLast(u, c);
      }
    }
  }
}
