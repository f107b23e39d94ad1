/**
 * `normalizar_monto` (facturas-orc/procesador_facturas.py:43-56) and the
 * quantity conversion `int(float(s.replace(',', '.')))` (line 176).
 *
 * An exact decimal is represented by its value, a `real`.  The grammar
 * accepted by `Decimal(...)` and `float(...)` is restricted to plain
 * numerals: digits with at most one `.` and at least one digit.
 */
module Amounts {
  import opened Options
  import opened Text

  predicate IsDigit(c: char) {
    '0' <= c <= '9'
  }

  predicate AllDigits(s: string) {
    forall i :: 0 <= i < |s| ==> IsDigit(s[i])
  }

  function DigitValue(c: char): nat
    requires IsDigit(c)
  {
    c as int - '0' as int
  }

  /** The value of a string of decimal digits; the empty string is 0. */
  function DigitsValue(s: string): nat
    requires AllDigits(s)
  {
    if s == [] then 0 else DigitsValue(s[..|s| - 1]) * 10 + DigitValue(s[|s| - 1])
  }

  function Pow10(n: nat): (p: nat)
    ensures p >= 1
  {
    if n == 0 then 1 else 10 * Pow10(n - 1)
  }

  /** The value of the numeral `whole.frac`. */
  function PointValue(whole: string, frac: string): real
    requires AllDigits(whole) && AllDigits(frac)
  {
    DigitsValue(whole) as real + DigitsValue(frac) as real / Pow10(|frac|) as real
  }

  /**
   * The numerals accepted: only digits and `.`, at most one `.`, and at
   * least one digit (`"5"`, `"5."`, `".5"`, `"5.25"`; not `"."` or `""`).
   */
  ghost predicate IsNumeral(u: string) {
    && (forall i :: 0 <= i < |u| ==> IsDigit(u[i]) || u[i] == '.')
    && (forall i, k :: 0 <= i < k < |u| && u[i] == '.' ==> u[k] != '.')
    && (exists i :: 0 <= i < |u| && IsDigit(u[i]))
  }

  /** Python's `Decimal(u)` on unsigned plain numerals: `None` where it raises. */
  function ParseDecimal(u: string): (r: Option<real>)
    ensures r.Some? <==> IsNumeral(u)
    ensures r.Some? ==> r.value >= 0.0
  {
    var j := LastIndex(u, '.');
    if j < 0 then
      assert forall i :: 0 <= i < |u| ==> u[i] != '.';
      if u != [] && AllDigits(u) then
        assert IsDigit(u[0]);
        Some(DigitsValue(u) as real)
      else
        None
    else
      var whole, frac := u[..j], u[j + 1..];
      assert forall i :: 0 <= i < j ==> u[i] == whole[i];
      assert forall i :: j < i < |u| ==> u[i] == frac[i - j - 1];
      if AllDigits(whole) && AllDigits(frac) && |whole| + |frac| > 0 then
        assert IsDigit(u[if |whole| > 0 then 0 else j + 1]);
        Some(PointValue(whole, frac))
      else
        assert !IsNumeral(u) by {
          if !AllDigits(whole) {
            var i :| 0 <= i < |whole| && !IsDigit(whole[i]);
            assert u[i] == whole[i];
          } else if !AllDigits(frac) {
            var i :| 0 <= i < |frac| && !IsDigit(frac[i]);
            assert u[i + j + 1] == frac[i];
          }
        }
        None
  }

  /**
   * The string rewrite of `normalizar_monto` (lines 49-52): delete every
   * `.`, turn every `,` into `.`, and when that leaves more than two pieces
   * around `.`, glue all but the last piece into the integer part.
   */
  function Rewrite(s: string): string {
    Reassemble(ReplaceChar(RemoveChar(s, '.'), ',', '.'))
  }

  /** Lines 50-52: keep only the last `.` of `u`. */
  function Reassemble(u: string): string {
    var parts := Split(u, '.');
    if |parts| > 2 then Join([], parts[..|parts| - 1]) + "." + parts[|parts| - 1]
    else u
  }

  /** `normalizar_monto(s)`: `None` where `Decimal(...)` raises. */
  function Normalize(s: string): Option<real> {
    ParseDecimal(Rewrite(s))
  }

  /**
   * The rewrite stated directly: every `.` is dropped, every `,` but the
   * last is dropped, and the last `,` becomes the decimal point.
   */
  function CanonicalAmount(s: string): string {
    LastCommaToPoint(RemoveChar(s, '.'))
  }

  function LastCommaToPoint(t: string): string {
    var j := LastIndex(t, ',');
    if j < 0 then t else RemoveChar(t[..j], ',') + "." + t[j + 1..]
  }

  lemma RemoveAfterReplace(t: string)
    requires '.' !in t
    ensures RemoveChar(ReplaceChar(t, ',', '.'), '.') == RemoveChar(t, ',')
    decreases |t|
  {
    if t != [] {
      assert ReplaceChar(t, ',', '.')[1..] == ReplaceChar(t[1..], ',', '.');
      RemoveAfterReplace(t[1..]);
    }
  }

  lemma {:induction false} RewriteIsCanonical(s: string)
    ensures Rewrite(s) == CanonicalAmount(s)
  {
    RemoveCharGone(s, '.');
    ReassembleReplaced(RemoveChar(s, '.'));
  }

  lemma {:induction false} ReassembleReplaced(t: string)
    requires '.' !in t
    ensures Reassemble(ReplaceChar(t, ',', '.')) == LastCommaToPoint(t)
  {
    var u := ReplaceChar(t, ',', '.');
    var j := LastIndex(t, ',');
    assert LastIndex(u, '.') == j by {
      LastIndexRelabel(t, u, ',', '.');
    }
    if j >= 0 {
      assert u[..j] == ReplaceChar(t[..j], ',', '.');
      assert u[j + 1..] == t[j + 1..];
      SplitAtLast(u, '.');
      if ',' in t[..j] {
        ReassembleMany(t, u, j);
      } else {
        ReassembleOne(t, u, j);
      }
    } else {
      SplitCount(u, '.');
      assert u == t;
    }
  }

  lemma {:induction false} ReassembleMany(t: string, u: string, j: int)
    requires '.' !in t && u == ReplaceChar(t, ',', '.')
    requires 0 <= j < |t| && j == LastIndex(u, '.') && ',' in t[..j]
    requires u[..j] == ReplaceChar(t[..j], ',', '.') && u[j + 1..] == t[j + 1..]
    requires Split(u, '.') == Split(u[..j], '.') + [u[j + 1..]]
    ensures Reassemble(u) == RemoveChar(t[..j], ',') + "." + t[j + 1..]
  {
    var parts := Split(u, '.');
    var k :| 0 <= k < j && t[..j][k] == ',';
    assert u[..j][k] == '.';
    SplitCount(u[..j], '.');
    assert |parts| > 2;
    assert parts[..|parts| - 1] == Split(u[..j], '.');
    JoinSplit(u[..j], '.');
    RemoveAfterReplace(t[..j]);
  }

  lemma {:induction false} ReassembleOne(t: string, u: string, j: int)
    requires '.' !in t && u == ReplaceChar(t, ',', '.')
    requires 0 <= j < |t| && j == LastIndex(u, '.') && ',' !in t[..j]
    requires u[..j] == ReplaceChar(t[..j], ',', '.') && u[j + 1..] == t[j + 1..]
    requires Split(u, '.') == Split(u[..j], '.') + [u[j + 1..]]
    ensures Reassemble(u) == RemoveChar(t[..j], ',') + "." + t[j + 1..]
  {
    var before := t[..j];
    var after := t[j + 1..];
    assert '.' !in before;
    assert u[..j] == before;
    SplitWithout(before, '.');
    assert Split(u, '.') == [before, after];
    assert Reassemble(u) == u;
    RemoveCharAbsent(before, ',');
    assert u[j] == '.';
    Around(u, j);
  }

  /** Two strings whose characters match `a` at the same places agree on its last place. */
  lemma LastIndexRelabel(t: string, u: string, a: char, b: char)
    requires |t| == |u|
    requires forall i :: 0 <= i < |t| ==> (u[i] == b <==> t[i] == a)
    ensures LastIndex(u, b) == LastIndex(t, a)
    decreases |t|
  {
    if t != [] {
      LastIndexRelabel(t[..|t| - 1], u[..|u| - 1], a, b);
    }
  }

  /** `normalizar_monto` returns a value exactly when the canonical form is a numeral. */
  lemma NormalizeDefined(s: string)
    ensures Normalize(s).Some? <==> IsNumeral(CanonicalAmount(s))
    ensures Normalize(s).Some? ==> Normalize(s).value >= 0.0
  {
    RewriteIsCanonical(s);
  }

  /** Every `.` is a thousands separator: deleting them beforehand changes nothing. */
  lemma NormalizeIgnoresDots(s: string)
    ensures Normalize(RemoveChar(s, '.')) == Normalize(s)
  {
    RemoveCharGone(s, '.');
    RemoveCharAbsent(RemoveChar(s, '.'), '.');
  }

  lemma {:induction false} LastIndexAfter(a: string, c: char, b: string)
    requires c !in b
    ensures LastIndex(a + [c] + b, c) == |a|
  {
    if b != [] {
      var u := a + [c] + b;
      assert u[..|u| - 1] == a + [c] + b[..|b| - 1];
      LastIndexAfter(a, c, b[..|b| - 1]);
    }
  }

  /** A numeral `whole.frac` parses to its value. */
  lemma {:induction false} ParsePoint(whole: string, frac: string)
    requires AllDigits(whole) && AllDigits(frac) && |whole| + |frac| > 0
    ensures ParseDecimal(whole + "." + frac) == Some(PointValue(whole, frac))
  {
    var u := whole + "." + frac;
    assert '.' !in frac by {
      assert forall i :: 0 <= i < |frac| ==> IsDigit(frac[i]);
    }
    LastIndexAfter(whole, '.', frac);
    assert u[..|whole|] == whole && u[|whole| + 1..] == frac;
  }

  /** A token `whole,frac` whose fraction has no `,` keeps `whole` without its commas. */
  lemma {:induction false} CommaPoint(whole: string, frac: string)
    requires ',' !in frac
    ensures LastCommaToPoint(whole + "," + frac) == RemoveChar(whole, ',') + "." + frac
  {
    var t := whole + "," + frac;
    LastIndexAfter(whole, ',', frac);
    assert t[..|whole|] == whole && t[|whole| + 1..] == frac;
  }

  /** A string of digits parses to its value. */
  lemma {:induction false} ParseDigits(u: string)
    requires AllDigits(u) && u != []
    ensures ParseDecimal(u) == Some(DigitsValue(u) as real)
  {
    assert '.' !in u by {
      assert forall i :: 0 <= i < |u| ==> IsDigit(u[i]);
    }
  }

  lemma {:induction false} RemoveJoined(groups: seq<string>, c: char)
    requires forall k :: 0 <= k < |groups| ==> c !in groups[k]
    ensures RemoveChar(Join([c], groups), c) == Join([], groups)
  {
    if |groups| == 1 {
      RemoveCharAbsent(groups[0], c);
    } else if |groups| > 1 {
      RemoveJoined(groups[1..], c);
      RemoveCharAppend(groups[0] + [c], Join([c], groups[1..]), c);
      RemoveCharAppend(groups[0], [c], c);
      RemoveCharAbsent(groups[0], c);
    }
  }

  lemma {:induction false} JoinedDigits(groups: seq<string>)
    requires forall k :: 0 <= k < |groups| ==> AllDigits(groups[k])
    ensures AllDigits(Join([], groups))
  {
    if |groups| > 1 {
      JoinedDigits(groups[1..]);
    }
  }

  lemma NoSeparator(s: string, c: char)
    requires AllDigits(s) && !IsDigit(c)
    ensures c !in s
  {
    assert forall i :: 0 <= i < |s| ==> IsDigit(s[i]);
  }

  /**
   * A Spanish-style amount: digit groups separated by `.` as thousands
   * separators and a decimal comma, e.g. `"1.234.567,89"`.
   */
  lemma {:induction false} NormalizeDotGroups(groups: seq<string>, frac: string)
    requires groups != [] && forall k :: 0 <= k < |groups| ==> AllDigits(groups[k])
    requires AllDigits(frac) && |Join([], groups)| + |frac| > 0
    ensures AllDigits(Join([], groups))
    ensures Normalize(Join(".", groups) + "," + frac) == Some(PointValue(Join([], groups), frac))
  {
    var whole := Join([], groups);
    forall k | 0 <= k < |groups| ensures '.' !in groups[k] { NoSeparator(groups[k], '.'); }
    RemoveJoined(groups, '.');
    JoinedDigits(groups);
    NoSeparator(frac, '.');
    NoSeparator(frac, ',');
    NoSeparator(whole, ',');
    RemoveCharAppend(Join(".", groups) + ",", frac, '.');
    RemoveCharAppend(Join(".", groups), ",", '.');
    RemoveCharAbsent(frac, '.');
    assert RemoveChar(",", '.') == ",";
    assert RemoveChar(Join(".", groups) + "," + frac, '.') == whole + "," + frac;
    RewriteIsCanonical(Join(".", groups) + "," + frac);
    CommaPoint(whole, frac);
    RemoveCharAbsent(whole, ',');
    assert CanonicalAmount(Join(".", groups) + "," + frac) == whole + "." + frac;
    ParsePoint(whole, frac);
  }

  /**
   * Several commas (a mis-split token such as `"1,234,56"`): all but the
   * last are dropped and the last is the decimal point.
   */
  lemma {:induction false} NormalizeCommaGroups(groups: seq<string>, frac: string)
    requires groups != [] && forall k :: 0 <= k < |groups| ==> AllDigits(groups[k])
    requires AllDigits(frac) && |Join([], groups)| + |frac| > 0
    ensures AllDigits(Join([], groups))
    ensures Normalize(Join(",", groups) + "," + frac) == Some(PointValue(Join([], groups), frac))
  {
    var whole := Join([], groups);
    var t := Join(",", groups) + "," + frac;
    forall k | 0 <= k < |groups| ensures ',' !in groups[k] && '.' !in groups[k] {
      NoSeparator(groups[k], ',');
      NoSeparator(groups[k], '.');
    }
    RemoveJoined(groups, ',');
    JoinedDigits(groups);
    NoSeparator(frac, ',');
    assert '.' !in t by {
      NoSeparator(frac, '.');
      JoinedNoChar(groups, ',', '.');
    }
    RemoveCharAbsent(t, '.');
    RewriteIsCanonical(t);
    CommaPoint(Join(",", groups), frac);
    ParsePoint(whole, frac);
  }

  lemma {:induction false} JoinedNoChar(groups: seq<string>, sep: char, c: char)
    requires sep != c && forall k :: 0 <= k < |groups| ==> c !in groups[k]
    ensures c !in Join([sep], groups)
  {
    if |groups| > 1 {
      JoinedNoChar(groups[1..], sep, c);
    }
  }

  lemma RemovePoint(whole: string, frac: string)
    requires AllDigits(whole) && AllDigits(frac)
    ensures RemoveChar(whole + "." + frac, '.') == whole + frac
  {
    var head := whole + ".";
    NoSeparator(whole, '.');
    NoSeparator(frac, '.');
    RemoveCharAbsent(whole, '.');
    RemoveCharAbsent(frac, '.');
    RemoveCharAppend(whole, ".", '.');
    assert RemoveChar(".", '.') == [] by {
      assert "."[1..] == [];
    }
    assert RemoveChar(head, '.') == whole;
    RemoveCharAppend(head, frac, '.');
  }

  /**
   * A point used as the only decimal separator is deleted, so the value is
   * scaled up: `"78.90"` is 7890, not the 78.90 the docstring at line 46
   * announces.
   */
  lemma {:induction false} NormalizePointQuirk(whole: string, frac: string)
    requires AllDigits(whole) && AllDigits(frac) && |whole| + |frac| > 0
    ensures Normalize(whole + "." + frac) == Some(DigitsValue(whole + frac) as real)
  {
    var s := whole + "." + frac;
    var digits := whole + frac;
    RemovePoint(whole, frac);
    assert AllDigits(digits) by {
      assert forall i :: 0 <= i < |digits| ==> digits[i] == (if i < |whole| then whole[i] else frac[i - |whole|]);
    }
    NoSeparator(digits, ',');
    RewriteIsCanonical(s);
    assert CanonicalAmount(s) == digits;
    ParseDigits(digits);
  }

  // The literal cases.  Each token is passed as a parameter equal to the
  // literal, so that the verifier does not try to evaluate the whole
  // rewrite on the literal itself.

  lemma Value1234_56()
    ensures PointValue("1234", "56") == 1234.56
  {
    assert DigitsValue("1234") == 1234 by {
      assert "1234"[..3] == "123" && "123"[..2] == "12" && "12"[..1] == "1";
    }
    assert DigitsValue("56") == 56 by { assert "56"[..1] == "5"; }
    assert Pow10(2) == 100;
  }

  lemma NormalizeExampleThousands(token: string)
    requires token == "1.234,56"
    ensures Normalize(token) == Some(1234.56)
  {
    NormalizeDotGroups(["1", "234"], "56");
    assert Join(".", ["1", "234"]) + "," + "56" == token;
    assert Join([], ["1", "234"]) == "1234";
    Value1234_56();
  }

  lemma NormalizeExampleCommas(token: string)
    requires token == "1,234,56"
    ensures Normalize(token) == Some(1234.56)
  {
    NormalizeCommaGroups(["1", "234"], "56");
    assert Join(",", ["1", "234"]) + "," + "56" == token;
    assert Join([], ["1", "234"]) == "1234";
    Value1234_56();
  }

  lemma Value78_90()
    ensures PointValue("78", "90") == 78.90
  {
    assert DigitsValue("78") == 78 by { assert "78"[..1] == "7"; }
    assert DigitsValue("90") == 90 by { assert "90"[..1] == "9"; }
    assert Pow10(2) == 100;
  }

  lemma NormalizeExampleComma(token: string)
    requires token == "78,90"
    ensures Normalize(token) == Some(78.90)
  {
    NormalizeDotGroups(["78"], "90");
    assert Join(".", ["78"]) + "," + "90" == token;
    assert Join([], ["78"]) == "78";
    Value78_90();
  }

  lemma SevenDigits()
    ensures DigitsValue("1234567") == 1234567
  {
    assert "1234567"[..6] == "123456" && "123456"[..5] == "12345";
    assert "12345"[..4] == "1234" && "1234"[..3] == "123";
    assert "123"[..2] == "12" && "12"[..1] == "1";
  }

  lemma Value1234567_89()
    ensures PointValue("1234567", "89") == 1234567.89
  {
    SevenDigits();
    assert DigitsValue("89") == 89 by { assert "89"[..1] == "8"; }
    assert Pow10(2) == 100;
  }

  lemma NormalizeExampleMillions(token: string)
    requires token == "1.234.567,89"
    ensures Normalize(token) == Some(1234567.89)
  {
    var groups := ["1", "234", "567"];
    NormalizeDotGroups(groups, "89");
    MillionsGroups(groups);
    assert "1.234.567" + "," + "89" == token;
    Value1234567_89();
  }

  lemma MillionsGroups(groups: seq<string>)
    requires groups == ["1", "234", "567"]
    ensures Join(".", groups) == "1.234.567" && Join([], groups) == "1234567"
  {
    assert groups[1..] == ["234", "567"];
    assert Join(".", ["234", "567"]) == "234.567";
    assert Join([], ["234", "567"]) == "234567";
  }

  lemma Value7890()
    ensures DigitsValue("78" + "90") == 7890
  {
    assert "78" + "90" == "7890";
    assert "7890"[..3] == "789" && "789"[..2] == "78" && "78"[..1] == "7";
  }

  lemma NormalizeExamplePoint(token: string)
    requires token == "78.90"
    ensures Normalize(token) == Some(7890.0)
  {
    NormalizePointQuirk("78", "90");
    assert "78" + "." + "90" == token;
    Value7890();
  }

  lemma NormalizeExampleWord(token: string)
    requires token == "Total"
    ensures Normalize(token) == None
  {
    RewriteIsCanonical(token);
    assert '.' !in token && ',' !in token;
    RemoveCharAbsent(token, '.');
    assert !IsDigit(token[0]) && !IsDigit(token[1]) && !IsDigit(token[2]);
    assert !IsDigit(token[3]) && !IsDigit(token[4]);
  }

  lemma NormalizeExampleEmpty(token: string)
    requires token == ""
    ensures Normalize(token) == None
  {
    RewriteIsCanonical(token);
  }

  lemma NormalizeExampleLoneComma(token: string)
    requires token == ","
    ensures Normalize(token) == None
  {
    RewriteIsCanonical(token);
    RemoveCharAbsent(token, '.');
    assert token == [] + "," + [];
    CommaPoint([], []);
  }

  /**
   * `int(float(s.replace(',', '.')))` on plain numerals: the numeral's value
   * truncated toward zero, or `None` where `float(...)` raises.
   */
  function Quantity(s: string): (r: Option<int>)
    ensures r.Some? <==> IsNumeral(ReplaceChar(s, ',', '.'))
    ensures r.Some? ==>
      var v := ParseDecimal(ReplaceChar(s, ',', '.')).value;
      0 <= r.value && r.value as real <= v < r.value as real + 1.0
  {
    match ParseDecimal(ReplaceChar(s, ',', '.'))
    case Some(v) => Some(v.Floor)
    case None => None
  }
}
