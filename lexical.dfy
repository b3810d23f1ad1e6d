/**
 * Character classes, numerals and splitting: the pieces of .NET string and
 * regex behaviour that the definition language and the expression language use.
 */
module Lexical {

  /** A character of the regex class `[0-9]`. */
  predicate IsDigit(c: char) { '0' <= c <= '9' }

  /**
   * A character of the regex class `[A-z]`: code points 0x41 to 0x7A, which
   * besides the letters admits the six characters `[`, `\`, `]`, `^`, `_` and the backtick.
   */
  predicate IsNameChar(c: char) { 'A' <= c <= 'z' }

  /** The text matches `[0-9]+`. */
  predicate IsDigits(s: string) {
    |s| > 0 && forall i :: 0 <= i < |s| ==> IsDigit(s[i])
  }

  /** The text matches `[A-z]+` (the alphabetic regex of the source). */
  predicate IsName(s: string) {
    |s| > 0 && forall i :: 0 <= i < |s| ==> IsNameChar(s[i])
  }

  function DigitValue(c: char): (d: nat)
    requires IsDigit(c)
    ensures d < 10
  {
    c as int - '0' as int
  }

  /** The decimal value of a string of digits, most significant first. */
  function DigitsValue(s: string): nat
    requires forall i :: 0 <= i < |s| ==> IsDigit(s[i])
  {
    if s == [] then 0
    else DigitsValue(s[..|s| - 1]) * 10 + DigitValue(s[|s| - 1])
  }

  function Pow10(n: nat): (p: nat)
    ensures p >= 1
  {
    if n == 0 then 1 else 10 * Pow10(n - 1)
  }

  /** Index of the first occurrence of `c`, or `|s|` when there is none. */
  function FindChar(s: string, c: char): (k: nat)
    ensures k <= |s|
    ensures k < |s| ==> s[k] == c
    ensures forall i :: 0 <= i < k ==> s[i] != c
  {
    if s == [] then 0
    else if s[0] == c then 0
    else 1 + FindChar(s[1..], c)
  }

  /** The text matches `[0-9]+(\.[0-9]+)?`. */
  predicate IsUnsignedNumeral(u: string) {
    var k := FindChar(u, '.');
    if k == |u| then IsDigits(u) else IsDigits(u[..k]) && IsDigits(u[k + 1..])
  }

  /** The text matches `-?[0-9]+(\.[0-9]+)?`, the numeral of both languages. */
  predicate IsNumeral(s: string) {
    if |s| > 0 && s[0] == '-' then IsUnsignedNumeral(s[1..]) else IsUnsignedNumeral(s)
  }

  function UnsignedNumeralValue(u: string): (v: real)
    requires IsUnsignedNumeral(u)
    ensures v >= 0.0
  {
    var k := FindChar(u, '.');
    if k == |u| then DigitsValue(u) as real
    else DigitsValue(u[..k]) as real + DigitsValue(u[k + 1..]) as real / Pow10(|u| - k - 1) as real
  }

  /** The exact decimal value of a numeral (what `double.Parse` approximates). */
  function NumeralValue(s: string): real
    requires IsNumeral(s)
  {
    if |s| > 0 && s[0] == '-' then -UnsignedNumeralValue(s[1..]) else UnsignedNumeralValue(s)
  }

  /** Decimal rendering of a natural number, as `int.ToString()` gives it. */
  function NatToString(n: nat): (s: string)
    ensures IsDigits(s)
  {
    if n < 10 then [('0' as int + n) as char]
    else NatToString(n / 10) + [('0' as int + n % 10) as char]
  }

  lemma {:induction false} NatToStringRoundTrip(n: nat)
    ensures DigitsValue(NatToString(n)) == n
  {
    var s := NatToString(n);
    if n >= 10 {
      NatToStringRoundTrip(n / 10);
      assert s[..|s| - 1] == NatToString(n / 10);
    }
  }

  /** The separators of `s`, in order. */
  function Separators(s: string, isSep: char -> bool): seq<char>
  {
    if s == [] then []
    else Separators(s[..|s| - 1], isSep) + (if isSep(s[|s| - 1]) then [s[|s| - 1]] else [])
  }

  /**
   * `String.Split` on every character satisfying `isSep`: the maximal pieces
   * between separators, empty pieces included, so one piece more than separators.
   */
  function SplitOn(s: string, isSep: char -> bool): (parts: seq<string>)
    ensures |parts| == |Separators(s, isSep)| + 1
  {
    if s == [] then [""]
    else
      var init := SplitOn(s[..|s| - 1], isSep);
      var c := s[|s| - 1];
      if isSep(c) then init + [""]
      else init[..|init| - 1] + [init[|init| - 1] + [c]]
  }

  /** The inverse of splitting: the pieces with the separators put back between them. */
  function Interleave(parts: seq<string>, seps: seq<char>): string
    requires |parts| == |seps| + 1
  {
    if seps == [] then parts[0]
    else Interleave(parts[..|parts| - 1], seps[..|seps| - 1]) + [seps[|seps| - 1]] + parts[|parts| - 1]
  }

  /** Splitting loses nothing: the pieces and the separators rebuild the text. */
  lemma {:induction false} SplitOnRoundTrip(s: string, isSep: char -> bool)
    ensures Interleave(SplitOn(s, isSep), Separators(s, isSep)) == s
  {
    if s != [] {
      var s' := s[..|s| - 1];
      var c := s[|s| - 1];
      SplitOnRoundTrip(s', isSep);
      var init := SplitOn(s', isSep);
      var seps := Separators(s', isSep);
      assert s' + [c] == s;
      SplitOnSnoc(s', c, isSep);
      if isSep(c) {
        assert SplitOn(s, isSep) == init + [""] && Separators(s, isSep) == seps + [c];
        InterleaveNewPiece(init, seps, c);
      } else {
        assert SplitOn(s, isSep) == init[..|init| - 1] + [init[|init| - 1] + [c]] && Separators(s, isSep) == seps;
        InterleaveExtendLast(init, seps, c);
      }
    }
  }

  /** A separator and an empty piece after the last piece add the separator to the text. */
  lemma InterleaveNewPiece(parts: seq<string>, seps: seq<char>, c: char)
    requires |parts| == |seps| + 1
    ensures Interleave(parts + [""], seps + [c]) == Interleave(parts, seps) + [c]
  {
    assert (parts + [""])[..|parts|] == parts;
    assert (seps + [c])[..|seps|] == seps;
  }

  /** A character appended to the last piece is appended to the text. */
  lemma InterleaveExtendLast(parts: seq<string>, seps: seq<char>, c: char)
    requires |parts| == |seps| + 1
    ensures Interleave(parts[..|parts| - 1] + [parts[|parts| - 1] + [c]], seps) == Interleave(parts, seps) + [c]
  {
    var longer := parts[..|parts| - 1] + [parts[|parts| - 1] + [c]];
    if seps != [] {
      assert longer[..|longer| - 1] == parts[..|parts| - 1];
      var front := Interleave(parts[..|parts| - 1], seps[..|seps| - 1]) + [seps[|seps| - 1]];
      assert Interleave(longer, seps) == front + (parts[|parts| - 1] + [c]);
      assert Interleave(parts, seps) == front + parts[|parts| - 1];
    }
  }

  /** No piece of a split contains a separator. */
  lemma {:induction false} SplitOnPiecesHaveNoSeparator(s: string, isSep: char -> bool, k: nat, i: nat)
    requires k < |SplitOn(s, isSep)| && i < |SplitOn(s, isSep)[k]|
    ensures !isSep(SplitOn(s, isSep)[k][i])
  {
    if s != [] {
      var s' := s[..|s| - 1];
      var init := SplitOn(s', isSep);
      if isSep(s[|s| - 1]) {
        if k < |init| { SplitOnPiecesHaveNoSeparator(s', isSep, k, i); }
      } else if k < |init| - 1 || i < |init[|init| - 1]| {
        SplitOnPiecesHaveNoSeparator(s', isSep, k, i);
      }
    }
  }

  /** Every separator satisfies the separator test. */
  lemma {:induction false} SeparatorsSatisfy(s: string, isSep: char -> bool)
    ensures forall i :: 0 <= i < |Separators(s, isSep)| ==> isSep(Separators(s, isSep)[i])
  {
    if s != [] {
      SeparatorsSatisfy(s[..|s| - 1], isSep);
    }
  }

  /** A property of every character of the text holds of every character of every piece. */
  lemma {:induction false} SplitOnPreserves(s: string, isSep: char -> bool, p: char -> bool, k: nat, i: nat)
    requires forall j :: 0 <= j < |s| ==> p(s[j])
    requires k < |SplitOn(s, isSep)| && i < |SplitOn(s, isSep)[k]|
    ensures p(SplitOn(s, isSep)[k][i])
  {
    if s != [] {
      var s' := s[..|s| - 1];
      var init := SplitOn(s', isSep);
      if isSep(s[|s| - 1]) {
        if k < |init| { SplitOnPreserves(s', isSep, p, k, i); }
      } else if k < |init| - 1 || i < |init[|init| - 1]| {
        SplitOnPreserves(s', isSep, p, k, i);
      }
    }
  }

  /** A text without separators is a single piece. */
  lemma {:induction false} SplitOnNoSeparator(s: string, isSep: char -> bool)
    requires forall i :: 0 <= i < |s| ==> !isSep(s[i])
    ensures SplitOn(s, isSep) == [s] && Separators(s, isSep) == []
  {
    if s != [] {
      SplitOnNoSeparator(s[..|s| - 1], isSep);
      assert s[..|s| - 1] + [s[|s| - 1]] == s;
    }
  }

  /** Splitting one more character: the last piece grows, or a new empty piece starts. */
  lemma SplitOnSnoc(s: string, c: char, isSep: char -> bool)
    ensures SplitOn(s + [c], isSep) ==
      (var init := SplitOn(s, isSep);
       if isSep(c) then init + [""] else init[..|init| - 1] + [init[|init| - 1] + [c]])
    ensures Separators(s + [c], isSep) == Separators(s, isSep) + (if isSep(c) then [c] else [])
  {
    assert (s + [c])[..|s|] == s;
  }

  /** One more character keeps the complete pieces; a separator also completes the last one. */
  lemma SplitOnGrows(t: string, c: char, isSep: char -> bool)
    ensures var p, q := SplitOn(t, isSep), SplitOn(t + [c], isSep);
      |p| <= |q| && p[..|p| - 1] == q[..|p| - 1] && (isSep(c) ==> |p| < |q| && p == q[..|p|])
  {
    SplitOnSnoc(t, c, isSep);
  }

  /**
   * Splitting a longer text: all complete pieces of a prefix (all but its last piece)
   * are pieces of the whole text, at the same positions.
   */
  lemma {:induction false} SplitOnPrefix(s: string, j: nat, isSep: char -> bool)
    requires j <= |s|
    ensures var p := SplitOn(s[..j], isSep);
      |p| <= |SplitOn(s, isSep)| && p[..|p| - 1] == SplitOn(s, isSep)[..|p| - 1]
    ensures var p := SplitOn(s[..j], isSep);
      j < |s| && isSep(s[j]) ==> |p| < |SplitOn(s, isSep)| && p == SplitOn(s, isSep)[..|p|]
    decreases |s| - j
  {
    if j < |s| {
      SplitOnPrefix(s, j + 1, isSep);
      assert s[..j + 1] == s[..j] + [s[j]];
      SplitOnGrows(s[..j], s[j], isSep);
      PiecesPrefixStep(SplitOn(s[..j], isSep), SplitOn(s[..j + 1], isSep), SplitOn(s, isSep), isSep(s[j]));
    } else {
      assert s[..j] == s;
    }
  }

  /**
   * The step of `SplitOnPrefix` on the pieces alone: `p` agrees with `q` on its
   * complete pieces (on all of them after a separator), and `q` with `r`.
   */
  lemma PiecesPrefixStep(p: seq<string>, q: seq<string>, r: seq<string>, sep: bool)
    requires 1 <= |p| <= |q| <= |r|
    requires p[..|p| - 1] == q[..|p| - 1] && (sep ==> |p| < |q| && p == q[..|p|])
    requires q[..|q| - 1] == r[..|q| - 1]
    ensures p[..|p| - 1] == r[..|p| - 1]
    ensures sep ==> |p| < |r| && p == r[..|p|]
  {
    assert q[..|p| - 1] == q[..|q| - 1][..|p| - 1];
    assert r[..|p| - 1] == r[..|q| - 1][..|p| - 1];
    if sep {
      assert q[..|p|] == q[..|q| - 1][..|p|];
      assert r[..|p|] == r[..|q| - 1][..|p|];
    }
  }

}
