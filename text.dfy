/** String helpers shared by the models: JavaScript's global `replace`,
    `split` on one separator character, and decimal rendering of integers
    (the `n + 'b'` string coercion). */
module Text {

  /** Lower-cases an ASCII letter; every other character is returned as is. */
  function LowerAscii(c: char): (r: char)
    ensures 'A' <= c <= 'Z' ==> r as int == c as int + 32
    ensures !('A' <= c <= 'Z') ==> r == c
  {
    if 'A' <= c <= 'Z' then (c as int + 32) as char else c
  }

  /** Character equality, optionally ignoring ASCII case (the `i` regex flag). */
  predicate SameChar(a: char, b: char, ignoreCase: bool)
  {
    if ignoreCase then LowerAscii(a) == LowerAscii(b) else a == b
  }

  /** `pat` occurs at the start of `s`. */
  predicate MatchesAt(pat: string, s: string, ignoreCase: bool)
  {
    |pat| <= |s| && forall k :: 0 <= k < |pat| ==> SameChar(pat[k], s[k], ignoreCase)
  }

  /** `s.replace(/pat/g, rep)` (with the `i` flag when `ignoreCase`): scans left
      to right and replaces each non-overlapping occurrence of `pat`. */
  function ReplaceAll(s: string, pat: string, rep: string, ignoreCase: bool): string
    requires |pat| > 0
    decreases |s|
  {
    if |s| == 0 then ""
    else if MatchesAt(pat, s, ignoreCase) then rep + ReplaceAll(s[|pat|..], pat, rep, ignoreCase)
    else [s[0]] + ReplaceAll(s[1..], pat, rep, ignoreCase)
  }

  /** A pattern that starts with `&` leaves a string with no `&` unchanged. */
  lemma {:induction false} ReplaceAllNoAmp(s: string, pat: string, rep: string, ignoreCase: bool)
    requires |pat| > 0 && pat[0] == '&'
    requires '&' !in s
    ensures ReplaceAll(s, pat, rep, ignoreCase) == s
    decreases |s|
  {
    if |s| > 0 {
      assert s[0] != '&' && !MatchesAt(pat, s, ignoreCase);
      ReplaceAllNoAmp(s[1..], pat, rep, ignoreCase);
      assert [s[0]] + s[1..] == s;
    }
  }

  /** A replacement no longer than its pattern never lengthens the string. */
  lemma {:induction false} ReplaceAllShrinks(s: string, pat: string, rep: string, ignoreCase: bool)
    requires |pat| > 0 && |rep| <= |pat|
    ensures |ReplaceAll(s, pat, rep, ignoreCase)| <= |s|
    decreases |s|
  {
    if |s| > 0 {
      if MatchesAt(pat, s, ignoreCase) {
        ReplaceAllShrinks(s[|pat|..], pat, rep, ignoreCase);
      } else {
        ReplaceAllShrinks(s[1..], pat, rep, ignoreCase);
      }
    }
  }

  /** Text without `&` passes through a `&`-pattern replace untouched, and so
      does what follows it. */
  lemma {:induction false} ReplaceAllSkipsPlain(w: string, rest: string, pat: string, rep: string, ignoreCase: bool)
    requires |pat| > 0 && pat[0] == '&'
    requires '&' !in w
    ensures ReplaceAll(w + rest, pat, rep, ignoreCase) == w + ReplaceAll(rest, pat, rep, ignoreCase)
    decreases |w|
  {
    if |w| > 0 {
      assert (w + rest)[0] == w[0];
      assert !MatchesAt(pat, w + rest, ignoreCase);
      assert (w + rest)[1..] == w[1..] + rest;
      ReplaceAllSkipsPlain(w[1..], rest, pat, rep, ignoreCase);
      assert [w[0]] + (w[1..] + ReplaceAll(rest, pat, rep, ignoreCase)) == w + ReplaceAll(rest, pat, rep, ignoreCase);
    } else {
      assert w + rest == rest;
    }
  }

  /** An occurrence of the pattern at the front is replaced. */
  lemma ReplaceAllAtMatch(rest: string, pat: string, rep: string, ignoreCase: bool)
    requires |pat| > 0
    ensures ReplaceAll(pat + rest, pat, rep, ignoreCase) == rep + ReplaceAll(rest, pat, rep, ignoreCase)
  {
    assert MatchesAt(pat, pat + rest, ignoreCase) by {
      forall k | 0 <= k < |pat| ensures SameChar(pat[k], (pat + rest)[k], ignoreCase) {
        assert (pat + rest)[k] == pat[k];
      }
    }
    assert (pat + rest)[|pat|..] == rest;
  }

  /** An entity `e` that starts with `&` like the pattern but differs from it in
      its second character is kept whole by the replace. */
  lemma ReplaceAllSkipsEntity(e: string, rest: string, pat: string, rep: string, ignoreCase: bool)
    requires |pat| >= 2 && pat[0] == '&'
    requires |e| >= 2 && e[0] == '&' && '&' !in e[1..]
    requires !SameChar(pat[1], e[1], ignoreCase)
    ensures ReplaceAll(e + rest, pat, rep, ignoreCase) == e + ReplaceAll(rest, pat, rep, ignoreCase)
  {
    var s := e + rest;
    assert s[1] == e[1];
    assert !MatchesAt(pat, s, ignoreCase);
    assert s[1..] == e[1..] + rest;
    ReplaceAllSkipsPlain(e[1..], rest, pat, rep, ignoreCase);
    assert [e[0]] + e[1..] == e;
  }

  /** Index of the first `sep` in `s`, if any. */
  function FirstIndexOf(s: string, sep: char): (r: nat)
    ensures r <= |s|
    ensures r < |s| ==> s[r] == sep
    ensures forall k :: 0 <= k < r ==> s[k] != sep
  {
    if |s| == 0 then 0
    else if s[0] == sep then 0
    else 1 + FirstIndexOf(s[1..], sep)
  }

  /** `s.split(sep)` for a one-character separator: the pieces between
      separators, including empty ones; never an empty list. */
  function Split(s: string, sep: char): (parts: seq<string>)
    ensures |parts| > 0
    ensures forall k :: 0 <= k < |parts| ==> sep !in parts[k]
    decreases |s|
  {
    var i := FirstIndexOf(s, sep);
    if i == |s| then [s] else [s[..i]] + Split(s[i + 1..], sep)
  }

  /** The first separator is found after a piece that has none. */
  lemma {:induction false} FirstIndexAfterPiece(piece: string, sep: char, rest: string)
    requires sep !in piece
    ensures FirstIndexOf(piece + [sep] + rest, sep) == |piece|
    decreases |piece|
  {
    var s := piece + [sep] + rest;
    if |piece| > 0 {
      assert s[1..] == piece[1..] + [sep] + rest;
      FirstIndexAfterPiece(piece[1..], sep, rest);
    }
  }

  /** Splitting peels off a leading separator-free piece. */
  lemma SplitAfterPiece(piece: string, sep: char, rest: string)
    requires sep !in piece
    ensures Split(piece + [sep] + rest, sep) == [piece] + Split(rest, sep)
  {
    var s := piece + [sep] + rest;
    FirstIndexAfterPiece(piece, sep, rest);
    assert s[..|piece|] == piece;
    assert s[|piece| + 1..] == rest;
  }

  /** Text without the separator splits into itself. */
  lemma SplitWithoutSeparator(s: string, sep: char)
    requires sep !in s
    ensures Split(s, sep) == [s]
  {
  }

  /** `parts.join(sep)`. */
  function Join(parts: seq<string>, sep: char): string
    requires |parts| > 0
  {
    if |parts| == 1 then parts[0] else parts[0] + [sep] + Join(parts[1..], sep)
  }

  /** Splitting and joining again gives back the original text. */
  lemma {:induction false} JoinSplit(s: string, sep: char)
    ensures Join(Split(s, sep), sep) == s
    decreases |s|
  {
    var i := FirstIndexOf(s, sep);
    if i < |s| {
      var piece, rest := s[..i], s[i + 1..];
      var parts := [piece] + Split(rest, sep);
      assert Split(s, sep) == parts;
      JoinSplit(rest, sep);
      assert parts[1..] == Split(rest, sep);
      assert Join(parts, sep) == piece + [sep] + Join(parts[1..], sep);
      assert piece + [sep] + rest == s;
    } else {
      assert Split(s, sep) == [s];
    }
  }

  /** Splitting a joined list of separator-free pieces gives the pieces back. */
  lemma {:induction false} SplitJoin(parts: seq<string>, sep: char)
    requires |parts| > 0
    requires forall k :: 0 <= k < |parts| ==> sep !in parts[k]
    ensures Split(Join(parts, sep), sep) == parts
    decreases |parts|
  {
    var p := parts[0];
    if |parts| == 1 {
      assert FirstIndexOf(p, sep) == |p|;
    } else {
      var rest := Join(parts[1..], sep);
      var s := p + [sep] + rest;
      assert s[|p|] == sep;
      assert forall k :: 0 <= k < |p| ==> s[k] == p[k];
      assert FirstIndexOf(s, sep) == |p|;
      assert s[..|p|] == p;
      assert s[|p| + 1..] == rest;
      SplitJoin(parts[1..], sep);
      assert [p] + parts[1..] == parts;
    }
  }

  /** Decimal digits of a natural number, most significant first. */
  function NatDigits(n: nat): (r: string)
    ensures |r| > 0
    ensures forall k :: 0 <= k < |r| ==> '0' <= r[k] <= '9'
    decreases n
  {
    if n < 10 then [('0' as int + n) as char]
    else NatDigits(n / 10) + [('0' as int + n % 10) as char]
  }

  /** The value of a string of decimal digits. */
  function DigitsValue(s: string): nat
    requires forall k :: 0 <= k < |s| ==> '0' <= s[k] <= '9'
  {
    if |s| == 0 then 0 else 10 * DigitsValue(s[..|s| - 1]) + (s[|s| - 1] as int - '0' as int)
  }

  /** Reading the rendered digits back gives the number. */
  lemma {:induction false} DigitsValueOfNatDigits(n: nat)
    ensures DigitsValue(NatDigits(n)) == n
    decreases n
  {
    if n >= 10 {
      var d := NatDigits(n);
      assert d[..|d| - 1] == NatDigits(n / 10);
      DigitsValueOfNatDigits(n / 10);
    }
  }

  /** JavaScript's number-to-string coercion for integers. */
  function Decimal(n: int): (r: string)
    ensures |r| > 0
    ensures n >= 0 ==> r == NatDigits(n)
    ensures n < 0 ==> r == "-" + NatDigits(-n)
  {
    if n >= 0 then NatDigits(n) else "-" + NatDigits(-n)
  }

  /** Different natural numbers have different digit strings. */
  lemma NatDigitsInjective(a: nat, b: nat)
    requires NatDigits(a) == NatDigits(b)
    ensures a == b
  {
    DigitsValueOfNatDigits(a);
    DigitsValueOfNatDigits(b);
  }

  /** Different numbers render differently. */
  lemma DecimalInjective(a: int, b: int)
    requires Decimal(a) == Decimal(b)
    ensures a == b
  {
    var da, db := Decimal(a), Decimal(b);
    assert (da[0] == '-') == (a < 0);
    assert (db[0] == '-') == (b < 0);
    if a >= 0 && b >= 0 {
      NatDigitsInjective(a, b);
    } else if a < 0 && b < 0 {
      assert da[1..] == NatDigits(-a);
      assert db[1..] == NatDigits(-b);
      NatDigitsInjective(-a, -b);
    }
  }
}
