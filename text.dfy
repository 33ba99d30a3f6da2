/**
 * The few pieces of Go's `strings`, `strconv` and `fmt` packages that the
 * handlers' decisions depend on: substring search, splitting on a separator,
 * lower-casing and decimal formatting of non-negative integers.
 */
module Text {
  import opened Common

  /** `strings.Contains(s, sub)`: `sub` occurs somewhere in `s`. */
  predicate Contains(s: string, sub: string) {
    exists i | 0 <= i <= |s| :: OccursAt(s, sub, i)
  }

  /** `sub` occurs in `s` starting at index `i`. */
  predicate OccursAt(s: string, sub: string, i: int) {
    0 <= i <= |s| - |sub| && s[i..i + |sub|] == sub
  }

  /** A string always contains what was placed in its middle. */
  lemma ContainsInfix(a: string, b: string, c: string)
    ensures Contains(a + b + c, b)
  {
    var s := a + b + c;
    assert s[|a|..|a| + |b|] == b;
    assert OccursAt(s, b, |a|);
  }

  // ---------------------------------------------------------------------
  // Decimal formatting (`%d` in fmt.Sprintf, strconv.FormatInt(n, 10))

  predicate IsDigit(c: char) {
    '0' <= c <= '9'
  }

  predicate AllDigits(s: string) {
    forall i :: 0 <= i < |s| ==> IsDigit(s[i])
  }

  function DigitChar(d: nat): (c: char)
    requires d < 10
    ensures IsDigit(c) && c as int - '0' as int == d
  {
    ('0' as int + d) as char
  }

  /** The value of a string of decimal digits; the inverse of FormatDecimal. */
  function ParseDecimal(s: string): nat
    requires AllDigits(s)
  {
    if s == [] then 0
    else ParseDecimal(s[..|s| - 1]) * 10 + (s[|s| - 1] as int - '0' as int)
  }

  /** How Go prints a non-negative integer in base 10: digits only, no leading zero. */
  function FormatDecimal(n: nat): (s: string)
    ensures |s| > 0 && AllDigits(s)
    ensures n > 0 ==> s[0] != '0'
    ensures ParseDecimal(s) == n
    decreases n
  {
    if n < 10 then [DigitChar(n)]
    else
      var s := FormatDecimal(n / 10) + [DigitChar(n % 10)];
      assert s[..|s| - 1] == FormatDecimal(n / 10);
      s
  }

  // ---------------------------------------------------------------------
  // strings.Split with a one-character separator

  /**
   * `strings.Split(s, string(sep))`: the pieces of `s` between occurrences
   * of `sep`. There is always at least one piece (the empty string gives
   * [""]); the last piece is the text after the last separator.
   */
  function Split(s: string, sep: char): (parts: seq<string>)
    ensures |parts| >= 1
    ensures forall k :: 0 <= k < |parts| ==> sep !in parts[k]
    decreases |s|
  {
    if s == [] then [""]
    else
      var init := Split(s[..|s| - 1], sep);
      var c := s[|s| - 1];
      if c == sep then init + [""]
      else
        assert sep !in Last(init) + [c];
        init[..|init| - 1] + [Last(init) + [c]]
  }

  /** There are two or more pieces exactly when the separator occurs. */
  lemma {:induction false} SplitCount(s: string, sep: char)
    ensures |Split(s, sep)| >= 2 <==> sep in s
    decreases |s|
  {
    if s != [] {
      var s' := s[..|s| - 1];
      var c := s[|s| - 1];
      assert s == s' + [c];
      SplitCount(s', sep);
      if c == sep {
        SplitSnocSeparator(s', sep);
      } else {
        SplitSnocOther(s', sep, c);
      }
    }
  }

  /**
   * The last piece of `s` is a suffix of it, and when there are two or
   * more pieces it is preceded by the separator.
   */
  predicate LastPieceIsSuffix(s: string, sep: char) {
    var last := Last(Split(s, sep));
    |last| <= |s| && s[|s| - |last|..] == last &&
    (|Split(s, sep)| >= 2 ==> |last| < |s| && s[|s| - |last| - 1] == sep)
  }

  /** The last piece is the text after the last separator, or all of `s` when there is none. */
  lemma {:induction false} SplitLastPiece(s: string, sep: char)
    ensures LastPieceIsSuffix(s, sep)
    decreases |s|
  {
    if s != [] {
      var s' := s[..|s| - 1];
      var c := s[|s| - 1];
      assert s == s' + [c];
      SplitLastPiece(s', sep);
      if c == sep {
        LastPieceAfterSeparator(s', sep);
      } else {
        LastPieceAfterOther(s', sep, c);
      }
    }
  }

  lemma LastPieceAfterSeparator(s: string, sep: char)
    ensures LastPieceIsSuffix(s + [sep], sep)
  {
    SplitSnocSeparator(s, sep);
  }

  lemma LastPieceAfterOther(s: string, sep: char, c: char)
    requires c != sep && LastPieceIsSuffix(s, sep)
    ensures LastPieceIsSuffix(s + [c], sep)
  {
    SplitSnocOther(s, sep, c);
    var init := Split(s, sep);
    var last := Last(init);
    var t := s + [c];
    assert |Split(t, sep)| == |init| && Last(Split(t, sep)) == last + [c];
    assert t[|s| - |last|..] == s[|s| - |last|..] + [c];
    if |init| >= 2 {
      assert t[|s| - |last| - 1] == s[|s| - |last| - 1];
    }
  }

  /** `strings.Join(parts, string(sep))`. */
  function Join(parts: seq<string>, sep: char): string
    requires |parts| >= 1
    decreases |parts|
  {
    if |parts| == 1 then parts[0]
    else Join(DropLast(parts), sep) + [sep] + Last(parts)
  }

  /** Joining the pieces back with the separator gives the original string. */
  lemma {:induction false} JoinSplit(s: string, sep: char)
    ensures Join(Split(s, sep), sep) == s
    decreases |s|
  {
    if s != [] {
      var s' := s[..|s| - 1];
      var c := s[|s| - 1];
      assert s == s' + [c];
      JoinSplit(s', sep);
      var init := Split(s', sep);
      if c != sep && |init| > 1 {
        assert DropLast(Split(s, sep)) == DropLast(init);
      }
    }
  }

  /** Splitting a string with no separator in it gives that string alone. */
  lemma {:induction false} SplitNoSeparator(p: string, sep: char)
    requires sep !in p
    ensures Split(p, sep) == [p]
    decreases |p|
  {
    if p != [] {
      SplitNoSeparator(p[..|p| - 1], sep);
      assert p == p[..|p| - 1] + [p[|p| - 1]];
    }
  }

  /** Appending a separator starts a new, empty piece. */
  lemma SplitSnocSeparator(s: string, sep: char)
    ensures Split(s + [sep], sep) == Split(s, sep) + [""]
  {
    assert (s + [sep])[..|s|] == s;
  }

  /** Appending any other character extends the last piece. */
  lemma SplitSnocOther(s: string, sep: char, c: char)
    requires c != sep
    ensures Split(s + [c], sep) == DropLast(Split(s, sep)) + [Last(Split(s, sep)) + [c]]
  {
    assert (s + [c])[..|s|] == s;
  }

  /** Appending a separator and a separator-free piece appends that piece. */
  lemma {:induction false} SplitAppend(x: string, sep: char, p: string)
    requires sep !in p
    ensures Split(x + [sep] + p, sep) == Split(x, sep) + [p]
    decreases |p|
  {
    if p == [] {
      assert x + [sep] + p == x + [sep];
      SplitSnocSeparator(x, sep);
    } else {
      var p' := p[..|p| - 1];
      var c := p[|p| - 1];
      assert x + [sep] + p == (x + [sep] + p') + [c];
      assert p == p' + [c];
      SplitAppend(x, sep, p');
      SplitSnocOther(x + [sep] + p', sep, c);
    }
  }

  /** Splitting the join of separator-free pieces gives the pieces back. */
  lemma {:induction false} SplitJoin(parts: seq<string>, sep: char)
    requires |parts| >= 1
    requires forall k :: 0 <= k < |parts| ==> sep !in parts[k]
    ensures Split(Join(parts, sep), sep) == parts
    decreases |parts|
  {
    if |parts| == 1 {
      SplitNoSeparator(parts[0], sep);
    } else {
      var init := DropLast(parts);
      assert parts == init + [Last(parts)];
      SplitJoin(init, sep);
      SplitAppend(Join(init, sep), sep, Last(parts));
    }
  }

  // ---------------------------------------------------------------------
  // strings.ToLower, as far as matching ASCII keys is concerned

  /**
   * Go's `unicode.ToLower` on the runes whose lower case is ASCII: the
   * letters A-Z, U+0130 (capital I with dot above, lower case 'i') and
   * U+212A (Kelvin sign, lower case 'k'). Every other rune is left as it
   * is; Go would map some of them to other non-ASCII runes, which makes no
   * difference to whether the result equals an ASCII word.
   */
  function LowerChar(c: char): (l: char)
    ensures l == c || (l as int < 128 && l != c)
    ensures !('A' <= l <= 'Z')
  {
    if 'A' <= c <= 'Z' then (c as int + 32) as char
    else if c == '\U{0130}' then 'i'
    else if c == '\U{212A}' then 'k'
    else c
  }

  /** `strings.ToLower`: the result has no ASCII capital left in it. */
  function ToLower(s: string): (r: string)
    ensures |r| == |s|
    ensures forall i :: 0 <= i < |r| ==> !('A' <= r[i] <= 'Z')
  {
    seq(|s|, i requires 0 <= i < |s| => LowerChar(s[i]))
  }

  /** A word of lower-case ASCII letters and digits, like the table's keys. */
  predicate IsLowerWord(w: string) {
    forall i :: 0 <= i < |w| ==> ('a' <= w[i] <= 'z' || IsDigit(w[i]))
  }

  /**
   * Character `c` is one that lower-cases to `l`: `l` itself, its ASCII
   * capital, or the one non-ASCII capital whose lower case is 'i' or 'k'.
   */
  predicate FoldsTo(c: char, l: char) {
    c == l ||
    ('a' <= l <= 'z' && c as int == l as int - 32) ||
    (l == 'i' && c == '\U{0130}') ||
    (l == 'k' && c == '\U{212A}')
  }

  /**
   * What a case-insensitive comparison with a lower-case word relies on:
   * `e` lower-cases to `w` exactly when it has the length of `w` and each
   * of its characters is one that lower-cases to the matching letter.
   */
  lemma ToLowerEqualsWord(e: string, w: string)
    requires IsLowerWord(w)
    ensures ToLower(e) == w <==> |e| == |w| && forall i :: 0 <= i < |e| ==> FoldsTo(e[i], w[i])
  {
    if |e| == |w| && forall i :: 0 <= i < |e| ==> FoldsTo(e[i], w[i]) {
      forall i | 0 <= i < |e| ensures ToLower(e)[i] == w[i] {
        assert FoldsTo(e[i], w[i]);
      }
    }
  }

  /** Lower-casing twice is lower-casing once. */
  lemma ToLowerIdempotent(s: string)
    ensures ToLower(ToLower(s)) == ToLower(s)
  {
  }
}
