/**
 * The handful of Python string primitives the pipeline relies on:
 * Unicode whitespace (`str.isspace`, regex `\s`), `str.strip`,
 * `str.split()` with no argument, `" ".join`, and the character classes
 * used by the cleaning regular expressions.
 */
module Text {

  /** Python's `str.isspace()`, which is also what regex `\s` matches. */
  predicate IsSpace(c: char) {
    c == ' ' || ('\t' <= c <= '\r') || ('\U{1C}' <= c <= '\U{1F}')
    || c == '\U{85}' || c == '\U{A0}' || c == '\U{1680}'
    || ('\U{2000}' <= c <= '\U{200A}') || c == '\U{2028}' || c == '\U{2029}'
    || c == '\U{202F}' || c == '\U{205F}' || c == '\U{3000}'
  }

  predicate IsAsciiUpper(c: char) { 'A' <= c <= 'Z' }

  predicate IsDigit(c: char) { '0' <= c <= '9' }

  /** The regex class `[a-zA-ZÀ-ÿ]`: ASCII letters and the range U+00C0..U+00FF. */
  predicate IsNameLetter(c: char) {
    ('a' <= c <= 'z') || ('A' <= c <= 'Z') || ('\U{C0}' <= c <= '\U{FF}')
  }

  predicate NoSpace(s: string) {
    forall i :: 0 <= i < |s| ==> !IsSpace(s[i])
  }

  /** Leading whitespace removed, as `str.lstrip()`. */
  function TrimLeft(s: string): string {
    if s != [] && IsSpace(s[0]) then TrimLeft(s[1..]) else s
  }

  /** Trailing whitespace removed, as `str.rstrip()`. */
  function TrimRight(s: string): string {
    if s != [] && IsSpace(s[|s| - 1]) then TrimRight(s[..|s| - 1]) else s
  }

  /** `str.strip()`. */
  function Strip(s: string): string {
    TrimRight(TrimLeft(s))
  }

  /** `lstrip` removes exactly the leading run of whitespace. */
  lemma TrimLeftSpec(s: string)
    ensures var r := TrimLeft(s);
            && |r| <= |s| && r == s[|s| - |r|..]
            && (r == [] || !IsSpace(r[0]))
            && forall i :: 0 <= i < |s| - |r| ==> IsSpace(s[i])
  {
    TrimLeftSuffix(s);
    TrimLeftStart(s);
    TrimLeftCut(s);
  }

  lemma {:induction false} TrimLeftSuffix(s: string)
    ensures |TrimLeft(s)| <= |s| && TrimLeft(s) == s[|s| - |TrimLeft(s)|..]
  {
    if s != [] && IsSpace(s[0]) {
      TrimLeftSuffix(s[1..]);
      assert s[1..][|s| - 1 - |TrimLeft(s)|..] == s[|s| - |TrimLeft(s)|..];
    }
  }

  lemma {:induction false} TrimLeftStart(s: string)
    ensures TrimLeft(s) == [] || !IsSpace(TrimLeft(s)[0])
  {
    if s != [] && IsSpace(s[0]) {
      TrimLeftStart(s[1..]);
    }
  }

  lemma {:induction false} TrimLeftCut(s: string)
    ensures forall i :: 0 <= i < |s| - |TrimLeft(s)| ==> IsSpace(s[i])
  {
    if s != [] && IsSpace(s[0]) {
      TrimLeftCut(s[1..]);
      assert forall i :: 1 <= i < |s| - |TrimLeft(s)| ==> s[i] == s[1..][i - 1];
    }
  }

  /** `rstrip` removes exactly the trailing run of whitespace. */
  lemma TrimRightSpec(s: string)
    ensures var r := TrimRight(s);
            && |r| <= |s| && r == s[..|r|]
            && (r == [] || !IsSpace(r[|r| - 1]))
            && forall i :: |r| <= i < |s| ==> IsSpace(s[i])
  {
    TrimRightPrefix(s);
    TrimRightEnd(s);
    TrimRightCut(s);
  }

  lemma {:induction false} TrimRightPrefix(s: string)
    ensures |TrimRight(s)| <= |s| && TrimRight(s) == s[..|TrimRight(s)|]
  {
    if s != [] && IsSpace(s[|s| - 1]) {
      TrimRightPrefix(s[..|s| - 1]);
      assert s[..|s| - 1][..|TrimRight(s)|] == s[..|TrimRight(s)|];
    }
  }

  lemma {:induction false} TrimRightEnd(s: string)
    ensures TrimRight(s) == [] || !IsSpace(TrimRight(s)[|TrimRight(s)| - 1])
  {
    if s != [] && IsSpace(s[|s| - 1]) {
      TrimRightEnd(s[..|s| - 1]);
    }
  }

  lemma {:induction false} TrimRightCut(s: string)
    ensures forall i :: |TrimRight(s)| <= i < |s| ==> IsSpace(s[i])
  {
    if s != [] && IsSpace(s[|s| - 1]) {
      TrimRightCut(s[..|s| - 1]);
      TrimRightPrefix(s[..|s| - 1]);
      assert forall i :: |TrimRight(s)| <= i < |s| - 1 ==> s[i] == s[..|s| - 1][i];
    }
  }

  /** `strip` keeps the longest slice whose two ends are not whitespace. */
  lemma StripSlice(s: string)
    ensures exists i, j ::
              && 0 <= i <= j <= |s| && Strip(s) == s[i..j]
              && (forall k :: 0 <= k < i ==> IsSpace(s[k]))
              && (forall k :: j <= k < |s| ==> IsSpace(s[k]))
    ensures Strip(s) == [] || (!IsSpace(Strip(s)[0]) && !IsSpace(Strip(s)[|Strip(s)| - 1]))
  {
    var l := TrimLeft(s);
    TrimLeftSpec(s);
    TrimRightSpec(l);
    var i := |s| - |l|;
    var j := i + |TrimRight(l)|;
    assert Strip(s) == s[i..j];
  }

  /** A string whose two ends are already free of whitespace is left alone by `strip`. */
  lemma StripTrimmed(s: string)
    requires s == [] || (!IsSpace(s[0]) && !IsSpace(s[|s| - 1]))
    ensures Strip(s) == s
  {
  }

  /** `re.sub(r'\s', '', s)`: every whitespace character deleted. */
  function RemoveSpaces(s: string): (r: string)
    ensures NoSpace(r) && |r| <= |s|
  {
    if s == [] then []
    else (if IsSpace(s[0]) then [] else [s[0]]) + RemoveSpaces(s[1..])
  }

  lemma {:induction false} RemoveSpacesAppend(a: string, b: string)
    ensures RemoveSpaces(a + b) == RemoveSpaces(a) + RemoveSpaces(b)
  {
    if a == [] {
      assert a + b == b;
    } else {
      assert (a + b)[1..] == a[1..] + b;
      RemoveSpacesAppend(a[1..], b);
    }
  }

  lemma {:induction false} RemoveSpacesNoSpace(s: string)
    requires NoSpace(s)
    ensures RemoveSpaces(s) == s
  {
    if s != [] {
      RemoveSpacesNoSpace(s[1..]);
    }
  }

  /** The longest whitespace-free prefix of `s`. */
  function LeadingWord(s: string): (w: string)
    ensures |w| <= |s| && w == s[..|w|] && NoSpace(w)
    ensures |w| < |s| ==> IsSpace(s[|w|])
  {
    if s == [] || IsSpace(s[0]) then [] else [s[0]] + LeadingWord(s[1..])
  }

  /** `s.split()`: the maximal whitespace-free runs, in order, none empty. */
  function Words(s: string): (ws: seq<string>)
    ensures forall k :: 0 <= k < |ws| ==> ws[k] != [] && NoSpace(ws[k])
    decreases |s|
  {
    if s == [] then []
    else if IsSpace(s[0]) then Words(s[1..])
    else
      var w := LeadingWord(s);
      [w] + Words(s[|w|..])
  }

  /** `" ".join(ws)`: words without whitespace come out separated by single spaces. */
  function Join(ws: seq<string>): (r: string)
    ensures (forall k :: 0 <= k < |ws| ==> ws[k] != [] && NoSpace(ws[k])) ==>
              SingleSpaced(r) && (ws != [] ==> r != [] && !IsSpace(r[0]))
  {
    if ws == [] then []
    else if |ws| == 1 then ws[0]
    else
      var w, rest := ws[0], Join(ws[1..]);
      var r := w + " " + rest;
      assert (forall k :: 0 <= k < |ws| ==> ws[k] != [] && NoSpace(ws[k])) ==> SingleSpaced(r) by {
        if forall k :: 0 <= k < |ws| ==> ws[k] != [] && NoSpace(ws[k]) {
          assert forall k :: 0 <= k < |ws[1..]| ==> ws[1..][k] == ws[k + 1];
          forall i | 0 <= i < |r| && IsSpace(r[i])
            ensures r[i] == ' ' && 0 < i && i + 1 < |r| && !IsSpace(r[i + 1])
          {
            if i == |w| {
              assert r[i + 1] == rest[0];
            } else if i > |w| {
              assert r[i] == rest[i - |w| - 1];
              assert i - |w| < |rest|;
              assert r[i + 1] == rest[i - |w|];
            }
          }
        }
      }
      r
  }

  /**
   * Single spaces only, each strictly inside the string: no leading,
   * trailing or doubled spaces, and no whitespace other than ' '.
   */
  predicate SingleSpaced(t: string) {
    forall i :: 0 <= i < |t| && IsSpace(t[i]) ==>
      t[i] == ' ' && 0 < i && i + 1 < |t| && !IsSpace(t[i + 1])
  }

  /** Splitting a single-spaced string and re-joining with single spaces gives it back. */
  lemma {:induction false} JoinWordsSingleSpaced(t: string)
    requires SingleSpaced(t)
    ensures Join(Words(t)) == t
    decreases |t|
  {
    if t != [] {
      var w := LeadingWord(t);
      if |w| == |t| {
        assert t[|w|..] == [];
      } else {
        var k := |w|;
        var u := t[k + 1..];
        assert t[k..][1..] == u;
        assert IsSpace(t[k]);
        assert Words(t[k..]) == Words(u);
        forall i | 0 <= i < |u| && IsSpace(u[i])
          ensures u[i] == ' ' && 0 < i && i + 1 < |u| && !IsSpace(u[i + 1])
        {
          assert u[i] == t[k + 1 + i];
        }
        JoinWordsSingleSpaced(u);
        assert Words(u) != [];
        assert Words(t) == [w] + Words(u);
        assert ([w] + Words(u))[1..] == Words(u);
        assert t == w + " " + u;
      }
    }
  }

  /** A single leading space is discarded by `split()`. */
  lemma WordsLeadingSpace(t: string)
    ensures Words([' '] + t) == Words(t)
  {
    assert ([' '] + t)[1..] == t;
  }

  predicate AllDigits(s: string) {
    forall i :: 0 <= i < |s| ==> IsDigit(s[i])
  }

  function DigitValue(c: char): (v: nat)
    requires IsDigit(c)
    ensures v <= 9
  {
    c as int - '0' as int
  }

  function DigitChar(v: nat): (c: char)
    requires v <= 9
    ensures IsDigit(c) && DigitValue(c) == v
  {
    ('0' as int + v) as char
  }

  /** The value of a string of ASCII digits read in base ten (leading zeros allowed). */
  function DecimalValue(s: string): nat
    requires AllDigits(s)
  {
    if s == [] then 0 else DecimalValue(s[..|s| - 1]) * 10 + DigitValue(s[|s| - 1])
  }

  /** `str(n)` for a non-negative integer: base ten, no leading zeros. */
  function Decimal(n: nat): (s: string)
    ensures s != [] && AllDigits(s)
    ensures |s| > 1 ==> s[0] != '0'
  {
    if n < 10 then [DigitChar(n)] else Decimal(n / 10) + [DigitChar(n % 10)]
  }

  /** Reading back what `Decimal` writes gives the number. */
  lemma {:induction false} DecimalRoundTrip(n: nat)
    ensures DecimalValue(Decimal(n)) == n
  {
    if n >= 10 {
      var s := Decimal(n);
      assert s[..|s| - 1] == Decimal(n / 10);
      DecimalRoundTrip(n / 10);
    }
  }
}
