/**
 * The string primitives the program borrows from JavaScript: ASCII case
 * mapping, the `\s` and `\w` character classes, collapsing runs of a
 * character class, `split`/`join` on one character, first-occurrence
 * `replace`, `startsWith`, `trim`, and reading a run of decimal digits.
 *
 * Case mapping covers ASCII only; every other character maps to itself.
 */
module Text {
  import opened Types

  // ---------------------------------------------------------------------------
  // Character classes
  // ---------------------------------------------------------------------------

  /** JavaScript's `\s`: the WhiteSpace and LineTerminator code points of ECMAScript. */
  predicate IsWhitespace(c: char) {
    var n := c as int;
    || n == 0x09 || n == 0x0A || n == 0x0B || n == 0x0C || n == 0x0D || n == 0x20
    || n == 0xA0 || n == 0x1680 || (0x2000 <= n <= 0x200A) || n == 0x2028 || n == 0x2029
    || n == 0x202F || n == 0x205F || n == 0x3000 || n == 0xFEFF
  }

  predicate IsAsciiUpper(c: char) { 'A' <= c <= 'Z' }

  predicate IsAsciiLower(c: char) { 'a' <= c <= 'z' }

  predicate IsDigit(c: char) { '0' <= c <= '9' }

  /** JavaScript's `\w` without the `u` flag: `[A-Za-z0-9_]`. */
  predicate IsWordChar(c: char) { IsAsciiUpper(c) || IsAsciiLower(c) || IsDigit(c) || c == '_' }

  predicate IsHyphen(c: char) { c == '-' }

  // ---------------------------------------------------------------------------
  // Case mapping
  // ---------------------------------------------------------------------------

  function LowerChar(c: char): (d: char)
    ensures !IsAsciiUpper(d)
    ensures !IsAsciiUpper(c) ==> d == c
    ensures IsAsciiLower(d) <==> IsAsciiUpper(c) || IsAsciiLower(c)
  {
    if IsAsciiUpper(c) then (c as int + 32) as char else c
  }

  function UpperChar(c: char): (d: char)
    ensures !IsAsciiLower(d)
    ensures !IsAsciiLower(c) ==> d == c
  {
    if IsAsciiLower(c) then (c as int - 32) as char else c
  }

  /** `toLowerCase`, restricted to ASCII letters. */
  function Lower(s: string): (r: string)
    ensures |r| == |s|
    ensures forall i :: 0 <= i < |s| ==> r[i] == LowerChar(s[i])
  {
    seq(|s|, i requires 0 <= i < |s| => LowerChar(s[i]))
  }

  /** `toUpperCase`, restricted to ASCII letters. */
  function Upper(s: string): (r: string)
    ensures |r| == |s|
    ensures forall i :: 0 <= i < |s| ==> r[i] == UpperChar(s[i])
  {
    seq(|s|, i requires 0 <= i < |s| => UpperChar(s[i]))
  }

  /** `w.charAt(0).toUpperCase() + w.slice(1)`. */
  function Capitalize(w: string): (r: string)
    ensures |r| == |w|
    ensures |w| > 0 ==> r[0] == UpperChar(w[0]) && r[1..] == w[1..]
  {
    if |w| == 0 then "" else [UpperChar(w[0])] + w[1..]
  }

  lemma LowerAppend(a: string, b: string)
    ensures Lower(a + b) == Lower(a) + Lower(b)
  {
  }

  /** Lower-casing a string that holds no ASCII capital changes nothing. */
  lemma LowerIdentity(s: string)
    requires forall c :: c in s ==> !IsAsciiUpper(c)
    ensures Lower(s) == s
  {
  }

  /** A lower-cased string never holds an ASCII capital, so it never equals a word that starts with one. */
  lemma LowerHasNoCapital(s: string, w: string)
    requires |w| > 0 && IsAsciiUpper(w[0])
    ensures Lower(s) != w
  {
    if |s| == |w| {
      assert Lower(s)[0] != w[0];
    }
  }

  // ---------------------------------------------------------------------------
  // Runs of a character class
  // ---------------------------------------------------------------------------

  /** No two neighbouring characters both belong to the class `p`. */
  predicate NoAdjacent(s: string, p: char -> bool) {
    forall i :: 0 <= i < |s| - 1 ==> !(p(s[i]) && p(s[i + 1]))
  }

  /**
   * A global regex replace of `p+` by the single character `rep`: every
   * maximal run of characters of class `p` becomes one `rep`. `inRun` says
   * that a run is already open before `s` starts, so a leading run of `s`
   * produces nothing.
   */
  function CollapseRuns(s: string, p: char -> bool, rep: char, inRun: bool): (r: string)
    ensures |r| <= |s|
    ensures forall c :: c in r ==> c == rep || c in s
    ensures forall c :: c in r && c != rep ==> !p(c)
    ensures inRun && |r| > 0 ==> !p(r[0])
    ensures p(rep) ==> NoAdjacent(r, p)
  {
    if |s| == 0 then ""
    else if p(s[0]) then
      var rest := CollapseRuns(s[1..], p, rep, true);
      var r := (if inRun then "" else [rep]) + rest;
      assert forall c :: c in r ==> c == rep || c in rest;
      r
    else
      var rest := CollapseRuns(s[1..], p, rep, false);
      assert forall c :: c in [s[0]] + rest ==> c == s[0] || c in rest;
      [s[0]] + rest
  }

  /** Dropping the first character keeps neighbours apart. */
  lemma NoAdjacentTail(s: string, p: char -> bool)
    requires |s| > 0 && NoAdjacent(s, p)
    ensures NoAdjacent(s[1..], p)
  {
    forall i | 0 <= i < |s[1..]| - 1
      ensures !(p(s[1..][i]) && p(s[1..][i + 1]))
    {
      assert s[1..][i] == s[i + 1] && s[1..][i + 1] == s[i + 2];
    }
  }

  /** Dropping the first character keeps every class member equal to `rep`. */
  lemma ClassMembersTail(s: string, p: char -> bool, rep: char)
    requires |s| > 0
    requires forall c :: c in s && p(c) ==> c == rep
    ensures forall c :: c in s[1..] && p(c) ==> c == rep
  {
    assert forall c :: c in s[1..] ==> c in s;
  }

  /**
   * Collapsing changes nothing when every class member of `s` already is
   * `rep`, no two class members are neighbours, and a string that continues
   * an open run does not start with one.
   */
  lemma {:induction false} CollapseRunsIdentity(s: string, p: char -> bool, rep: char, inRun: bool)
    requires forall c :: c in s && p(c) ==> c == rep
    requires NoAdjacent(s, p)
    requires inRun ==> |s| == 0 || !p(s[0])
    ensures CollapseRuns(s, p, rep, inRun) == s
  {
    if |s| > 0 {
      var t := s[1..];
      ClassMembersTail(s, p, rep);
      NoAdjacentTail(s, p);
      assert s == [s[0]] + t;
      if p(s[0]) {
        assert s[0] == rep;
        assert |t| == 0 || !p(t[0]);
        CollapseRunsIdentity(t, p, rep, true);
      } else {
        CollapseRunsIdentity(t, p, rep, false);
      }
    }
  }

  /** A string with no character of class `p` passes through collapsing unchanged. */
  lemma CollapseRunsWithoutClass(s: string, p: char -> bool, rep: char, inRun: bool)
    requires forall c :: c in s ==> !p(c)
    ensures CollapseRuns(s, p, rep, inRun) == s
  {
    CollapseRunsIdentity(s, p, rep, inRun);
  }

  // ---------------------------------------------------------------------------
  // Per-character replace and filter
  // ---------------------------------------------------------------------------

  /** `s.replace(/x/g, y)` for a single character `x`. */
  function ReplaceChar(s: string, x: char, y: char): (r: string)
    ensures |r| == |s|
    ensures forall i :: 0 <= i < |s| ==> r[i] == (if s[i] == x then y else s[i])
  {
    seq(|s|, i requires 0 <= i < |s| => if s[i] == x then y else s[i])
  }

  /** `s.replace(/[^0-9]/g, '')`: the digits of `s`, in order. */
  function KeepDigits(s: string): (r: string)
    ensures forall c :: c in r ==> IsDigit(c)
    ensures |r| <= |s|
  {
    if |s| == 0 then ""
    else if IsDigit(s[0]) then [s[0]] + KeepDigits(s[1..])
    else KeepDigits(s[1..])
  }

  /** A string holds a digit exactly when keeping its digits leaves something. */
  lemma {:induction false} KeepDigitsEmpty(s: string)
    ensures |KeepDigits(s)| == 0 <==> forall c :: c in s ==> !IsDigit(c)
  {
    if |s| > 0 {
      KeepDigitsEmpty(s[1..]);
      assert forall c :: c in s ==> c == s[0] || c in s[1..];
      assert forall c :: c in s[1..] ==> c in s;
    }
  }

  // ---------------------------------------------------------------------------
  // split / join on one separator character
  // ---------------------------------------------------------------------------

  /** `s.split(sep)`: always at least one piece, and no piece holds the separator. */
  function Split(s: string, sep: char): (r: seq<string>)
    ensures |r| >= 1
    ensures forall w :: w in r ==> sep !in w
    ensures forall w :: w in r ==> forall c :: c in w ==> c in s
  {
    if |s| == 0 then [""]
    else
      var rest := Split(s[1..], sep);
      assert forall c :: c in s[1..] ==> c in s;
      if s[0] == sep then [""] + rest
      else
        assert forall c :: c in [s[0]] + rest[0] ==> c == s[0] || c in rest[0];
        assert forall w :: w in rest[1..] ==> w in rest;
        [[s[0]] + rest[0]] + rest[1..]
  }

  /** `ws.join(sep)`. */
  function Join(ws: seq<string>, sep: char): string {
    if |ws| == 0 then ""
    else if |ws| == 1 then ws[0]
    else ws[0] + [sep] + Join(ws[1..], sep)
  }

  lemma JoinCons(w: string, ws: seq<string>, sep: char)
    requires |ws| >= 1
    ensures Join([w] + ws, sep) == w + [sep] + Join(ws, sep)
  {
    assert ([w] + ws)[1..] == ws;
  }

  /** Joining the pieces of a split restores the string. */
  lemma {:induction false} JoinSplit(s: string, sep: char)
    ensures Join(Split(s, sep), sep) == s
  {
    if |s| > 0 {
      var rest := Split(s[1..], sep);
      JoinSplit(s[1..], sep);
      if s[0] == sep {
        JoinCons("", rest, sep);
        assert s == [sep] + s[1..];
      } else if |rest| == 1 {
        assert s == [s[0]] + s[1..];
      } else {
        assert rest == [rest[0]] + rest[1..];
        JoinCons([s[0]] + rest[0], rest[1..], sep);
        JoinCons(rest[0], rest[1..], sep);
        assert s == [s[0]] + s[1..];
      }
    }
  }

  /** Splitting a separator-free word followed by the separator and a tail yields the word, then the tail's pieces. */
  lemma {:induction false} SplitWord(w: string, t: string, sep: char)
    requires sep !in w
    ensures Split(w, sep) == [w]
    ensures Split(w + [sep] + t, sep) == [w] + Split(t, sep)
  {
    if |w| == 0 {
      assert w + [sep] + t == [sep] + t;
      assert ([sep] + t)[1..] == t;
    } else {
      assert sep !in w[1..];
      SplitWord(w[1..], t, sep);
      assert (w + [sep] + t)[1..] == w[1..] + [sep] + t;
      assert [w[0]] + w[1..] == w;
    }
  }

  /** Splitting a join of separator-free words gives the words back: split and join are inverse. */
  lemma {:induction false} SplitJoin(ws: seq<string>, sep: char)
    requires |ws| >= 1
    requires forall w :: w in ws ==> sep !in w
    ensures Split(Join(ws, sep), sep) == ws
  {
    SplitWord(ws[0], "", sep);
    if |ws| > 1 {
      SplitJoin(ws[1..], sep);
      SplitWord(ws[0], Join(ws[1..], sep), sep);
      assert ws == [ws[0]] + ws[1..];
    }
  }

  /** Replacing the separator by a character the string lacks, then splitting on that character, splits the same way. */
  lemma {:induction false} SplitReplaceChar(s: string, x: char, y: char)
    requires y !in s
    ensures Split(ReplaceChar(s, x, y), y) == Split(s, x)
  {
    if |s| > 0 {
      assert ReplaceChar(s, x, y)[1..] == ReplaceChar(s[1..], x, y);
      assert y !in s[1..];
      SplitReplaceChar(s[1..], x, y);
    }
  }

  function LowerEach(ws: seq<string>): (r: seq<string>)
    ensures |r| == |ws|
    ensures forall i :: 0 <= i < |ws| ==> r[i] == Lower(ws[i])
  {
    seq(|ws|, i requires 0 <= i < |ws| => Lower(ws[i]))
  }

  /** Lower-casing a join lower-cases each piece, when the separator is not a capital. */
  lemma {:induction false} LowerJoin(ws: seq<string>, sep: char)
    requires !IsAsciiUpper(sep)
    ensures Lower(Join(ws, sep)) == Join(LowerEach(ws), sep)
  {
    var ls := LowerEach(ws);
    if |ws| > 1 {
      LowerJoin(ws[1..], sep);
      assert ls[1..] == LowerEach(ws[1..]);
      LowerAppend(ws[0] + [sep], Join(ws[1..], sep));
      LowerAppend(ws[0], [sep]);
    }
  }

  /** A non-empty prefix free of class `p` passes through collapsing, and closes any open run. */
  lemma {:induction false} CollapseRunsPrefix(w: string, x: string, p: char -> bool, rep: char, inRun: bool)
    requires |w| > 0
    requires forall c :: c in w ==> !p(c)
    ensures CollapseRuns(w + x, p, rep, inRun) == w + CollapseRuns(x, p, rep, false)
  {
    assert (w + x)[0] == w[0] && (w + x)[1..] == w[1..] + x;
    if |w| > 1 {
      assert forall c :: c in w[1..] ==> c in w;
      CollapseRunsPrefix(w[1..], x, p, rep, false);
    } else {
      assert w[1..] + x == x;
    }
    assert w == [w[0]] + w[1..];
  }

  /** A join starting with a non-empty piece starts with that piece's first character. */
  lemma JoinFirst(ws: seq<string>, sep: char)
    requires |ws| >= 1 && |ws[0]| > 0
    ensures |Join(ws, sep)| > 0 && Join(ws, sep)[0] == ws[0][0]
  {
  }

  /** A join of two or more pieces is the first piece, a separator, and the join of the rest. */
  lemma JoinUnfold(ws: seq<string>, sep: char)
    requires |ws| > 1
    ensures Join(ws, sep) == ws[0] + ([sep] + Join(ws[1..], sep))
  {
    assert ws[0] + [sep] + Join(ws[1..], sep) == ws[0] + ([sep] + Join(ws[1..], sep));
  }

  /** A separator of the class followed by a non-member opens and closes one run. */
  lemma CollapseRunsSeparator(tail: string, p: char -> bool, sep: char, rep: char)
    requires p(sep)
    requires |tail| > 0 && !p(tail[0])
    ensures CollapseRuns([sep] + tail, p, rep, false) == [rep] + CollapseRuns(tail, p, rep, false)
  {
    assert ([sep] + tail)[1..] == tail;
  }

  /**
   * Collapsing a join whose separator belongs to the class and whose pieces
   * are non-empty and free of it turns each separator into `rep`.
   */
  lemma {:induction false} CollapseRunsJoin(ws: seq<string>, p: char -> bool, sep: char, rep: char)
    requires |ws| >= 1
    requires p(sep)
    requires forall w :: w in ws ==> |w| > 0 && forall c :: c in w ==> !p(c)
    ensures CollapseRuns(Join(ws, sep), p, rep, false) == Join(ws, rep)
  {
    if |ws| == 1 {
      CollapseRunsWithoutClass(ws[0], p, rep, false);
    } else {
      var rest := ws[1..];
      var tail := Join(rest, sep);
      assert forall w :: w in rest ==> w in ws;
      CollapseRunsJoin(rest, p, sep, rep);
      assert rest[0] in ws;
      JoinFirst(rest, sep);
      CollapseRunsSeparator(tail, p, sep, rep);
      assert ws[0] in ws;
      CollapseRunsPrefix(ws[0], [sep] + tail, p, rep, false);
      JoinUnfold(ws, sep);
      JoinUnfold(ws, rep);
    }
  }

  // ---------------------------------------------------------------------------
  // Searching and first-occurrence replace
  // ---------------------------------------------------------------------------

  predicate StartsWith(s: string, prefix: string) {
    |prefix| <= |s| && s[..|prefix|] == prefix
  }

  /** `s.indexOf(pat)`: the first position at which `pat` occurs, if any. */
  function IndexOf(s: string, pat: string): (r: Option<nat>)
    ensures r.Some? ==> r.value + |pat| <= |s| && s[r.value..r.value + |pat|] == pat
    ensures r.Some? ==> forall j :: 0 <= j < r.value ==> !StartsWith(s[j..], pat)
    ensures r.None? ==> forall j :: 0 <= j <= |s| ==> !StartsWith(s[j..], pat)
  {
    if StartsWith(s, pat) then Some(0)
    else if |s| == 0 then None
    else
      match IndexOf(s[1..], pat)
      case Some(i) =>
        assert forall j :: 1 <= j <= i ==> s[j..] == s[1..][j - 1..];
        Some(i + 1)
      case None =>
        assert forall j :: 1 <= j <= |s| ==> s[j..] == s[1..][j - 1..];
        None
  }

  /** A string that starts with `pat` has its first occurrence at position 0. */
  lemma IndexOfPrefix(s: string, pat: string)
    requires StartsWith(s, pat)
    ensures IndexOf(s, pat) == Some(0)
  {
    assert s[0..] == s;
  }

  predicate Contains(s: string, pat: string) {
    IndexOf(s, pat).Some?
  }

  /** A string contains a pattern only if it is at least as long as the pattern. */
  lemma ContainsLength(s: string, pat: string)
    requires Contains(s, pat)
    ensures |pat| <= |s|
  {
  }

  /** `s.replace(pat, rep)` with a string pattern: only the first occurrence is replaced. */
  function ReplaceFirst(s: string, pat: string, rep: string): (r: string)
    ensures !Contains(s, pat) ==> r == s
  {
    match IndexOf(s, pat)
    case None => s
    case Some(i) => s[..i] + rep + s[i + |pat|..]
  }

  /** Replacing a prefix by the empty string drops the prefix. */
  lemma ReplaceFirstPrefix(s: string, pat: string)
    requires StartsWith(s, pat)
    ensures ReplaceFirst(s, pat, "") == s[|pat|..]
  {
    IndexOfPrefix(s, pat);
  }

  // ---------------------------------------------------------------------------
  // Trimming
  // ---------------------------------------------------------------------------

  /** Drops every leading character of class `p` (a `^p+` replace, or the left half of `trim`). */
  function TrimStart(s: string, p: char -> bool): (r: string)
    ensures |r| <= |s| && r == s[|s| - |r|..]
    ensures |r| > 0 ==> !p(r[0])
    ensures forall i :: 0 <= i < |s| - |r| ==> p(s[i])
  {
    if |s| > 0 && p(s[0]) then
      var r := TrimStart(s[1..], p);
      assert forall i :: 1 <= i < |s| - |r| ==> s[i] == s[1..][i - 1];
      r
    else s
  }

  /** Drops every trailing character of class `p` (a `p+$` replace, or the right half of `trim`). */
  function TrimEnd(s: string, p: char -> bool): (r: string)
    ensures |r| <= |s| && r == s[..|r|]
    ensures |r| > 0 ==> !p(r[|r| - 1])
    ensures forall i :: |r| <= i < |s| ==> p(s[i])
  {
    if |s| > 0 && p(s[|s| - 1]) then
      var r := TrimEnd(s[..|s| - 1], p);
      assert forall i :: |r| <= i < |s| - 1 ==> s[i] == s[..|s| - 1][i];
      r
    else s
  }

  /** `s.trim()`: strips JavaScript whitespace from both ends. */
  function Trim(s: string): (r: string)
    ensures |r| > 0 ==> !IsWhitespace(r[0]) && !IsWhitespace(r[|r| - 1])
    ensures |r| <= |s|
    ensures |s| > 0 && !IsWhitespace(s[0]) && !IsWhitespace(s[|s| - 1]) ==> r == s
  {
    TrimEnd(TrimStart(s, IsWhitespace), IsWhitespace)
  }

  // ---------------------------------------------------------------------------
  // Decimal digits
  // ---------------------------------------------------------------------------

  function DigitValue(c: char): (v: nat)
    requires IsDigit(c)
    ensures v <= 9
  {
    c as int - '0' as int
  }

  /** The number a string of decimal digits denotes. */
  function DecimalValue(d: string): (v: nat)
    requires forall c :: c in d ==> IsDigit(c)
  {
    if |d| == 0 then 0
    else
      assert forall c :: c in d[..|d| - 1] ==> c in d;
      DecimalValue(d[..|d| - 1]) * 10 + DigitValue(d[|d| - 1])
  }

  /** `/^\d+$/.test(s)`. */
  predicate IsNumeral(s: string) {
    |s| > 0 && forall c :: c in s ==> IsDigit(c)
  }
}
