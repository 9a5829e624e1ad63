/**
 * `slugify` and `unslugify` (src/lib/utils.ts): the route segment of an
 * office page and the display name read back from it.
 */
module Slug {
  import opened Types
  import opened Text

  // ---------------------------------------------------------------------------
  // slugify
  // ---------------------------------------------------------------------------

  /** The characters a slug may hold: `[a-z0-9_-]`. */
  predicate IsSlugChar(c: char) { IsAsciiLower(c) || IsDigit(c) || c == '_' || c == '-' }

  /** What `slugify` promises of its output: slug characters only, no `--`, no hyphen at either end. */
  predicate IsSlug(s: string) {
    && (forall c :: c in s ==> IsSlugChar(c))
    && NoAdjacent(s, IsHyphen)
    && (|s| > 0 ==> s[0] != '-' && s[|s| - 1] != '-')
  }

  /** `replace(/[^\w-]+/g, '')`: keeps word characters and hyphens, in order. */
  function KeepWordChars(s: string): (r: string)
    ensures forall c :: c in r ==> IsWordChar(c) || c == '-'
    ensures forall c :: c in r ==> c in s
  {
    if |s| == 0 then ""
    else if IsWordChar(s[0]) || s[0] == '-' then [s[0]] + KeepWordChars(s[1..])
    else KeepWordChars(s[1..])
  }

  /**
   * The pipeline of `slugify`, one regex replace per step. Every output is a
   * slug: `[a-z0-9_-]` only, never `--`, never a hyphen at either end.
   */
  function Slugify(text: string): (slug: string)
    ensures IsSlug(slug)
  {
    var lowered := Lower(text);
    var dashed := CollapseRuns(lowered, IsWhitespace, '-', false);
    var kept := KeepWordChars(dashed);
    var single := CollapseRuns(kept, IsHyphen, '-', false);
    CollapsedIsSlugShaped(text);
    TrimmedIsSlug(single);
    TrimEnd(TrimStart(single, IsHyphen), IsHyphen)
  }

  lemma NoAdjacentSlice(s: string, p: char -> bool, a: nat, b: nat)
    requires a <= b <= |s|
    requires NoAdjacent(s, p)
    ensures NoAdjacent(s[a..b], p)
  {
    forall i | 0 <= i < |s[a..b]| - 1
      ensures !(p(s[a..b][i]) && p(s[a..b][i + 1]))
    {
      assert s[a..b][i] == s[a + i] && s[a..b][i + 1] == s[a + i + 1];
    }
  }

  /** The string `slugify` holds just before trimming has slug characters only and no `--`. */
  lemma CollapsedIsSlugShaped(text: string)
    ensures var single := CollapseRuns(KeepWordChars(CollapseRuns(Lower(text), IsWhitespace, '-', false)), IsHyphen, '-', false);
      (forall c :: c in single ==> IsSlugChar(c)) && NoAdjacent(single, IsHyphen)
  {
    var lowered := Lower(text);
    var dashed := CollapseRuns(lowered, IsWhitespace, '-', false);
    var kept := KeepWordChars(dashed);
    assert forall c :: c in lowered ==> !IsAsciiUpper(c);
    assert forall c :: c in dashed ==> !IsAsciiUpper(c);
    assert forall c :: c in kept ==> IsSlugChar(c);
  }

  /** Trimming the front keeps only characters of the string and never makes two class members neighbours. */
  lemma {:induction false} TrimStartKeeps(s: string, p: char -> bool, q: char -> bool)
    requires NoAdjacent(s, q)
    ensures NoAdjacent(TrimStart(s, p), q)
    ensures forall c :: c in TrimStart(s, p) ==> c in s
  {
    if |s| > 0 && p(s[0]) {
      NoAdjacentSlice(s, q, 1, |s|);
      assert s[1..|s|] == s[1..];
      TrimStartKeeps(s[1..], p, q);
      assert forall c :: c in s[1..] ==> c in s;
    }
  }

  /** Trimming the back keeps only characters of the string and never makes two class members neighbours. */
  lemma {:induction false} TrimEndKeeps(s: string, p: char -> bool, q: char -> bool)
    requires NoAdjacent(s, q)
    ensures NoAdjacent(TrimEnd(s, p), q)
    ensures forall c :: c in TrimEnd(s, p) ==> c in s
  {
    if |s| > 0 && p(s[|s| - 1]) {
      NoAdjacentSlice(s, q, 0, |s| - 1);
      assert s[0..|s| - 1] == s[..|s| - 1];
      TrimEndKeeps(s[..|s| - 1], p, q);
      assert forall c :: c in s[..|s| - 1] ==> c in s;
    }
  }

  /** What trimming a class from both ends leaves neither starts nor ends in the class. */
  lemma TrimBothEnds(s: string, p: char -> bool)
    ensures var r := TrimEnd(TrimStart(s, p), p);
      |r| > 0 ==> !p(r[0]) && !p(r[|r| - 1])
  {
    var front := TrimStart(s, p);
    var r := TrimEnd(front, p);
    if |r| > 0 {
      assert r[0] == front[0];
    }
  }

  /** Trimming hyphens keeps characters of the string and its `--`-freedom, with no hyphen left at either end. */
  lemma TrimHyphens(single: string)
    requires NoAdjacent(single, IsHyphen)
    ensures var r := TrimEnd(TrimStart(single, IsHyphen), IsHyphen);
      && (forall c :: c in r ==> c in single)
      && NoAdjacent(r, IsHyphen)
      && (|r| > 0 ==> r[0] != '-' && r[|r| - 1] != '-')
  {
    var front := TrimStart(single, IsHyphen);
    TrimStartKeeps(single, IsHyphen, IsHyphen);
    TrimEndKeeps(front, IsHyphen, IsHyphen);
    TrimBothEnds(single, IsHyphen);
  }

  /** Trimming hyphens from both ends of a slug-shaped string gives a slug. */
  lemma TrimmedIsSlug(single: string)
    requires forall c :: c in single ==> IsSlugChar(c)
    requires NoAdjacent(single, IsHyphen)
    ensures IsSlug(TrimEnd(TrimStart(single, IsHyphen), IsHyphen))
  {
    TrimHyphens(single);
  }

  /** `slugify` leaves a slug unchanged. */
  lemma SlugifyFixesSlugs(s: string)
    requires IsSlug(s)
    ensures Slugify(s) == s
  {
    LowerIdentity(s);
    CollapseRunsWithoutClass(s, IsWhitespace, '-', false);
    KeepWordCharsIdentity(s);
    CollapseRunsIdentity(s, IsHyphen, '-', false);
  }

  lemma {:induction false} KeepWordCharsIdentity(s: string)
    requires forall c :: c in s ==> IsWordChar(c) || c == '-'
    ensures KeepWordChars(s) == s
  {
    if |s| > 0 {
      assert forall c :: c in s[1..] ==> c in s;
      KeepWordCharsIdentity(s[1..]);
      assert s == [s[0]] + s[1..];
    }
  }

  /** `slugify` is idempotent. */
  lemma SlugifyIdempotent(text: string)
    ensures Slugify(Slugify(text)) == Slugify(text)
  {
    SlugifyFixesSlugs(Slugify(text));
  }

  /**
   * `slugify` by its steps: once lower-casing, turning whitespace runs into
   * hyphens and dropping non-word characters has produced a slug, the
   * remaining steps change nothing.
   */
  lemma SlugifyBySteps(text: string, body: string)
    requires KeepWordChars(CollapseRuns(Lower(text), IsWhitespace, '-', false)) == body
    requires IsSlug(body)
    ensures Slugify(text) == body
  {
    CollapseRunsIdentity(body, IsHyphen, '-', false);
  }

  lemma {:induction false} KeepWordCharsAppend(a: string, b: string)
    ensures KeepWordChars(a + b) == KeepWordChars(a) + KeepWordChars(b)
  {
    if |a| > 0 {
      assert (a + b)[1..] == a[1..] + b;
      KeepWordCharsAppend(a[1..], b);
    } else {
      assert a + b == b;
    }
  }

  function KeepWordCharsEach(ws: seq<string>): (r: seq<string>)
    ensures |r| == |ws|
    ensures forall i :: 0 <= i < |ws| ==> r[i] == KeepWordChars(ws[i])
  {
    seq(|ws|, i requires 0 <= i < |ws| => KeepWordChars(ws[i]))
  }

  /** Dropping non-word characters from a hyphen-join works piece by piece. */
  lemma {:induction false} KeepWordCharsJoin(ws: seq<string>)
    ensures KeepWordChars(Join(ws, '-')) == Join(KeepWordCharsEach(ws), '-')
  {
    var ks := KeepWordCharsEach(ws);
    if |ws| > 1 {
      KeepWordCharsJoin(ws[1..]);
      assert ks[1..] == KeepWordCharsEach(ws[1..]);
      assert KeepWordChars("-") == "-";
      KeepWordCharsAppend(ws[0] + "-", Join(ws[1..], '-'));
      KeepWordCharsAppend(ws[0], "-");
    }
  }

  // ---------------------------------------------------------------------------
  // unslugify
  // ---------------------------------------------------------------------------

  const WordsToUppercase: seq<string> := ["U.s."]

  const WordsToLowercase: seq<string> := ["of", "and", "the", "in"]

  /** `/^\d+$/` holds of the hyphen-separated segment after position `index` of the raw slug. */
  predicate NextSegmentIsNumber(slug: string, index: nat) {
    var segments := Split(slug, '-');
    index + 1 < |segments| && IsNumeral(segments[index + 1])
  }

  /**
   * The callback of `unslugify`'s `map`, branch for branch. Its
   * `wordsToUppercase` branch is unreachable (a lower-cased word never equals
   * "U.s."), and the "district followed by a number" branch gives what the
   * last branch would, so the word follows the plain rule.
   */
  function DisplayWord(word: string, index: nat, slug: string): (shown: string)
    ensures shown == PlainDisplayWord(word, index)
  {
    LowerHasNoCapital(word, "U.s.");
    DistrictIsNoJoiner(word);
    if Lower(word) in WordsToUppercase then ReplaceFirst(Upper(word), ".", ". ")
    else if Contains(Lower(word), "district") && NextSegmentIsNumber(slug, index) then Capitalize(word)
    else if index > 0 && Lower(word) in WordsToLowercase then Lower(word)
    else if Lower(word) == "us" then "U.S."
    else Capitalize(word)
  }

  /** The words `unslugify` maps over: hyphens become spaces, then the text is split on spaces. */
  function SlugWords(slug: string): seq<string> {
    Split(ReplaceChar(slug, '-', ' '), ' ')
  }

  /**
   * `unslugify` treats hyphens and spaces alike as word breaks and joins the
   * re-cased words with single spaces: "us" becomes "U.S.", the joiners
   * "of", "and", "the", "in" are lower-cased except as the first word, and
   * every other word has its first character upper-cased.
   */
  function Unslugify(slug: string): (shown: string)
    ensures var words := SlugWords(slug);
      shown == Join(seq(|words|, i requires 0 <= i < |words| => PlainDisplayWord(words[i], i)), ' ')
  {
    var words := SlugWords(slug);
    assert seq(|words|, i requires 0 <= i < |words| => DisplayWord(words[i], i, slug))
        == seq(|words|, i requires 0 <= i < |words| => PlainDisplayWord(words[i], i));
    Join(seq(|words|, i requires 0 <= i < |words| => DisplayWord(words[i], i, slug)), ' ')
  }

  /** The word rule that remains once the dead and the redundant branch are gone. */
  function PlainDisplayWord(word: string, index: nat): (r: string)
    ensures Lower(word) == "us" ==> r == "U.S."
    ensures index > 0 && Lower(word) in WordsToLowercase ==> r == Lower(word)
    ensures index == 0 && Lower(word) != "us" ==> r == Capitalize(word)
    ensures Lower(word) !in WordsToLowercase && Lower(word) != "us" ==> r == Capitalize(word)
  {
    if index > 0 && Lower(word) in WordsToLowercase then Lower(word)
    else if Lower(word) == "us" then "U.S."
    else Capitalize(word)
  }

  /** A word containing "district" is none of the short joiners. */
  lemma DistrictIsNoJoiner(word: string)
    ensures Contains(Lower(word), "district") ==> Lower(word) !in WordsToLowercase
  {
    if Contains(Lower(word), "district") {
      ContainsLength(Lower(word), "district");
    }
  }

  // ---------------------------------------------------------------------------
  // slugify over words, and the slug round trip
  // ---------------------------------------------------------------------------

  /** A word that may sit between two hyphens of a slug: non-empty, `[a-z0-9_]` only. */
  predicate IsSlugWord(w: string) {
    |w| > 0 && forall c :: c in w ==> IsSlugChar(c) && c != '-'
  }

  lemma SlugWordChars(w: string)
    requires IsSlugWord(w)
    ensures forall i :: 0 <= i < |w| ==> IsSlugChar(w[i]) && w[i] != '-'
  {
    forall i | 0 <= i < |w|
      ensures IsSlugChar(w[i]) && w[i] != '-'
    {
      assert w[i] in w;
    }
  }

  /** Hyphen-joining slug words gives a slug. */
  lemma {:induction false} JoinIsSlug(ws: seq<string>)
    requires |ws| >= 1
    requires forall w :: w in ws ==> IsSlugWord(w)
    ensures IsSlug(Join(ws, '-'))
  {
    var w := ws[0];
    assert w in ws;
    SlugWordChars(w);
    if |ws| > 1 {
      var tail := Join(ws[1..], '-');
      JoinIsSlug(ws[1..]);
      assert ws[1] in ws;
      if |ws| == 2 {
        assert tail == ws[1];
      } else {
        assert tail == ws[1..][0] + "-" + Join(ws[1..][1..], '-');
      }
      var j := w + "-" + tail;
      assert Join(ws, '-') == j;
      forall i | 0 <= i < |j| - 1
        ensures !(IsHyphen(j[i]) && IsHyphen(j[i + 1]))
      {
        if i < |w| - 1 {
          assert j[i + 1] == w[i + 1];
        } else if i == |w| - 1 {
          assert j[i] == w[i];
        } else if i == |w| {
          assert j[i + 1] == tail[0];
        } else {
          assert j[i] == tail[i - |w| - 1] && j[i + 1] == tail[i - |w|];
        }
      }
      assert forall c :: c in j ==> c in w || c == '-' || c in tail;
      assert j[0] == w[0];
      assert j[|j| - 1] == tail[|tail| - 1];
    }
  }

  /** A word `unslugify` can produce between two spaces: non-empty, without whitespace or hyphen. */
  predicate IsDisplayWord(d: string) {
    |d| > 0 && forall c :: c in d ==> !IsWhitespace(c) && c != '-'
  }

  /** Lower-casing keeps a display word a display word. */
  lemma LowerDisplayWord(d: string)
    requires IsDisplayWord(d)
    ensures IsDisplayWord(Lower(d))
  {
    forall c | c in Lower(d)
      ensures !IsWhitespace(c) && c != '-'
    {
      var k :| 0 <= k < |d| && Lower(d)[k] == c;
      assert d[k] in d;
    }
  }

  /** Lower-casing a space-join of display words and collapsing its whitespace gives the hyphen-join of the lower-cased words. */
  lemma CollapseLoweredJoin(ds: seq<string>)
    requires |ds| >= 1
    requires forall i :: 0 <= i < |ds| ==> IsDisplayWord(ds[i])
    ensures CollapseRuns(Lower(Join(ds, ' ')), IsWhitespace, '-', false) == Join(LowerEach(ds), '-')
  {
    var ls := LowerEach(ds);
    LowerJoin(ds, ' ');
    forall l | l in ls
      ensures |l| > 0 && forall c :: c in l ==> !IsWhitespace(c)
    {
      var i :| 0 <= i < |ls| && ls[i] == l;
      LowerDisplayWord(ds[i]);
    }
    CollapseRunsJoin(ls, IsWhitespace, ' ', '-');
  }

  /**
   * `slugify` of a space-join of display words: each word is lower-cased and
   * stripped to its word characters, and the results are hyphen-joined.
   */
  lemma SlugifyJoin(ds: seq<string>)
    requires |ds| >= 1
    requires forall i :: 0 <= i < |ds| ==> IsDisplayWord(ds[i])
    requires forall i :: 0 <= i < |ds| ==> IsSlugWord(KeepWordChars(Lower(ds[i])))
    ensures Slugify(Join(ds, ' ')) == Join(KeepWordCharsEach(LowerEach(ds)), '-')
  {
    var ls := LowerEach(ds);
    CollapseLoweredJoin(ds);
    KeepWordCharsJoin(ls);
    JoinIsSlug(KeepWordCharsEach(ls));
    SlugifyBySteps(Join(ds, ' '), KeepWordChars(Join(ls, '-')));
  }

  /** Every hyphen-separated piece of a non-empty slug is a slug word. */
  lemma {:induction false} SlugPieces(s: string)
    requires IsSlug(s) && |s| > 0
    ensures forall w :: w in Split(s, '-') ==> IsSlugWord(w)
  {
    SplitPiecesNonEmpty(s);
    var pieces := Split(s, '-');
    forall w | w in pieces
      ensures IsSlugWord(w)
    {
      var i :| 0 <= i < |pieces| && pieces[i] == w;
    }
  }

  /**
   * Pieces after the first are non-empty when no two hyphens are neighbours
   * and the string does not end with one; the first is non-empty when the
   * string does not start with a hyphen.
   */
  lemma {:induction false} SplitPiecesNonEmpty(t: string)
    requires NoAdjacent(t, IsHyphen)
    requires |t| > 0 ==> t[|t| - 1] != '-'
    ensures forall i :: 1 <= i < |Split(t, '-')| ==> |Split(t, '-')[i]| > 0
    ensures |t| > 0 && t[0] != '-' ==> |Split(t, '-')[0]| > 0
  {
    if |t| > 0 {
      var rest := Split(t[1..], '-');
      NoAdjacentSlice(t, IsHyphen, 1, |t|);
      SplitPiecesNonEmpty(t[1..]);
      if t[0] == '-' {
        assert |t| > 1 && t[1] != '-';
        assert t[1..][0] == t[1];
      }
    }
  }

  /** "us" is re-cased to "U.S.", which `slugify`'s per-word steps take back to "us". */
  lemma UsDisplayWordSlugs()
    ensures IsDisplayWord("U.S.")
    ensures KeepWordChars(Lower("U.S.")) == "us"
  {
    assert Lower("U.S.") == "u.s.";
    assert KeepWordChars("s.") == "s";
  }

  /** A capitalised slug word lower-cases back to itself. */
  lemma CapitalizedSlugWord(w: string)
    requires IsSlugWord(w)
    ensures IsDisplayWord(Capitalize(w))
    ensures Lower(Capitalize(w)) == w
  {
    SlugWordChars(w);
    var d := Capitalize(w);
    assert forall i :: 1 <= i < |d| ==> d[i] == w[i];
    forall c | c in d
      ensures !IsWhitespace(c) && c != '-'
    {
      var k :| 0 <= k < |d| && d[k] == c;
    }
  }

  /** The re-cased word keeps no whitespace and no hyphen, and `slugify`'s per-word steps give the slug word back. */
  lemma PlainDisplayWordSlugs(w: string, index: nat)
    requires IsSlugWord(w)
    ensures IsDisplayWord(PlainDisplayWord(w, index))
    ensures KeepWordChars(Lower(PlainDisplayWord(w, index))) == w
  {
    SlugWordChars(w);
    LowerIdentity(w);
    KeepWordCharsIdentity(w);
    if w == "us" {
      UsDisplayWordSlugs();
    } else if index > 0 && w in WordsToLowercase {
    } else {
      CapitalizedSlugWord(w);
    }
  }

  /** `unslugify` is a right inverse of `slugify` on slugs: re-slugifying the display name gives the slug back. */
  lemma SlugifyUnslugify(s: string)
    requires IsSlug(s)
    ensures Slugify(Unslugify(s)) == s
  {
    if |s| == 0 {
      assert SlugWords(s) == [""];
      assert Unslugify(s) == "";
      SlugifyFixesSlugs(s);
    } else {
      var words := SlugWords(s);
      SplitReplaceChar(s, '-', ' ');
      assert words == Split(s, '-');
      SlugPieces(s);
      var ds := seq(|words|, i requires 0 <= i < |words| => PlainDisplayWord(words[i], i));
      forall i | 0 <= i < |words|
        ensures KeepWordChars(Lower(ds[i])) == words[i]
        ensures IsDisplayWord(ds[i])
        ensures IsSlugWord(KeepWordChars(Lower(ds[i])))
      {
        assert words[i] in words;
        PlainDisplayWordSlugs(words[i], i);
      }
      SlugifyJoin(ds);
      assert KeepWordCharsEach(LowerEach(ds)) == words;
      JoinSplit(s, '-');
    }
  }

  lemma SenateWords()
    ensures SlugWords("us-senate") == ["us", "senate"]
  {
    assert ReplaceChar("us-senate", '-', ' ') == "us senate";
    assert Join(["us", "senate"], ' ') == "us senate";
    SplitJoin(["us", "senate"], ' ');
  }

  lemma SenateDisplayWords()
    ensures PlainDisplayWord("us", 0) == "U.S."
    ensures PlainDisplayWord("senate", 1) == "Senate"
    ensures Join(["U.S.", "Senate"], ' ') == "U.S. Senate"
  {
  }

  /** The page of the Senate seat: "us-senate" reads back as "U.S. Senate". */
  lemma UnslugifySenate()
    ensures Unslugify("us-senate") == "U.S. Senate"
  {
    SenateWords();
    SenateDisplayWords();
    var words := SlugWords("us-senate");
    assert seq(|words|, i requires 0 <= i < |words| => PlainDisplayWord(words[i], i)) == ["U.S.", "Senate"];
  }

  /** ... and "U.S. Senate" slugifies back to "us-senate". */
  lemma SlugifySenate()
    ensures Slugify("U.S. Senate") == "us-senate"
  {
    assert IsSlug("us-senate");
    UnslugifySenate();
    SlugifyUnslugify("us-senate");
  }
}
