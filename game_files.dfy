/** The rule all three generators use to name a game's file, and the record each keeps
    of a saved game. */
module GameFiles {
  import opened Text
  import opened PyJson

  /** A character a title keeps: `c.isalnum() or c in (' ', '-', '_')`. Python's Unicode
      `isalnum` is a parameter. */
  predicate KeptChar(c: char, isAlnum: char -> bool) {
    isAlnum(c) || c == ' ' || c == '-' || c == '_'
  }

  /** The characters of a title that it keeps, in order. */
  function KeepTitleChars(title: string, isAlnum: char -> bool): (r: string)
    ensures |r| <= |title|
    ensures forall c <- r :: c in title && KeptChar(c, isAlnum)
    ensures forall c <- title :: KeptChar(c, isAlnum) ==> c in r
  {
    if title == [] then []
    else
      var rest := KeepTitleChars(title[1..], isAlnum);
      assert forall c <- title[1..] :: c in title;
      assert forall c <- title :: c == title[0] || c in title[1..];
      if KeptChar(title[0], isAlnum) then [title[0]] + rest else rest
  }

  /** The filter works piece by piece, so it keeps the characters in their order and number. */
  lemma {:induction false} KeepTitleCharsAppend(a: string, b: string, isAlnum: char -> bool)
    ensures KeepTitleChars(a + b, isAlnum) == KeepTitleChars(a, isAlnum) + KeepTitleChars(b, isAlnum)
  {
    if a == [] {
      assert a + b == b;
    } else {
      assert (a + b)[0] == a[0];
      assert (a + b)[1..] == a[1..] + b;
      KeepTitleCharsAppend(a[1..], b, isAlnum);
    }
  }

  /** One character is kept exactly when it is alphanumeric, a space, a hyphen or an underscore. */
  lemma KeepTitleChar(c: char, isAlnum: char -> bool)
    ensures KeepTitleChars([c], isAlnum) == if KeptChar(c, isAlnum) then [c] else []
  {
    assert [c][1..] == [];
  }

  /** A title made only of kept characters is kept whole. */
  lemma {:induction false} KeepTitleCharsAll(title: string, isAlnum: char -> bool)
    requires forall k | 0 <= k < |title| :: KeptChar(title[k], isAlnum)
    ensures KeepTitleChars(title, isAlnum) == title
  {
    if title != [] {
      assert forall k | 0 <= k < |title[1..]| :: title[1..][k] == title[k + 1];
      KeepTitleCharsAll(title[1..], isAlnum);
    }
  }

  /** `"".join(kept).strip().replace(' ', '_')`. */
  function SafeTitle(title: string, isAlnum: char -> bool): (r: string)
    ensures forall c <- r :: isAlnum(c) || c == '-' || c == '_'
    ensures ' ' !in r
  {
    var kept := KeepTitleChars(title, isAlnum);
    var stripped := Strip(kept);
    StripChars(kept);
    assert forall c <- stripped :: c in kept;
    assert forall c <- stripped :: isAlnum(c) || c == ' ' || c == '-' || c == '_';
    Replace(stripped, ' ', '_')
  }

  /** A title of kept characters with no whitespace at either end keeps its length, and each
      of its spaces becomes `_`. */
  lemma SafeTitleOfKept(title: string, isAlnum: char -> bool)
    requires Trimmed(title) && forall k | 0 <= k < |title| :: KeptChar(title[k], isAlnum)
    ensures |SafeTitle(title, isAlnum)| == |title|
    ensures forall k | 0 <= k < |title| ::
      SafeTitle(title, isAlnum)[k] == (if title[k] == ' ' then '_' else title[k])
  {
    KeepTitleCharsAll(title, isAlnum);
    StripTrimmed(title);
  }

  /** The safe title is empty exactly when every character the title keeps is whitespace. */
  lemma SafeTitleEmpty(title: string, isAlnum: char -> bool)
    ensures SafeTitle(title, isAlnum) == [] <==> forall c <- title :: KeptChar(c, isAlnum) ==> IsSpace(c)
  {
    var kept := KeepTitleChars(title, isAlnum);
    if AllSpace(kept) {
      forall c | c in title && KeptChar(c, isAlnum) ensures IsSpace(c) {
        assert c in kept;
        var k :| 0 <= k < |kept| && kept[k] == c;
      }
    }
    if forall c <- title :: KeptChar(c, isAlnum) ==> IsSpace(c) {
      forall k | 0 <= k < |kept| ensures IsSpace(kept[k]) {
        assert kept[k] in kept;
      }
    }
  }

  /** `f"game_{number:02d}_{safe_title}.html"` */
  function FileName(number: int, safeTitle: string): (r: string)
    ensures |r| >= 11 && r[..5] == "game_" && r[|r| - 5..] == ".html"
  {
    var r := "game_" + Format2d(number) + "_" + safeTitle + ".html";
    assert r[..5] == "game_";
    assert r[|r| - 5..] == ".html";
    r
  }

  /** The first position at or after `i` that does not hold a digit. */
  function DigitRunEnd(s: string, i: nat): (r: nat)
    requires i <= |s|
    ensures i <= r <= |s|
    decreases |s| - i
  {
    if i < |s| && IsDigit(s[i]) then DigitRunEnd(s, i + 1) else i
  }

  lemma {:induction false} DigitRunOfNumeral(d: string, rest: string, i: nat)
    requires i <= |d| && forall c <- d :: IsDigit(c)
    ensures DigitRunEnd(d + "_" + rest, i) == |d|
    decreases |d| - i
  {
    var s := d + "_" + rest;
    if i < |d| {
      assert s[i] == d[i];
      assert d[i] in d;
      DigitRunOfNumeral(d, rest, i + 1);
    } else {
      assert s[i] == '_';
    }
  }

  /** Where the number part of a name starts. */
  lemma FileNameParts(n: int, t: string)
    ensures FileName(n, t)[5..] == Format2d(n) + "_" + (t + ".html")
  {
    var d := Format2d(n);
    assert FileName(n, t) == "game_" + (d + "_" + (t + ".html"));
  }

  /** Reading the digits back from a name's number part. */
  lemma NumeralOfFileName(n: int, t: string)
    requires 0 <= n
    ensures var f := FileName(n, t)[5..]; f[..DigitRunEnd(f, 0)] == Format2d(n)
  {
    var d := Format2d(n);
    FileNameParts(n, t);
    DigitRunOfNumeral(d, t + ".html", 0);
  }

  /** The number part of a file name can be read back: two files of this rule with different
      non-negative numbers never share a name, whatever their titles. */
  lemma FileNameNumberInjective(n1: int, t1: string, n2: int, t2: string)
    requires 0 <= n1 && 0 <= n2
    ensures FileName(n1, t1) == FileName(n2, t2) ==> n1 == n2
  {
    NumeralOfFileName(n1, t1);
    NumeralOfFileName(n2, t2);
  }

  /** A saved game: its number, title and file name, the page written to that file, and the
      remaining fields of the record the generator keeps for its index. */
  datatype SavedGame = SavedGame(number: int, title: string, filename: string, html: string,
                                 extra: map<string, Json>)

  /** Whether a record is named by the rule. */
  predicate NamedByRule(g: SavedGame, isAlnum: char -> bool) {
    g.filename == FileName(g.number, SafeTitle(g.title, isAlnum))
  }

  /** Game numbers that strictly increase. */
  predicate Increasing(games: seq<SavedGame>) {
    forall a, b | 0 <= a < b < |games| :: games[a].number < games[b].number
  }

  /** No two games of a run with increasing non-negative numbers are written to the same file. */
  lemma DistinctFileNames(games: seq<SavedGame>, isAlnum: char -> bool)
    requires Increasing(games)
    requires forall g <- games :: 0 <= g.number && NamedByRule(g, isAlnum)
    ensures forall a, b | 0 <= a < b < |games| :: games[a].filename != games[b].filename
  {
    forall a, b | 0 <= a < b < |games|
      ensures games[a].filename != games[b].filename
    {
      var ga, gb := games[a], games[b];
      assert ga in games && gb in games;
      FileNameNumberInjective(ga.number, SafeTitle(ga.title, isAlnum), gb.number, SafeTitle(gb.title, isAlnum));
    }
  }
}
