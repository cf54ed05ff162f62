/** `FixedCodeCleaner`: the sanitizer the adaptive generator runs on every page the model
    returns. It strips markdown fences, repairs a missing doctype or `html` element, drops
    blank lines and trailing whitespace, and offers a lenient HTML check, an emergency
    cleanup and a brace/parenthesis check of the page's scripts. */
module FixedCleaner {
  import opened Wrappers
  import opened Text
  import opened Fences
  import opened Pages

  // ---------------------------------------------------------------------------
  // Structure repair

  /** `cleaned.upper().startswith('<!DOCTYPE')` */
  predicate HasDoctype(c: string) {
    MatchesCIAt(c, 0, "<!doctype")
  }

  /** `re.search(r'<html[^>]*>', c, re.IGNORECASE)` can match at `i`: an opening `<html`
      with a `>` somewhere after it. */
  predicate HtmlTagAt(c: string, i: nat) {
    MatchesCIAt(c, i, "<html") && '>' in c[i + 5..]
  }

  /** The start of the first match of that search at or after `i`. */
  function FindHtmlTag(c: string, i: nat): (r: Option<nat>)
    requires i <= |c|
    ensures r.Some? ==> i <= r.value < |c| && HtmlTagAt(c, r.value)
    ensures r.Some? ==> forall p :: i <= p < r.value ==> !HtmlTagAt(c, p)
    ensures r.None? ==> forall p :: i <= p <= |c| ==> !HtmlTagAt(c, p)
    decreases |c| - i
  {
    if HtmlTagAt(c, i) then Some(i)
    else if i == |c| then None
    else FindHtmlTag(c, i + 1)
  }

  /** Whether the text shows any of the HTML structure the repair step looks for. */
  predicate LooksLikeHtml(c: string) {
    HasDoctype(c) || FindHtmlTag(c, 0).Some? || ContainsCI(c, "<head>") || ContainsCI(c, "<body>")
  }

  /** What the repair step puts around a text with a `head` or `body` but no `html` tag. */
  const HtmlLangLine: string := "<html lang=\"en\">"
  const WrapOpen: string := DoctypeLine + "\n" + HtmlLangLine + "\n"
  const WrapClose: string := "\n</html>"

  lemma WrapOpenFacts()
    ensures |WrapOpen| == 33 && WrapOpen[..16] == DoctypeLine + "\n"
    ensures MatchesCIAt(WrapOpen, 16, "<html")
  {
    var head := DoctypeLine + "\n";
    assert WrapOpen == head + (HtmlLangLine + "\n");
    assert WrapOpen[..16] == head;
    assert HtmlLangLine[0] == '<' && HtmlLangLine[1] == 'h' && HtmlLangLine[2] == 't';
    assert HtmlLangLine[3] == 'm' && HtmlLangLine[4] == 'l';
    forall k | 0 <= k < 5 ensures LowerAt(WrapOpen, 16, k) == "<html"[k] {
      assert WrapOpen[16 + k] == HtmlLangLine[k];
    }
  }

  /** The repair step: keep a page that starts with a doctype; otherwise put a doctype line
      before its first `html` tag (dropping whatever precedes the tag); otherwise, if it has a
      `head` or `body` tag, wrap it in a doctype and an `html` element; otherwise keep it. */
  function Repaired(c: string): string {
    if HasDoctype(c) then c
    else match FindHtmlTag(c, 0)
      case Some(st) => DoctypeLine + "\n" + c[st..]
      case None =>
        if ContainsCI(c, "<head>") || ContainsCI(c, "<body>") then
          WrapOpen + c + WrapClose
        else c
  }

  /** What the repair step promises: a text with HTML structure comes out starting with a
      doctype, and the text itself survives - whole, or from its first `html` tag on. */
  lemma RepairedShape(c: string)
    ensures !LooksLikeHtml(c) ==> Repaired(c) == c
    ensures HasDoctype(c) ==> Repaired(c) == c
    ensures !HasDoctype(c) && LooksLikeHtml(c) ==> Repaired(c)[..16] == DoctypeLine + "\n"
    ensures !HasDoctype(c) && FindHtmlTag(c, 0).Some? ==>
      var st := FindHtmlTag(c, 0).value;
      Repaired(c)[16..] == c[st..] && forall p :: 0 <= p < st ==> !HtmlTagAt(c, p)
    ensures !HasDoctype(c) && FindHtmlTag(c, 0).None? && LooksLikeHtml(c) ==>
      Repaired(c)[..33] == WrapOpen
      && Repaired(c)[33..33 + |c|] == c && Repaired(c)[33 + |c|..] == WrapClose
  {
    if !HasDoctype(c) {
      match FindHtmlTag(c, 0)
      case Some(st) => RepairedTagged(c, st);
      case None => if LooksLikeHtml(c) { RepairedWrapped(c); }
    }
  }

  lemma RepairedTagged(c: string, st: nat)
    requires !HasDoctype(c) && FindHtmlTag(c, 0) == Some(st)
    ensures Repaired(c)[..16] == DoctypeLine + "\n" && Repaired(c)[16..] == c[st..]
  {
    var head := DoctypeLine + "\n";
    assert |head| == 16;
    assert Repaired(c) == head + c[st..];
  }

  lemma RepairedWrapped(c: string)
    requires !HasDoctype(c) && FindHtmlTag(c, 0).None? && LooksLikeHtml(c)
    ensures Repaired(c)[..16] == DoctypeLine + "\n"
    ensures Repaired(c)[..33] == WrapOpen
    ensures Repaired(c)[33..33 + |c|] == c && Repaired(c)[33 + |c|..] == WrapClose
  {
    var r := Repaired(c);
    assert r == WrapOpen + c + WrapClose;
    WrapOpenFacts();
    ThreeParts(WrapOpen, c, WrapClose, 16);
  }

  /** The three parts of a concatenation, and a prefix of its first part. */
  lemma ThreeParts(a: string, b: string, c: string, n: nat)
    requires n <= |a|
    ensures (a + b + c)[..|a|] == a && (a + b + c)[..n] == a[..n]
    ensures (a + b + c)[|a|..|a| + |b|] == b && (a + b + c)[|a| + |b|..] == c
  {
  }

  // ---------------------------------------------------------------------------
  // Lenient validation

  /** `lit in h.lower()` as 0 or 1, the way `sum` counts a boolean. */
  function Indicator(h: string, lit: string): nat {
    if ContainsCI(h, lit) then 1 else 0
  }

  /** How many of the five indicators occur anywhere in the text, in any letter case. */
  function IndicatorCount(h: string): nat {
    Indicator(h, "doctype") + Indicator(h, "<html") + Indicator(h, "<head") + Indicator(h, "<body")
    + Indicator(h, "<title")
  }

  /** `_lenient_html_validation`: at least two of the five indicators occur. */
  predicate LenientValid(h: string) {
    IndicatorCount(h) >= 2
  }

  /** An occurrence stays an occurrence when text is added on either side. */
  lemma ContainsCIExtend(h: string, lit: string, before: string, after: string)
    ensures ContainsCI(h, lit) ==> ContainsCI(before + h + after, lit)
  {
    ContainsCIAppend(before, h, lit);
    ContainsCIAppend(before + h, after, lit);
  }

  /** Adding text around a page never makes it fail the lenient check. */
  lemma LenientValidExtend(h: string, before: string, after: string)
    requires LenientValid(h)
    ensures LenientValid(before + h + after)
  {
    ContainsCIExtend(h, "doctype", before, after);
    ContainsCIExtend(h, "<html", before, after);
    ContainsCIExtend(h, "<head", before, after);
    ContainsCIExtend(h, "<body", before, after);
    ContainsCIExtend(h, "<title", before, after);
  }

  /** A page whose first line is the doctype line and whose characters 16 to 20 spell `<html`
      passes the lenient check. */
  lemma DoctypeAndHtmlValid(r: string)
    requires |r| >= 21 && r[..16] == DoctypeLine + "\n" && MatchesCIAt(r, 16, "<html")
    ensures LenientValid(r)
  {
    assert r[..15] == DoctypeLine by { assert r[..15] == r[..16][..15]; }
    DoctypeLineIndicators(r);
    assert ContainsCI(r, "doctype") && ContainsCI(r, "<html");
  }

  /** Whenever the repair step adds a doctype the repaired page passes the lenient check, so
      its warning can only be logged for a page that already had a doctype or that has no
      HTML structure at all. */
  lemma RepairedIsValid(c: string)
    requires !HasDoctype(c) && LooksLikeHtml(c)
    ensures LenientValid(Repaired(c))
  {
    RepairedShape(c);
    match FindHtmlTag(c, 0)
    case Some(st) => TaggedRepairValid(c, st, Repaired(c));
    case None => WrappedRepairValid(c, Repaired(c));
  }

  /** The page cut at its first `html` tag, behind a doctype line. */
  lemma TaggedRepairValid(c: string, st: nat, r: string)
    requires st < |c| && HtmlTagAt(c, st)
    requires |r| >= 16 && r[..16] == DoctypeLine + "\n" && r[16..] == c[st..]
    ensures LenientValid(r)
  {
    assert r[16..21] == c[st..st + 5] by {
      assert r[16..21] == r[16..][..5];
      assert c[st..st + 5] == c[st..][..5];
    }
    MatchesCITransfer(r, 16, c, st, "<html");
    DoctypeAndHtmlValid(r);
  }

  /** The page wrapped in a doctype line and an `html` element. */
  lemma WrappedRepairValid(c: string, r: string)
    requires |r| >= 33 && r[..33] == WrapOpen
    ensures LenientValid(r)
  {
    WrapOpenFacts();
    assert r[..16] == DoctypeLine + "\n" by { assert r[..16] == r[..33][..16]; }
    assert r[16..21] == WrapOpen[16..21] by { assert r[16..21] == r[..33][16..21]; }
    MatchesCITransfer(r, 16, WrapOpen, 16, "<html");
    DoctypeAndHtmlValid(r);
  }

  // ---------------------------------------------------------------------------
  // Formatting

  /** `line.strip()` is truthy. */
  predicate NonBlank(line: string) {
    Strip(line) != []
  }

  /** The lines `_format_html` keeps, each with its trailing whitespace removed. */
  function Kept(lines: seq<string>): (ks: seq<string>)
    ensures |ks| <= |lines|
  {
    if lines == [] then []
    else
      var last := lines[|lines| - 1];
      Kept(lines[..|lines| - 1]) + (if NonBlank(last) then [KeptLine(last)] else [])
  }

  /** A kept line: `line.rstrip()`. */
  function KeptLine(line: string): (r: string)
    requires NonBlank(line)
    ensures |r| <= |line| && r != [] && !IsSpace(r[|r| - 1]) && r == line[..|r|]
  {
    var r := RStrip(line);
    assert line[0..] == line;
    r
  }

  /** Every kept line has a visible last character. */
  lemma {:induction false} KeptVisible(lines: seq<string>)
    ensures forall l <- Kept(lines) :: l != [] && !IsSpace(l[|l| - 1])
    decreases |lines|
  {
    if lines != [] {
      var front, last := lines[..|lines| - 1], lines[|lines| - 1];
      KeptVisible(front);
      var tail := if NonBlank(last) then [KeptLine(last)] else [];
      assert Kept(lines) == Kept(front) + tail;
      VisibleAppend(Kept(front), tail);
    }
  }

  lemma VisibleAppend(a: seq<string>, b: seq<string>)
    requires forall l <- a :: l != [] && !IsSpace(l[|l| - 1])
    requires forall l <- b :: l != [] && !IsSpace(l[|l| - 1])
    ensures forall l <- a + b :: l != [] && !IsSpace(l[|l| - 1])
  {
  }

  /** Kept lines come from the lines given, so they hold no newline when those hold none. */
  lemma {:induction false} KeptNoNewline(lines: seq<string>)
    requires forall l <- lines :: '\n' !in l
    ensures forall l <- Kept(lines) :: '\n' !in l
    decreases |lines|
  {
    if lines != [] {
      var front, last := lines[..|lines| - 1], lines[|lines| - 1];
      assert last in lines;
      assert forall l <- front :: l in lines;
      KeptNoNewline(front);
      if NonBlank(last) {
        var k := KeptLine(last);
        assert forall c <- k :: c in last;
      }
    }
  }

  /** `'\n'.join(line.rstrip() for line in html.split('\n') if line.strip())` */
  function Formatted(html: string): string {
    Join(Kept(Split(html)))
  }

  /** `_format_html`, a loop over the lines. */
  method FormatHtml(html: string) returns (formatted: string)
    ensures formatted == Formatted(html)
  {
    var lines := Split(html);
    var kept: seq<string> := [];
    for i := 0 to |lines|
      invariant kept == Kept(lines[..i])
    {
      assert lines[..i + 1][..i] == lines[..i];
      if Strip(lines[i]) != [] {
        kept := kept + [RStrip(lines[i])];
      }
    }
    assert lines[..|lines|] == lines;
    formatted := Join(kept);
  }

  lemma {:induction false} KeptConcat(a: seq<string>, b: seq<string>)
    ensures Kept(a + b) == Kept(a) + Kept(b)
    decreases |b|
  {
    if b != [] {
      var b' := b[..|b| - 1];
      assert (a + b)[..|a + b| - 1] == a + b';
      assert (a + b)[|a + b| - 1] == b[|b| - 1];
      KeptConcat(a, b');
    } else {
      assert a + b == a;
    }
  }

  /** A line with a visible last character is kept as it is. */
  lemma KeptLineFixed(line: string)
    requires line != [] && !IsSpace(line[|line| - 1])
    ensures NonBlank(line) && KeptLine(line) == line
  {
    assert !AllSpace(line) by { assert !IsSpace(line[|line| - 1]); }
    assert TrimEnd(line, |line|) == |line|;
    assert line[..|line|] == line;
  }

  /** Lines already kept are kept again unchanged. */
  lemma {:induction false} KeptFixpoint(ks: seq<string>)
    requires forall l <- ks :: l != [] && !IsSpace(l[|l| - 1])
    ensures Kept(ks) == ks
    decreases |ks|
  {
    if ks != [] {
      var front, last := ks[..|ks| - 1], ks[|ks| - 1];
      assert last in ks;
      assert forall l <- front :: l in ks;
      KeptFixpoint(front);
      KeptLineFixed(last);
      KeptSingle(last);
      KeptConcat(front, [last]);
      FrontLast(ks);
    }
  }

  /** Formatting a second time changes nothing. */
  lemma FormattedIdempotent(html: string)
    ensures Formatted(Formatted(html)) == Formatted(html)
  {
    var ks := Kept(Split(html));
    if ks == [] {
      assert Formatted(html) == "";
      assert Split("") == [""];
      assert Kept([""]) == [] by {
        assert [""][..0] == [];
        assert !NonBlank("");
      }
    } else {
      KeptNoNewline(Split(html));
      KeptVisible(Split(html));
      SplitJoin(ks);
      KeptFixpoint(ks);
    }
  }

  /** Every line of a formatted page has visible content and no trailing whitespace. */
  lemma FormattedLines(html: string)
    ensures Formatted(html) != "" ==>
      forall l <- Split(Formatted(html)) :: l != [] && !IsSpace(l[|l| - 1])
  {
    var ks := Kept(Split(html));
    if ks != [] {
      KeptNoNewline(Split(html));
      KeptVisible(Split(html));
      SplitJoin(ks);
    }
  }

  /** The first line of a joined list, and the separator after it. */
  lemma JoinHead(ls: seq<string>)
    requires ls != []
    ensures |Join(ls)| >= |ls[0]| && Join(ls)[..|ls[0]|] == ls[0]
    ensures |ls| > 1 ==> |Join(ls)| > |ls[0]| && Join(ls)[|ls[0]|] == '\n'
  {
  }

  lemma KeptHead(ls: seq<string>)
    requires ls != [] && NonBlank(ls[0])
    ensures Kept(ls) == [KeptLine(ls[0])] + Kept(ls[1..])
  {
    KeptSingle(ls[0]);
    KeptConcat([ls[0]], ls[1..]);
    assert ls == [ls[0]] + ls[1..];
  }

  lemma KeptSingle(line: string)
    requires NonBlank(line)
    ensures Kept([line]) == [KeptLine(line)]
  {
    assert [line][..0] == [];
  }

  /** A first line with no newline in its first `k` characters is at least that long. */
  lemma FirstLineHead(s: string, k: nat)
    requires 0 < k <= |s| && '\n' !in s[..k]
    ensures |Split(s)[0]| >= k && Split(s)[0][..k] == s[..k]
  {
    var ls := Split(s);
    JoinSplit(s);
    JoinHead(ls);
    forall q | 0 <= q < k ensures s[q] != '\n' {
      assert s[q] == s[..k][q];
    }
    if |ls| > 1 {
      assert s[|ls[0]|] == '\n';
    }
  }

  /** Removing trailing whitespace keeps everything up to a visible character. */
  lemma KeptLineHead(line: string, k: nat)
    requires 0 < k <= |line| && !IsSpace(line[k - 1])
    ensures NonBlank(line) && |KeptLine(line)| >= k && KeptLine(line)[..k] == line[..k]
  {
    assert !AllSpace(line);
    var kl := KeptLine(line);
    forall q | |kl| <= q < |line| ensures IsSpace(line[q]) {
      assert line[q] == line[|kl|..][q - |kl|];
    }
  }

  /** The start of the first line survives formatting when it has no newline and ends in a
      visible character. */
  lemma FormattedKeepsHead(s: string, k: nat)
    requires 0 < k <= |s| && '\n' !in s[..k] && !IsSpace(s[k - 1])
    ensures |Formatted(s)| >= k && Formatted(s)[..k] == s[..k]
  {
    var ls := Split(s);
    FirstLineHead(s, k);
    var line := ls[0];
    assert line[k - 1] == s[k - 1] by { assert line[..k][k - 1] == s[..k][k - 1]; }
    KeptLineHead(line, k);
    KeptHead(ls);
    var ks := Kept(ls);
    JoinHead(ks);
    PrefixChain(Join(ks), ks[0], k);
  }

  /** A prefix of a prefix. */
  lemma PrefixChain(a: string, b: string, k: nat)
    requires k <= |b| <= |a| && a[..|b|] == b
    ensures a[..k] == b[..k]
  {
  }

  // ---------------------------------------------------------------------------
  // The sanitizer

  /** The text after the fences are removed and the ends stripped (lines 21-35). */
  function Prepared(raw: string): string {
    Strip(ApplyAll(HtmlPatterns, Strip(raw)))
  }

  /** What `clean_html_response` returns for a string. The `except` branch, which would run
      the emergency cleanup, cannot be reached: nothing in the `try` raises on a string. */
  function FixedCleaned(raw: string): string {
    Formatted(Repaired(Prepared(raw)))
  }

  /** `clean_html_response`, step by step. The validation only decides whether a warning is
      logged, so it does not appear. */
  method CleanHtmlResponse(raw: string) returns (html: string)
    ensures html == FixedCleaned(raw)
  {
    var cleaned := Strip(raw);
    cleaned := StripMarkdown(cleaned, HtmlPatterns);
    cleaned := Strip(cleaned);
    cleaned := Repaired(cleaned);
    html := FormatHtml(cleaned);
  }

  /** Formatting keeps a leading doctype, whatever its letter case. */
  lemma FormattedKeepsDoctype(c: string)
    requires MatchesCIAt(c, 0, "<!doctype")
    ensures MatchesCIAt(Formatted(c), 0, "<!doctype")
  {
    var lit := "<!doctype";
    assert '\n' !in lit && lit[8] == 'e';
    FormattedKeepsMatch(c, lit);
  }

  /** Formatting keeps a match at the start of a literal that has no newline and ends in a
      printable character. */
  lemma FormattedKeepsMatch(c: string, lit: string)
    requires MatchesCIAt(c, 0, lit) && lit != [] && '\n' !in lit
    requires 33 <= lit[|lit| - 1] as int <= 126
    ensures MatchesCIAt(Formatted(c), 0, lit)
  {
    var n := |lit|;
    MatchesCIExcludes(c, 0, lit, '\n');
    assert c[..n] == c[0..n];
    assert LowerAt(c, 0, n - 1) == lit[n - 1];
    LowerPrintable(c[n - 1]);
    FormattedKeepsHead(c, n);
    MatchesCITransfer(Formatted(c), 0, c, 0, lit);
  }

  lemma DoctypeLineFacts()
    ensures |DoctypeLine| == 15 && '\n' !in DoctypeLine && !IsSpace(DoctypeLine[14])
    ensures DoctypeLine[..9] == "<!DOCTYPE"
  {
  }

  /** Formatting keeps an added doctype line. */
  lemma FormattedKeepsDoctypeLine(r: string)
    requires |r| >= 15 && r[..15] == DoctypeLine
    ensures |Formatted(r)| >= 15 && Formatted(r)[..15] == DoctypeLine
    ensures MatchesCIAt(Formatted(r), 0, "<!doctype")
  {
    DoctypeLineFacts();
    assert r[14] == DoctypeLine[14];
    FormattedKeepsHead(r, 15);
    DoctypeLineIndicators(Formatted(r));
  }

  /** A text that starts with the doctype line matches `<!doctype` at its start and
      `doctype` two characters in. */
  lemma DoctypeLineIndicators(t: string)
    requires |t| >= 15 && t[..15] == DoctypeLine
    ensures MatchesCIAt(t, 0, "<!doctype") && MatchesCIAt(t, 2, "doctype")
  {
    forall k | 0 <= k < 9 ensures t[k] == DoctypeLine[k] {
      assert t[k] == t[..15][k];
    }
    assert DoctypeLine[2] == 'D' && DoctypeLine[3] == 'O' && DoctypeLine[4] == 'C';
    assert DoctypeLine[5] == 'T' && DoctypeLine[6] == 'Y' && DoctypeLine[7] == 'P';
    assert DoctypeLine[8] == 'E' && DoctypeLine[0] == '<' && DoctypeLine[1] == '!';
  }

  /** A response with HTML structure comes out as a page that starts with a doctype - with
      the exact line `<!DOCTYPE html>` when the cleaner had to add it; a response without
      structure is only formatted. */
  lemma FixedCleanedShape(raw: string)
    ensures var c := Prepared(raw);
      (LooksLikeHtml(c) ==> MatchesCIAt(FixedCleaned(raw), 0, "<!doctype"))
      && (!HasDoctype(c) && LooksLikeHtml(c) ==>
            |FixedCleaned(raw)| >= 15 && FixedCleaned(raw)[..15] == DoctypeLine)
      && (!LooksLikeHtml(c) ==> FixedCleaned(raw) == Formatted(c))
  {
    var c := Prepared(raw);
    if HasDoctype(c) {
      RepairedShape(c);
      FormattedKeepsDoctype(c);
    } else if LooksLikeHtml(c) {
      AddedDoctypeKept(c);
    } else {
      RepairedShape(c);
    }
  }

  /** A text that had to be given a doctype keeps the added line through formatting. */
  lemma AddedDoctypeKept(c: string)
    requires !HasDoctype(c) && LooksLikeHtml(c)
    ensures |Formatted(Repaired(c))| >= 15 && Formatted(Repaired(c))[..15] == DoctypeLine
    ensures MatchesCIAt(Formatted(Repaired(c)), 0, "<!doctype")
  {
    var r := Repaired(c);
    RepairedShape(c);
    assert r[..15] == DoctypeLine by { assert r[..15] == r[..16][..15]; }
    FormattedKeepsDoctypeLine(r);
  }

  /** A page that already starts with a doctype, sent inside an html code fence, comes out
      as the page itself, formatted - provided none of its lines begins with "html". */
  lemma FixedCleanedFencedPage(page: string)
    requires page != [] && Trimmed(page) && NoBacktick(page) && NoHtmlLine(page) && HasDoctype(page)
    ensures FixedCleaned(Fenced("html", page)) == Formatted(page)
  {
    var raw := Fenced("html", page);
    FencedLayout("html", page);
    StripTrimmed(raw);
    HtmlPatternsOnBlock(page);
    StripTrailingSpace(page, "\n");
  }

  const SelectorPage: string := "<!DOCTYPE html>\nhtml {\n}"

  // The lemmas about one fixed text take it as a parameter: the solver unfolds recursive
  // functions on a literal argument without bound.

  /** Before the match: the first line does not begin with "html". */
  lemma SelectorPageHead(s: string)
    requires s == SelectorPage
    ensures LineStartSub(s, "html", 0) == s[0..16] + LineStartSub(s, "html", 16)
  {
    forall p | 0 <= p < 16 ensures !(AtLineStart(s, p) && MatchesCIAt(s, p, "html")) {
      if p != 0 { assert s[p - 1] != '\n'; }
      else { NoMatchAtFirst(s, 0, "html"); }
    }
    LineStartSubSkip(s, "html", 0, 16);
  }

  /** The selector itself and the space after it are removed. */
  lemma SelectorPageMatch(s: string)
    requires s == SelectorPage
    ensures LineStartSub(s, "html", 16) == LineStartSub(s, "html", 21)
  {
    assert AtLineStart(s, 16) && MatchesCIAt(s, 16, "html");
    assert SkipSpace(s, 20) == 21;
  }

  /** After the match nothing else is removed. */
  lemma SelectorPageTail(s: string)
    requires s == SelectorPage
    ensures LineStartSub(s, "html", 21) == s[21..]
  {
    forall p | 21 <= p < |s| ensures !(AtLineStart(s, p) && MatchesCIAt(s, p, "html")) {
      NoMatchAtFirst(s, p, "html");
    }
    LineStartSubSkip(s, "html", 21, |s|);
  }

  /** The "html" pass on a page with a style rule for `html` on its second line. */
  lemma HtmlSelectorPass(s: string)
    requires s == SelectorPage
    ensures Apply(LineStart("html"), s) == "<!DOCTYPE html>\n{\n}"
  {
    SelectorPageHead(s);
    SelectorPageMatch(s);
    SelectorPageTail(s);
    assert s[0..16] + s[21..] == "<!DOCTYPE html>\n{\n}";
  }

  /** Three visible lines are formatted as they are. */
  lemma FormattedThreeLines(a: string, b: string, c: string)
    requires '\n' !in a && '\n' !in b && '\n' !in c
    requires a != [] && !IsSpace(a[|a| - 1]) && b != [] && !IsSpace(b[|b| - 1])
    requires c != [] && !IsSpace(c[|c| - 1])
    ensures Formatted(a + "\n" + b + "\n" + c) == a + "\n" + b + "\n" + c
  {
    var lines := [a, b, c];
    SplitJoin(lines);
    assert lines[1..] == [b, c] && [b, c][1..] == [c];
    assert Join([b, c]) == b + "\n" + c;
    assert Join(lines) == a + "\n" + b + "\n" + c;
    KeptFixpoint(lines);
  }

  /** The "html" pattern runs on every line, not only the first: a style rule for `html` at
      the start of a line loses its selector. */
  lemma FixedCleanedCutsHtmlSelector(s: string, t: string)
    requires s == SelectorPage && t == "<!DOCTYPE html>\n{\n}"
    ensures FixedCleaned(s) == t
  {
    CutSelectorPrepared(s);
    CutSelectorRepaired(t);
    RepairedShape(t);
    CutSelectorFormatted(t);
  }

  lemma CutSelectorFormatted(t: string)
    requires t == "<!DOCTYPE html>\n{\n}"
    ensures Formatted(t) == t
  {
    var a, b, c := t[..15], t[16..17], t[18..];
    assert t == a + "\n" + b + "\n" + c;
    assert '\n' !in a && !IsSpace(a[14]);
    FormattedThreeLines(a, b, c);
  }

  lemma CutSelectorPrepared(s: string)
    requires s == SelectorPage
    ensures Prepared(s) == "<!DOCTYPE html>\n{\n}"
  {
    assert s[0] == '<' && s[|s| - 1] == '}';
    StripTrimmed(s);
    assert NoBacktick(s);
    HtmlPatternsWithoutFence(s);
    HtmlSelectorPass(s);
    var t := "<!DOCTYPE html>\n{\n}";
    assert t[0] == '<' && t[|t| - 1] == '}';
    StripTrimmed(t);
  }

  lemma CutSelectorRepaired(t: string)
    requires t == "<!DOCTYPE html>\n{\n}"
    ensures HasDoctype(t)
  {
    assert t[..15] == DoctypeLine by {
      forall k | 0 <= k < 15 ensures t[k] == DoctypeLine[k] {}
    }
    DoctypeLineIndicators(t);
  }

  /** Cleaning "htmlhtml" removes the first "html" only: the second is not at a line start. */
  lemma DoubledHtmlPass(s: string)
    requires s == "htmlhtml"
    ensures Apply(LineStart("html"), s) == "html"
  {
    var lit: Literal := "html";
    assert MatchesCIAt(s, 0, lit) && SkipSpace(s, 4) == 4;
    forall p | 4 <= p < |s| ensures !(AtLineStart(s, p) && MatchesCIAt(s, p, lit)) {
      assert s[p - 1] != '\n';
    }
    LineStartSubSkip(s, lit, 4, |s|);
    assert s[4..] == "html";
  }

  /** "html" alone is not HTML to the repair step, and the "html" pass removes it. */
  lemma PlainHtmlWord(h: string)
    requires h == "html"
    ensures !LooksLikeHtml(h) && Formatted(h) == h
    ensures Apply(LineStart("html"), h) == ""
  {
    PlainHtmlNotPage(h);
    PlainHtmlFormatted(h);
    PlainHtmlPass(h);
  }

  lemma PlainHtmlFormatted(h: string)
    requires h == "html"
    ensures Formatted(h) == h
  {
    SplitNoNewline(h);
    KeptFixpoint([h]);
  }

  lemma PlainHtmlPass(h: string)
    requires h == "html"
    ensures Apply(LineStart("html"), h) == ""
  {
    var lit: Literal := "html";
    assert MatchesCIAt(h, 0, lit) && SkipSpace(h, 4) == 4;
  }

  lemma PlainHtmlNotPage(h: string)
    requires h == "html"
    ensures !LooksLikeHtml(h)
  {
    assert !HasDoctype(h) by { NoMatchAtFirst(h, 0, "<!doctype"); }
    assert FindHtmlTag(h, 0).None?;
    assert !ContainsCI(h, "<head>") && !ContainsCI(h, "<body>");
  }

  /** The empty text is cleaned to itself. */
  lemma EmptyCleaned()
    ensures Repaired("") == "" && Formatted("") == ""
  {
    assert FindHtmlTag("", 0).None?;
    assert !ContainsCI("", "<head>") && !ContainsCI("", "<body>");
    assert Split("") == [""];
    assert Kept([""]) == [] by { assert [""][..0] == []; }
  }

  /** The cleaner is not idempotent: cleaning its own output can remove more. */
  lemma FixedCleanedNotIdempotent(s: string, h: string)
    requires s == "htmlhtml" && h == "html"
    ensures FixedCleaned(s) == h
    ensures FixedCleaned(h) == ""
  {
    DoubledPrepared(s, h);
    PlainHtmlWord(h);
    PlainPrepared(h);
    EmptyCleaned();
  }

  lemma DoubledPrepared(s: string, h: string)
    requires s == "htmlhtml" && h == "html"
    ensures Prepared(s) == h
  {
    assert s[0] == 'h' && s[|s| - 1] == 'l';
    StripTrimmed(s);
    assert NoBacktick(s);
    HtmlPatternsWithoutFence(s);
    DoubledHtmlPass(s);
    assert h[0] == 'h' && h[|h| - 1] == 'l';
    StripTrimmed(h);
  }

  lemma PlainPrepared(h: string)
    requires h == "html"
    ensures Prepared(h) == ""
  {
    assert h[0] == 'h' && h[|h| - 1] == 'l';
    StripTrimmed(h);
    assert NoBacktick(h);
    HtmlPatternsWithoutFence(h);
    PlainHtmlPass(h);
    StripTrimmed("");
  }

  // ---------------------------------------------------------------------------
  // Emergency cleanup

  /** The tags whose presence (in any case) makes the emergency cleanup wrap the text. */
  const EmergencyTags: seq<string> := ["<div", "<p>", "<h1", "<script", "<style"]

  predicate HasEmergencyTag(c: string) {
    exists t <- EmergencyTags :: ContainsCI(c, t)
  }

  /** `_emergency_cleanup`: strip, remove tagged fences anywhere, remove a closing fence at
      the very end (this substitution has no `re.MULTILINE`), and wrap text that has one of
      the tags but no doctype in the page skeleton. */
  function EmergencyCleanup(raw: string): string {
    var a := TaggedFenceSub(Strip(raw), 0);
    var c := LineEndSub(a, true, false, 0);
    if HasEmergencyTag(c) && !MatchesCIAt(c, 0, "<!doctype") then Shell(c) else c
  }

  predicate NoTriple(s: string) {
    forall p :: 0 <= p < |s| ==> !Triple(s, p)
  }

  /** Joining two texts without a fence makes one only across the seam. */
  lemma NoTripleConcat(a: string, b: string)
    requires NoTriple(a) && NoTriple(b)
    requires a == [] || b == [] || a[|a| - 1] != '`' || b[0] != '`'
    ensures NoTriple(a + b)
  {
    var s := a + b;
    forall p | 0 <= p < |s| ensures !Triple(s, p) {
      if p + 3 <= |a| {
        assert s[p] == a[p] && s[p + 1] == a[p + 1] && s[p + 2] == a[p + 2];
        assert !Triple(a, p);
      } else if p >= |a| {
        assert p + 3 <= |s| ==> s[p] == b[p - |a|] && s[p + 1] == b[p - |a| + 1] && s[p + 2] == b[p - |a| + 2];
        assert !Triple(b, p - |a|);
      } else if p + 3 <= |s| {
        assert p == |a| - 1 || p == |a| - 2;
        assert s[|a| - 1] == a[|a| - 1] && s[|a|] == b[0];
      }
    }
  }

  lemma ShellPartsNoTriple()
    ensures NoTriple(ShellHead) && NoTriple(ShellTail)
  {
    ShellNoBacktick();
    forall k | 0 <= k < |ShellHead| ensures ShellHead[k] != '`' {
      assert ShellHead[k] in ShellHead;
    }
    forall k | 0 <= k < |ShellTail| ensures ShellTail[k] != '`' {
      assert ShellTail[k] in ShellTail;
    }
  }

  /** After the emergency cleanup no triple backtick is left, and its second substitution
      never finds anything: the first has removed every fence already. */
  lemma EmergencyCleanupNoFence(raw: string)
    ensures var a := TaggedFenceSub(Strip(raw), 0); LineEndSub(a, true, false, 0) == a
    ensures NoTriple(EmergencyCleanup(raw))
  {
    var a := TaggedFenceSub(Strip(raw), 0);
    TaggedFenceSubNoTriple(Strip(raw), 0);
    NoTripleEndIdentity(a, true, false);
    if HasEmergencyTag(a) && !MatchesCIAt(a, 0, "<!doctype") {
      ShellPartsNoTriple();
      NoTripleConcat(ShellHead, a);
      NoTripleConcat(ShellHead + a, ShellTail);
    }
  }

  /** The page skeleton alone already holds two of the indicators. */
  lemma ShellHeadValid()
    ensures ContainsCI(ShellHead, "doctype") && ContainsCI(ShellHead, "<html")
  {
    assert MatchesCIAt(DoctypeLine, 2, "doctype") by {
      assert DoctypeLine[2] == 'D' && DoctypeLine[3] == 'O' && DoctypeLine[4] == 'C';
      assert DoctypeLine[5] == 'T' && DoctypeLine[6] == 'Y' && DoctypeLine[7] == 'P';
      assert DoctypeLine[8] == 'E';
    }
    assert MatchesCIAt(HtmlOpen, 1, "<html") by {
      assert HtmlOpen[1] == '<' && HtmlOpen[2] == 'h' && HtmlOpen[3] == 't';
      assert HtmlOpen[4] == 'm' && HtmlOpen[5] == 'l';
    }
    ShellHeadContains("doctype");
    ShellHeadContains("<html");
  }

  /** What occurs in the doctype line or the `html` opening occurs in the whole skeleton head. */
  lemma ShellHeadContains(lit: string)
    ensures ContainsCI(DoctypeLine, lit) || ContainsCI(HtmlOpen, lit) ==> ContainsCI(ShellHead, lit)
  {
    var s1 := DoctypeLine + HtmlOpen;
    var s2 := s1 + MetaCharset;
    var s3 := s2 + MetaViewport;
    var s4 := s3 + TitleLine;
    ContainsCIAppend(DoctypeLine, HtmlOpen, lit);
    ContainsCIAppend(s1, MetaCharset, lit);
    ContainsCIAppend(s2, MetaViewport, lit);
    ContainsCIAppend(s3, TitleLine, lit);
    ContainsCIAppend(s4, BodyOpen, lit);
  }

  /** Any fragment placed in the skeleton makes a page that passes the lenient check. */
  lemma ShellValid(c: string)
    ensures LenientValid(Shell(c))
  {
    ShellHeadValid();
    ContainsCIAppend(ShellHead, c, "doctype");
    ContainsCIAppend(ShellHead + c, ShellTail, "doctype");
    ContainsCIAppend(ShellHead, c, "<html");
    ContainsCIAppend(ShellHead + c, ShellTail, "<html");
  }

  /** A fragment with one of the tags and no doctype is placed, unchanged, in a page that
      passes the lenient check; any other text comes back stripped and without fences. */
  lemma EmergencyCleanupWraps(raw: string)
    ensures var c := TaggedFenceSub(Strip(raw), 0);
      HasEmergencyTag(c) && !MatchesCIAt(c, 0, "<!doctype") ==>
        EmergencyCleanup(raw) == Shell(c) && LenientValid(EmergencyCleanup(raw))
    ensures var c := TaggedFenceSub(Strip(raw), 0);
      !(HasEmergencyTag(c) && !MatchesCIAt(c, 0, "<!doctype")) ==> EmergencyCleanup(raw) == c
  {
    var c := TaggedFenceSub(Strip(raw), 0);
    EmergencyCleanupNoFence(raw);
    ShellValid(c);
  }

  // ---------------------------------------------------------------------------
  // The script check

  /** The tags that open and close a script element, in lower case. */
  const ScriptOpen: string := "<script"
  const ScriptClose: string := "</script>"

  /** The next match of `open[^>]*>(.*?)close` (case-insensitive, `.` matching newlines) at
      or after `i`, as the bounds of its group: the opening tag runs to the first `>` after
      `open`, the group to the first `close` after that. When the first `open` at or after `i`
      has no `>` or no `close` after it, no later one has either, so there is no match. */
  function NextElement(s: string, open: string, close: string, i: nat): (r: Option<(nat, nat)>)
    requires i <= |s|
    ensures r.Some? ==> i < r.value.0 <= r.value.1 && r.value.1 + |close| <= |s|
  {
    match FindCI(s, open, i)
    case None => None
    case Some(q) =>
      match FindChar(s, '>', q + |open|)
      case None => None
      case Some(g) =>
        match FindCI(s, close, g + 1)
        case None => None
        case Some(p) => Some((g + 1, p))
  }

  /** The group stops at the first closing tag after the opening tag. */
  lemma NextElementUnclosed(s: string, open: string, close: string, i: nat)
    requires i <= |s| && close != [] && NextElement(s, open, close, i).Some?
    ensures var r := NextElement(s, open, close, i).value; !ContainsCI(s[r.0..r.1], close)
  {
    var q := FindCI(s, open, i).value;
    var g := FindChar(s, '>', q + |open|).value;
    var p := FindCI(s, close, g + 1).value;
    NoMatchInSlice(s, g + 1, p, close);
  }

  /** `re.findall(open + r'[^>]*>(.*?)' + close, s[i:], re.DOTALL | re.IGNORECASE)`: the
      matches do not overlap, so the scan resumes after each closing tag. */
  function Elements(s: string, open: string, close: string, i: nat): (blocks: seq<string>)
    requires i <= |s|
    decreases |s| - i
  {
    match NextElement(s, open, close, i)
    case None => []
    case Some(r) => [s[r.0..r.1]] + Elements(s, open, close, r.1 + |close|)
  }

  /** The bodies of the page's script elements, as the script check finds them. */
  function ScriptBlocks(html: string): seq<string> {
    Elements(html, ScriptOpen, ScriptClose, 0)
  }

  /** No block holds the literal, in any letter case. */
  predicate NoneContain(blocks: seq<string>, lit: string) {
    forall n | 0 <= n < |blocks| :: !ContainsCI(blocks[n], lit)
  }

  /** A group never contains its closing tag: the lazy group stops at the first one. */
  lemma {:induction false} ElementsUnclosed(s: string, open: string, close: string, i: nat)
    requires i <= |s| && close != []
    ensures NoneContain(Elements(s, open, close, i), close)
    decreases |s| - i
  {
    match NextElement(s, open, close, i)
    case None =>
    case Some(r) =>
      var head, rest := s[r.0..r.1], Elements(s, open, close, r.1 + |close|);
      assert Elements(s, open, close, i) == [head] + rest;
      assert NoneContain(rest, close) by {
        ElementsUnclosed(s, open, close, r.1 + |close|);
      }
      assert !ContainsCI(head, close) by {
        NextElementUnclosed(s, open, close, i);
      }
      NoneContainCons(head, rest, close);
  }

  /** No script block contains a closing script tag. */
  lemma ScriptBlocksUnclosed(html: string)
    ensures NoneContain(ScriptBlocks(html), ScriptClose)
  {
    assert ScriptClose[0] == '<';
    ElementsUnclosed(html, ScriptOpen, ScriptClose, 0);
  }

  lemma NoneContainCons(head: string, rest: seq<string>, lit: string)
    requires !ContainsCI(head, lit) && NoneContain(rest, lit)
    ensures NoneContain([head] + rest, lit)
  {
    var bs := [head] + rest;
    forall n | 0 <= n < |bs| ensures !ContainsCI(bs[n], lit) {
      if n > 0 {
        assert bs[n] == rest[n - 1];
      }
    }
  }

  datatype Mismatch = Braces | Parentheses

  /** One entry of the list `validate_javascript_basics` returns, with its 1-based block number. */
  datatype Issue = Issue(block: nat, kind: Mismatch)

  function IssueMessage(issue: Issue): string {
    "Script block " + IntToString(issue.block) + ": Significantly mismatched "
    + (match issue.kind case Braces => "braces" case Parentheses => "parentheses")
  }

  function Abs(n: int): nat { if n < 0 then -n else n }

  /** `abs(block.count(open) - block.count(close)) > 2` */
  predicate Mismatched(block: string, kind: Mismatch) {
    match kind
    case Braces => Abs(Count(block, '{') - Count(block, '}')) > 2
    case Parentheses => Abs(Count(block, '(') - Count(block, ')')) > 2
  }

  /** The issues of block number `n`: braces before parentheses. */
  function BlockIssues(b: string, n: nat): (r: seq<Issue>)
    ensures |r| <= 2
    ensures forall m | 0 <= m < |r| :: r[m].block == n && Mismatched(b, r[m].kind)
    ensures forall k :: Mismatched(b, k) ==> Issue(n, k) in r
    ensures |r| == 2 ==> r[0].kind == Braces && r[1].kind == Parentheses
  {
    (if Mismatched(b, Braces) then [Issue(n, Braces)] else [])
    + (if Mismatched(b, Parentheses) then [Issue(n, Parentheses)] else [])
  }

  /** The issues of the blocks in order. */
  function Issues(blocks: seq<string>): (issues: seq<Issue>)
    ensures forall m | 0 <= m < |issues| :: 1 <= issues[m].block <= |blocks|
  {
    if blocks == [] then []
    else
      var n := |blocks|;
      Issues(blocks[..n - 1]) + BlockIssues(blocks[n - 1], n)
  }

  lemma IssuesStep(blocks: seq<string>, i: nat)
    requires i < |blocks|
    ensures Issues(blocks[..i + 1]) == Issues(blocks[..i]) + BlockIssues(blocks[i], i + 1)
  {
    assert blocks[..i + 1][..i] == blocks[..i];
  }

  /** Every issue reported is a block whose counts differ by more than two. */
  lemma {:induction false} IssuesSound(blocks: seq<string>)
    ensures forall m | 0 <= m < |Issues(blocks)| ::
      Mismatched(blocks[Issues(blocks)[m].block - 1], Issues(blocks)[m].kind)
    decreases |blocks|
  {
    if blocks != [] {
      var n := |blocks|;
      var front := blocks[..n - 1];
      var all, fi, bi := Issues(blocks), Issues(front), BlockIssues(blocks[n - 1], n);
      IssuesSound(front);
      assert all == fi + bi;
      forall m | 0 <= m < |all| ensures Mismatched(blocks[all[m].block - 1], all[m].kind) {
        if m < |fi| {
          assert all[m] == fi[m];
          assert front[fi[m].block - 1] == blocks[fi[m].block - 1];
        } else {
          assert all[m] == bi[m - |fi|];
        }
      }
    }
  }

  /** Every block and kind whose counts differ by more than two all reported. */
  lemma {:induction false} IssuesComplete(blocks: seq<string>)
    ensures forall n, k | 0 <= n < |blocks| && Mismatched(blocks[n], k) :: Issue(n + 1, k) in Issues(blocks)
    decreases |blocks|
  {
    if blocks != [] {
      var last := |blocks| - 1;
      var front := blocks[..last];
      var all, fi, bi := Issues(blocks), Issues(front), BlockIssues(blocks[last], last + 1);
      IssuesComplete(front);
      assert all == fi + bi;
      forall n, k | 0 <= n < |blocks| && Mismatched(blocks[n], k) ensures Issue(n + 1, k) in all {
        if n < last {
          assert front[n] == blocks[n];
          assert Issue(n + 1, k) in fi;
        } else {
          assert Issue(n + 1, k) in bi;
        }
      }
    }
  }

  /** The order of the report: by block, and braces before parentheses within a block. */
  predicate ReportedBefore(x: Issue, y: Issue) {
    x.block < y.block || (x.block == y.block && x.kind == Braces && y.kind == Parentheses)
  }

  /** The reports come in block order. */
  lemma {:induction false} IssuesOrdered(blocks: seq<string>)
    ensures forall a, b | 0 <= a < b < |Issues(blocks)| :: ReportedBefore(Issues(blocks)[a], Issues(blocks)[b])
    decreases |blocks|
  {
    if blocks != [] {
      var n := |blocks|;
      var front := blocks[..n - 1];
      var all, fi, bi := Issues(blocks), Issues(front), BlockIssues(blocks[n - 1], n);
      IssuesOrdered(front);
      assert all == fi + bi;
      forall a, b | 0 <= a < b < |all| ensures ReportedBefore(all[a], all[b]) {
        if b < |fi| {
          assert all[a] == fi[a] && all[b] == fi[b];
        } else if a < |fi| {
          assert all[a] == fi[a] && all[b] == bi[b - |fi|];
        } else {
          assert all[a] == bi[a - |fi|] && all[b] == bi[b - |fi|];
        }
      }
    }
  }

  /** The messages of one block's issues. */
  lemma BlockMessages(b: string, n: nat)
    ensures Messages(BlockIssues(b, n)) ==
      (if Mismatched(b, Braces) then [IssueMessage(Issue(n, Braces))] else [])
      + (if Mismatched(b, Parentheses) then [IssueMessage(Issue(n, Parentheses))] else [])
  {
  }

  lemma MessagesStep(blocks: seq<string>, i: nat)
    requires i < |blocks|
    ensures Messages(Issues(blocks[..i + 1]))
      == Messages(Issues(blocks[..i])) + Messages(BlockIssues(blocks[i], i + 1))
  {
    IssuesStep(blocks, i);
    MessagesAppend(Issues(blocks[..i]), BlockIssues(blocks[i], i + 1));
  }

  /** `validate_javascript_basics`, a loop over the script blocks. Nothing in its `try`
      raises on a string, so the `except` branch cannot be reached. */
  method ValidateJavascriptBasics(html: string) returns (issues: seq<string>)
    ensures issues == Messages(Issues(ScriptBlocks(html)))
  {
    var blocks := ScriptBlocks(html);
    issues := [];
    for i := 0 to |blocks|
      invariant issues == Messages(Issues(blocks[..i]))
    {
      var b := blocks[i];
      ghost var before := issues;
      if Abs(Count(b, '{') - Count(b, '}')) > 2 {
        issues := issues + [IssueMessage(Issue(i + 1, Braces))];
      }
      if Abs(Count(b, '(') - Count(b, ')')) > 2 {
        issues := issues + [IssueMessage(Issue(i + 1, Parentheses))];
      }
      BlockMessages(b, i + 1);
      assert issues == before + Messages(BlockIssues(b, i + 1));
      MessagesStep(blocks, i);
    }
    assert blocks[..|blocks|] == blocks;
  }

  function Messages(issues: seq<Issue>): (ms: seq<string>)
    ensures |ms| == |issues|
    ensures forall k | 0 <= k < |issues| :: ms[k] == IssueMessage(issues[k])
  {
    seq(|issues|, k requires 0 <= k < |issues| => IssueMessage(issues[k]))
  }

  lemma MessagesAppend(a: seq<Issue>, b: seq<Issue>)
    ensures Messages(a + b) == Messages(a) + Messages(b)
  {
  }
}
