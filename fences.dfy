/** The markdown-fence substitutions the cleaners run, each one `re.sub(pattern, '', text, flags)`
    written out as a left-to-right scan over the ORIGINAL text: a match is looked for at each
    position in turn, a match found is deleted and the scan resumes where it ended (matches
    never overlap), and `^` / `$` are judged on the original text, as `re.sub` does. */
module Fences {
  import opened Wrappers
  import opened Text

  /** A non-empty literal, so that every match consumes something. */
  type Literal = s: string | |s| > 0 witness "`"

  /** Python's `^` under `re.MULTILINE`: the start of the text or just after a newline. */
  predicate AtLineStart(s: string, i: nat)
    requires i <= |s|
  {
    i == 0 || s[i - 1] == '\n'
  }

  /** `re.sub('^' + lit + r'\s*\n?', '', s, flags=re.MULTILINE | re.IGNORECASE)`, scanning from `i`.
      The greedy `\s*` takes every whitespace character, newlines included, so `\n?` is then empty. */
  function LineStartSub(s: string, lit: Literal, i: nat): (r: string)
    requires i <= |s|
    ensures |r| <= |s| - i
    decreases |s| - i
  {
    if i == |s| then []
    else if AtLineStart(s, i) && MatchesCIAt(s, i, lit) then LineStartSub(s, lit, SkipSpace(s, i + |lit|))
    else [s[i]] + LineStartSub(s, lit, i + 1)
  }

  /** The last newline in `s[j..k]`, the furthest point a backtracking `\s*` can stop before `$`. */
  function LastNewline(s: string, j: nat, k: nat): (r: Option<nat>)
    requires j <= k <= |s|
    ensures r.Some? ==> j <= r.value < k && s[r.value] == '\n'
    ensures r.Some? ==> forall e :: r.value < e < k ==> s[e] != '\n'
    ensures r.None? ==> forall e :: j <= e < k ==> s[e] != '\n'
    decreases k - j
  {
    if k == j then None else if s[k - 1] == '\n' then Some(k - 1) else LastNewline(s, j, k - 1)
  }

  /** Where `\s*$` that starts at `j` ends, if it can match at all. With `re.MULTILINE` the `$`
      holds at the end of the text and before every newline; without it only at the very end
      (or before a final newline, which a greedy `\s*` has already taken). */
  function FenceTail(s: string, j: nat, multiline: bool): (r: Option<nat>)
    requires j <= |s|
    ensures r.Some? ==> j <= r.value <= |s|
  {
    var k := SkipSpace(s, j);
    if k == |s| then Some(k)
    else if multiline then LastNewline(s, j, k)
    else None
  }

  /** Three backticks at `i`: a code fence. */
  predicate Triple(s: string, i: nat) {
    i + 3 <= |s| && s[i] == '`' && s[i + 1] == '`' && s[i + 2] == '`'
  }

  /** The end of a match of `\n?```\s*$` (or of ```` ```\s*$ ```` when `newline` is false) that
      starts at `i`. A leading newline is tried first; without it the match would have to start
      with a backtick at `i`, which a newline is not. */
  function EndMatch(s: string, newline: bool, multiline: bool, i: nat): (r: Option<nat>)
    requires i < |s|
    ensures r.Some? ==> i < r.value <= |s|
  {
    if newline && s[i] == '\n' && Triple(s, i + 1) then FenceTail(s, i + 4, multiline)
    else if Triple(s, i) then FenceTail(s, i + 3, multiline)
    else None
  }

  /** `re.sub(r'\n?```\s*$', '', s, flags)` (or without the `\n?`), scanning from `i`. */
  function LineEndSub(s: string, newline: bool, multiline: bool, i: nat): (r: string)
    requires i <= |s|
    ensures |r| <= |s| - i
    decreases |s| - i
  {
    if i == |s| then []
    else match EndMatch(s, newline, multiline, i)
      case Some(e) => LineEndSub(s, newline, multiline, e)
      case None => [s[i]] + LineEndSub(s, newline, multiline, i + 1)
  }

  /** ASCII letters, the class `[a-zA-Z]`. */
  predicate IsAsciiLetter(c: char) {
    'a' <= c <= 'z' || 'A' <= c <= 'Z'
  }

  function SkipLetters(s: string, i: nat): (r: nat)
    requires i <= |s|
    ensures i <= r <= |s|
    decreases |s| - i
  {
    if i < |s| && IsAsciiLetter(s[i]) then SkipLetters(s, i + 1) else i
  }

  /** `re.sub(r'```[a-zA-Z]*\s*\n?', '', s)`: a fence with its language tag, anywhere. */
  function TaggedFenceSub(s: string, i: nat): (r: string)
    requires i <= |s|
    ensures |r| <= |s| - i
    decreases |s| - i
  {
    if i == |s| then []
    else if Triple(s, i) then TaggedFenceSub(s, SkipSpace(s, SkipLetters(s, i + 3)))
    else [s[i]] + TaggedFenceSub(s, i + 1)
  }

  /** One pattern of a cleaner's list; all of them run with `re.MULTILINE | re.IGNORECASE`. */
  datatype Pattern =
    | LineStart(lit: Literal)   // '^' + lit + r'\s*\n?'
    | LineEnd(newline: bool)    // r'\n?```\s*$' when newline, r'```\s*$' otherwise

  function Apply(p: Pattern, s: string): (r: string)
    ensures |r| <= |s|
  {
    match p
    case LineStart(lit) => LineStartSub(s, lit, 0)
    case LineEnd(newline) => LineEndSub(s, newline, true, 0)
  }

  /** The patterns applied one after the other, as the cleaners' `for pattern in patterns` loops do. */
  function ApplyAll(ps: seq<Pattern>, s: string): (r: string)
    ensures |r| <= |s|
    decreases |ps|
  {
    if ps == [] then s else ApplyAll(ps[1..], Apply(ps[0], s))
  }

  /** The list both HTML cleaners use. */
  const HtmlPatterns: seq<Pattern> :=
    [LineStart("```html"), LineStart("```"), LineEnd(true), LineEnd(false), LineStart("html")]

  /** The list of the JSON cleaner of the content analyser. */
  const JsonPatterns: seq<Pattern> :=
    [LineStart("```json"), LineStart("```"), LineEnd(true), LineEnd(false)]

  /** The cleaners' pattern loop: `for pattern in patterns: cleaned = re.sub(pattern, '', cleaned, flags=...)`. */
  method StripMarkdown(text: string, patterns: seq<Pattern>) returns (cleaned: string)
    ensures cleaned == ApplyAll(patterns, text)
    ensures |cleaned| <= |text|
  {
    cleaned := text;
    for k := 0 to |patterns|
      invariant ApplyAll(patterns[k..], cleaned) == ApplyAll(patterns, text)
      invariant |cleaned| <= |text|
    {
      assert patterns[k..][1..] == patterns[k + 1..];
      cleaned := Apply(patterns[k], cleaned);
    }
    assert patterns[|patterns|..] == [];
  }

  // ---------------------------------------------------------------------------
  // Stretches where a pass finds nothing are copied unchanged

  predicate NoBacktick(s: string) {
    forall k | 0 <= k < |s| :: s[k] != '`'
  }

  lemma {:induction false} LineStartSubSkip(s: string, lit: Literal, i: nat, j: nat)
    requires i <= j <= |s|
    requires forall p :: i <= p < j ==> !(AtLineStart(s, p) && MatchesCIAt(s, p, lit))
    ensures LineStartSub(s, lit, i) == s[i..j] + LineStartSub(s, lit, j)
    decreases j - i
  {
    if i < j {
      LineStartSubSkip(s, lit, i + 1, j);
      SliceCons(s, i, j, LineStartSub(s, lit, j));
    }
  }

  /** Copying one character and then a stretch is copying the longer stretch. */
  lemma SliceCons(s: string, i: nat, j: nat, rest: string)
    requires i < j <= |s|
    ensures [s[i]] + (s[i + 1..j] + rest) == s[i..j] + rest
  {
    assert s[i..j] == [s[i]] + s[i + 1..j];
  }

  lemma {:induction false} LineEndSubSkip(s: string, newline: bool, multiline: bool, i: nat, j: nat)
    requires i <= j <= |s|
    requires forall p :: i <= p < j ==> EndMatch(s, newline, multiline, p).None?
    ensures LineEndSub(s, newline, multiline, i) == s[i..j] + LineEndSub(s, newline, multiline, j)
    decreases j - i
  {
    if i < j {
      assert EndMatch(s, newline, multiline, i).None?;
      assert LineEndSub(s, newline, multiline, i) == [s[i]] + LineEndSub(s, newline, multiline, i + 1);
      LineEndSubSkip(s, newline, multiline, i + 1, j);
      SliceCons(s, i, j, LineEndSub(s, newline, multiline, j));
    }
  }

  /** A character other than a backtick lowers to something other than a backtick. */
  lemma LowerNotBacktick(c: char)
    requires c != '`'
    ensures Lower(c) != '`'
  {
  }

  /** A literal cannot match where its first character does not. */
  lemma NoMatchAtFirst(s: string, p: nat, lit: Literal)
    requires p < |s| && Lower(s[p]) != lit[0]
    ensures !MatchesCIAt(s, p, lit)
  {
    assert LowerAt(s, p, 0) != lit[0];
  }

  /** A fence literal cannot match at a character other than a backtick. */
  lemma NoFenceAt(s: string, p: nat, lit: Literal)
    requires p < |s| && s[p] != '`' && lit[0] == '`'
    ensures !MatchesCIAt(s, p, lit)
  {
    LowerNotBacktick(s[p]);
    NoMatchAtFirst(s, p, lit);
  }

  /** A text without a triple backtick is left alone by the trailing-fence passes. */
  lemma NoTripleEndIdentity(s: string, newline: bool, multiline: bool)
    requires forall p :: 0 <= p < |s| ==> !Triple(s, p)
    ensures LineEndSub(s, newline, multiline, 0) == s
  {
    forall p | 0 <= p < |s|
      ensures EndMatch(s, newline, multiline, p).None?
    {
      assert !Triple(s, p);
      assert p + 1 < |s| ==> !Triple(s, p + 1);
    }
    LineEndSubSkip(s, newline, multiline, 0, |s|);
    assert s[0..|s|] == s;
  }

  /** A text without backticks is left alone by every pass that looks for a fence. */
  lemma NoBacktickIdentity(p: Pattern, s: string)
    requires NoBacktick(s)
    requires p.LineStart? ==> p.lit[0] == '`'
    ensures Apply(p, s) == s
  {
    match p
    case LineStart(lit) =>
      forall q | 0 <= q < |s|
        ensures !(AtLineStart(s, q) && MatchesCIAt(s, q, lit))
      {
        NoFenceAt(s, q, lit);
      }
      LineStartSubSkip(s, lit, 0, |s|);
      assert s[0..|s|] == s;
    case LineEnd(newline) =>
      NoTripleEndIdentity(s, newline, true);
  }

  /** One more step of the pattern loop. */
  lemma ApplyAllStep(ps: seq<Pattern>, k: nat, s: string)
    requires k < |ps|
    ensures ApplyAll(ps[k..], s) == ApplyAll(ps[k + 1..], Apply(ps[k], s))
  {
    assert ps[k..][1..] == ps[k + 1..];
  }

  /** On a text without backticks only the last pattern of the HTML list can change anything. */
  lemma HtmlPatternsWithoutFence(s: string)
    requires NoBacktick(s)
    ensures ApplyAll(HtmlPatterns, s) == Apply(LineStart("html"), s)
  {
    var ps := HtmlPatterns;
    NoBacktickIdentity(ps[0], s);
    NoBacktickIdentity(ps[1], s);
    NoBacktickIdentity(ps[2], s);
    NoBacktickIdentity(ps[3], s);
    ApplyAllStep(ps, 0, s);
    ApplyAllStep(ps, 1, s);
    ApplyAllStep(ps, 2, s);
    ApplyAllStep(ps, 3, s);
    ApplyAllStep(ps, 4, s);
    assert ps[0..] == ps && ps[5..] == [];
  }

  // ---------------------------------------------------------------------------
  // A fenced block: "```<lang>\n" + body + "\n```" loses both fences

  /** Opening fence with language tag, the body, and a closing fence on its own last line. */
  function Fenced(lang: string, body: string): string {
    "```" + lang + "\n" + body + "\n```"
  }

  /** Where the pieces of a fenced block sit. */
  lemma FencedLayout(lang: string, body: string)
    ensures var s := Fenced(lang, body); var m := |lang| + 3;
      |s| == m + |body| + 5 && s[..m] == "```" + lang && s[m] == '\n'
      && s[m + 1..m + 1 + |body|] == body && s[m + 1 + |body|..] == "\n```"
  {
  }

  /** The opening pass removes the fence with its tag and the newline after it. */
  lemma {:induction false} OpeningPassOnBlock(lang: string, body: string)
    requires lang == "html" || lang == "json"
    requires body != [] && !IsSpace(body[0]) && NoBacktick(body)
    ensures Apply(LineStart("```" + lang), Fenced(lang, body)) == body + "\n```"
  {
    var open: Literal := "```" + lang;
    var s0 := Fenced(lang, body);
    OpeningAtStart(lang, body);
    OpeningNotLater(lang, body);
    LineStartSubSkip(s0, open, 8, |s0|);
    FencedLayout(lang, body);
    assert s0[8..|s0|] == body + "\n```";
  }

  /** The opening fence and its newline match at the start of the block. */
  lemma OpeningAtStart(lang: string, body: string)
    requires lang == "html" || lang == "json"
    requires body != [] && !IsSpace(body[0])
    ensures MatchesCIAt(Fenced(lang, body), 0, "```" + lang)
    ensures SkipSpace(Fenced(lang, body), 7) == 8
  {
    var open := "```" + lang;
    var s0 := Fenced(lang, body);
    FencedLayout(lang, body);
    forall k | 0 <= k < 7 ensures LowerAt(s0, 0, k) == open[k] {
      assert s0[k] == s0[..7][k];
    }
    assert IsSpace(s0[7]);
    assert s0[8] == body[0];
  }

  /** No later line of the block begins with the opening fence. */
  lemma OpeningNotLater(lang: string, body: string)
    requires lang == "html" || lang == "json"
    requires NoBacktick(body)
    ensures var s0 := Fenced(lang, body);
      forall p | 8 <= p < |s0| :: !(AtLineStart(s0, p) && MatchesCIAt(s0, p, "```" + lang))
  {
    var open: Literal := "```" + lang;
    var s0 := Fenced(lang, body);
    var n := |body|;
    FencedLayout(lang, body);
    forall p | 8 <= p < |s0|
      ensures !(AtLineStart(s0, p) && MatchesCIAt(s0, p, open))
    {
      if p < 9 + n {
        if p < 8 + n {
          assert s0[p] == s0[8..8 + n][p - 8];
        }
        NoFenceAt(s0, p, open);
      }
    }
  }

  /** The second pass then finds the closing fence at the start of the last line. */
  lemma {:induction false} ClosingPassOnBlock(body: string)
    requires NoBacktick(body)
    ensures Apply(LineStart("```"), body + "\n```") == body + "\n"
  {
    var s1 := body + "\n```";
    var n := |body|;
    var close: Literal := "```";
    assert forall k | 0 <= k < n :: s1[k] == body[k];
    forall p | 0 <= p < n + 1
      ensures !(AtLineStart(s1, p) && MatchesCIAt(s1, p, close))
    {
      assert s1[p] != '`';
      NoFenceAt(s1, p, close);
    }
    LineStartSubSkip(s1, close, 0, n + 1);
    assert AtLineStart(s1, n + 1) && MatchesCIAt(s1, n + 1, close);
    assert SkipSpace(s1, n + 4) == |s1|;
    assert s1[0..n + 1] == body + "\n";
  }

  /** No line of `s` begins with "html" in any letter case. */
  predicate NoHtmlLine(s: string) {
    forall p | 0 <= p < |s| :: AtLineStart(s, p) ==> !MatchesCIAt(s, p, "html")
  }

  lemma AppendNewlineNoBacktick(body: string)
    requires NoBacktick(body)
    ensures NoBacktick(body + "\n")
  {
    var s := body + "\n";
    assert forall k | 0 <= k < |body| :: s[k] == body[k];
  }

  /** The "html" pass leaves a text alone when none of its lines begins with "html". */
  lemma HtmlLinePassIdentity(body: string)
    requires NoHtmlLine(body)
    ensures Apply(LineStart("html"), body + "\n") == body + "\n"
  {
    var s2 := body + "\n";
    var lit: Literal := "html";
    forall p | 0 <= p < |s2|
      ensures !(AtLineStart(s2, p) && MatchesCIAt(s2, p, lit))
    {
      if p == |body| {
        NoMatchAtFirst(s2, p, lit);
      } else if p + 4 <= |body| {
        if AtLineStart(s2, p) {
          assert AtLineStart(body, p);
          assert s2[p..p + 4] == body[p..p + 4];
          MatchesCITransfer(body, p, s2, p, lit);
        }
      } else {
        var d := |body| - p;
        assert s2[p + d] == '\n';
        NoMatchAtOffset(s2, p, lit, d);
      }
    }
    LineStartSubSkip(s2, lit, 0, |s2|);
    assert s2[0..|s2|] == s2;
  }

  /** A literal cannot match where one of its characters does not. */
  lemma NoMatchAtOffset(s: string, p: nat, lit: Literal, d: nat)
    requires d < |lit| && p + d < |s| && Lower(s[p + d]) != lit[d]
    ensures !MatchesCIAt(s, p, lit)
  {
    assert LowerAt(s, p, d) != lit[d];
  }

  /** The JSON list removes the fences of a fenced block and nothing else. */
  lemma JsonPatternsOnBlock(body: string)
    requires body != [] && !IsSpace(body[0]) && NoBacktick(body)
    ensures ApplyAll(JsonPatterns, Fenced("json", body)) == body + "\n"
  {
    var ps := JsonPatterns;
    var s0 := Fenced("json", body);
    assert "```" + "json" == "```json";
    OpeningPassOnBlock("json", body);
    var s1 := Apply(ps[0], s0);
    ClosingPassOnBlock(body);
    var s2 := Apply(ps[1], s1);
    assert s2 == body + "\n";
    AppendNewlineNoBacktick(body);
    ApplyAllStep(ps, 0, s0);
    ApplyAllStep(ps, 1, s1);
    ApplyAllStep(ps, 2, s2);
    NoBacktickIdentity(ps[2], s2);
    ApplyAllStep(ps, 3, s2);
    NoBacktickIdentity(ps[3], s2);
    assert ps[0..] == ps && ps[4..] == [];
  }

  /** The HTML list does the same, provided no line of the body begins with "html". */
  lemma HtmlPatternsOnBlock(body: string)
    requires body != [] && !IsSpace(body[0]) && NoBacktick(body) && NoHtmlLine(body)
    ensures ApplyAll(HtmlPatterns, Fenced("html", body)) == body + "\n"
  {
    var ps := HtmlPatterns;
    var s0 := Fenced("html", body);
    assert "```" + "html" == "```html";
    OpeningPassOnBlock("html", body);
    var s1 := Apply(ps[0], s0);
    ClosingPassOnBlock(body);
    var s2 := Apply(ps[1], s1);
    assert s2 == body + "\n";
    AppendNewlineNoBacktick(body);
    ApplyAllStep(ps, 0, s0);
    ApplyAllStep(ps, 1, s1);
    ApplyAllStep(ps, 2, s2);
    NoBacktickIdentity(ps[2], s2);
    ApplyAllStep(ps, 3, s2);
    NoBacktickIdentity(ps[3], s2);
    ApplyAllStep(ps, 4, s2);
    HtmlLinePassIdentity(body);
    assert ps[0..] == ps && ps[5..] == [];
  }

  // ---------------------------------------------------------------------------
  // The tagged-fence substitution leaves no triple backtick behind

  /** When no fence starts at `i`, the scan copies `s[i]` first. */
  lemma TaggedFenceSubHead(s: string, i: nat)
    requires i < |s| && !Triple(s, i)
    ensures TaggedFenceSub(s, i) == [s[i]] + TaggedFenceSub(s, i + 1)
  {
  }

  /** After a backtick that starts no fence, the scan cannot produce two more backticks. */
  lemma NoPairAfterLoneBacktick(s: string, i: nat)
    requires i < |s| && s[i] == '`' && !Triple(s, i)
    ensures var r := TaggedFenceSub(s, i + 1); |r| >= 2 ==> !(r[0] == '`' && r[1] == '`')
  {
    if i + 1 < |s| {
      assert !Triple(s, i + 1);
      TaggedFenceSubHead(s, i + 1);
      if s[i + 1] == '`' && i + 2 < |s| {
        assert s[i + 2] != '`';
        TaggedFenceSubHead(s, i + 2);
      }
    }
  }

  /** `re.sub(r'```[a-zA-Z]*\s*\n?', '', s)` leaves no "```" in its result. */
  lemma {:induction false} TaggedFenceSubNoTriple(s: string, i: nat)
    requires i <= |s|
    ensures forall p :: 0 <= p < |TaggedFenceSub(s, i)| ==> !Triple(TaggedFenceSub(s, i), p)
    decreases |s| - i
  {
    if i < |s| {
      if Triple(s, i) {
        TaggedFenceSubNoTriple(s, SkipSpace(s, SkipLetters(s, i + 3)));
      } else {
        var t := TaggedFenceSub(s, i + 1);
        TaggedFenceSubNoTriple(s, i + 1);
        var r := [s[i]] + t;
        TaggedFenceSubHead(s, i);
        forall p | 0 <= p < |r|
          ensures !Triple(r, p)
        {
          if p > 0 {
            assert !Triple(t, p - 1);
            assert r[p] == t[p - 1];
            assert p + 1 < |r| ==> r[p + 1] == t[p];
            assert p + 2 < |r| ==> r[p + 2] == t[p + 1];
          } else if s[i] == '`' {
            NoPairAfterLoneBacktick(s, i);
            assert |r| >= 3 ==> r[1] == t[0] && r[2] == t[1];
          }
        }
      }
    }
  }
}
