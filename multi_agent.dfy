/** The multi-agent system's helpers: pulling a page or a JSON text out of a model's reply, the
    excerpt of a page the validator is shown, and the step that saves the validated games. */
module MultiAgent {
  import opened Wrappers
  import opened Text
  import opened Fences
  import opened PyJson
  import opened GameFiles

  // ---------------------------------------------------------------------------
  // The fenced block of parse_json_response and parse_html_response

  /** A block can close at `j`: "```" there, or a newline and then "```" (the `\n?```` that
      follows the lazy group). */
  predicate ClosesAt(s: string, j: nat) {
    (j < |s| && s[j] == '\n' && Triple(s, j + 1)) || Triple(s, j)
  }

  /** The first place at or after `j` where a block can close: where the lazy `(.*?)` stops. */
  function CloseFrom(s: string, j: nat): (r: Option<nat>)
    requires j <= |s|
    ensures r.Some? ==> j <= r.value < |s| && ClosesAt(s, r.value)
    ensures r.Some? ==> forall k | j <= k < r.value :: !ClosesAt(s, k)
    ensures r.None? ==> forall k | j <= k <= |s| :: !ClosesAt(s, k)
    decreases |s| - j
  {
    if j == |s| then None else if ClosesAt(s, j) then Some(j) else CloseFrom(s, j + 1)
  }

  /** The group of `re.search(r"```<lang>\s*\n?(.*?)\n?```", s, re.DOTALL | re.IGNORECASE)`.
      The search starts at the first opening fence, in any letter case; the greedy `\s*` takes
      the whitespace after the tag, newlines included, and the group runs to the first place
      the block can close. When that opening has no close there is no match at all: a later
      opening fence would itself be a close for it. */
  function FencedBlock(s: string, lang: string): (r: Option<string>)
  {
    var open := "```" + lang;
    match FindCI(s, open, 0)
    case None => None
    case Some(p) =>
      var a := SkipSpace(s, p + |open|);
      match CloseFrom(s, a)
      case None => None
      case Some(j) => Some(s[a..j])
  }

  /** The group never holds a code fence. */
  lemma BlockHasNoFence(s: string, lang: string)
    requires FencedBlock(s, lang).Some?
    ensures var b := FencedBlock(s, lang).value; forall k | 0 <= k < |b| :: !Triple(b, k)
  {
    var open := "```" + lang;
    var p := FindCI(s, open, 0).value;
    var a := SkipSpace(s, p + |open|);
    var j := CloseFrom(s, a).value;
    var b := s[a..j];
    forall k | 0 <= k < |b| ensures !Triple(b, k) {
      if Triple(b, k) {
        assert s[a + k] == b[k] && s[a + k + 1] == b[k + 1] && s[a + k + 2] == b[k + 2];
        assert ClosesAt(s, a + k);
      }
    }
  }

  /** The tags the parsers look for. */
  predicate FenceTag(lang: string) {
    lang == "html" || lang == "json"
  }

  /** A tag written as `lang` in any letter case, which `re.IGNORECASE` accepts. */
  predicate TagOf(tag: string, lang: string) {
    |tag| == |lang| && MatchesCIAt(tag, 0, lang)
  }

  /** A fence opened with such a tag matches the opening literal. */
  lemma OpeningOfTag(tag: string, lang: string)
    requires TagOf(tag, lang)
    ensures MatchesCIAt("```" + tag, 0, "```" + lang)
  {
    var o, lit := "```" + tag, "```" + lang;
    forall k | 0 <= k < |lit| ensures LowerAt(o, 0, k) == lit[k] {
      if k < 3 {
        assert o[k] == '`' && lit[k] == '`';
      } else {
        assert o[k] == tag[k - 3] && lit[k] == lang[k - 3];
        assert LowerAt(tag, 0, k - 3) == lang[k - 3];
      }
    }
  }

  /** Each tag the parsers look for is a tag of itself. */
  lemma TagOfItself(lang: string)
    requires FenceTag(lang)
    ensures TagOf(lang, lang)
  {
    MatchesCIOfLower(lang, 0, lang);
  }

  /** An opening fence right after prose without backticks is the first one. */
  lemma FirstOpening(s: string, p: nat, lang: string)
    requires FenceTag(lang) && p <= |s| && NoBacktick(s[..p]) && MatchesCIAt(s, p, "```" + lang)
    ensures FindCI(s, "```" + lang, 0) == Some(p)
  {
    var open := "```" + lang;
    forall q | 0 <= q < p ensures !MatchesCIAt(s, q, open) {
      assert s[q] == s[..p][q];
      NoFenceAt(s, q, open);
    }
  }

  /** A block whose body holds no backtick closes at the newline right after the body. */
  lemma CloseAfterBody(s: string, a: nat, n: nat)
    requires a + n + 4 <= |s| && NoBacktick(s[a..a + n]) && s[a + n..a + n + 4] == "\n```"
    ensures CloseFrom(s, a) == Some(a + n)
  {
    var e := a + n;
    forall k | a <= k < e ensures !ClosesAt(s, k) {
      assert s[k] == s[a..e][k - a];
      if k + 1 < e {
        assert s[k + 1] == s[a..e][k + 1 - a];
      } else {
        assert s[k + 1] == s[e..e + 4][0];
      }
    }
    assert s[e] == s[e..e + 4][0] && s[e + 1] == s[e..e + 4][1];
    assert s[e + 2] == s[e..e + 4][2] && s[e + 3] == s[e..e + 4][3];
    assert ClosesAt(s, e);
  }

  /** An opening fence at `p`, its tag in any letter case, after prose without backticks, a
      newline, then `n` characters
      without backticks, the first of them not whitespace, then a newline and a closing fence:
      the block is those `n` characters. */
  predicate BlockShape(s: string, p: nat, lang: string, n: nat) {
    var a := p + |lang| + 4;
    0 < n && a + n + 4 <= |s| && NoBacktick(s[..p]) && MatchesCIAt(s, p, "```" + lang) && s[a - 1] == '\n'
    && !IsSpace(s[a]) && NoBacktick(s[a..a + n]) && s[a + n..a + n + 4] == "\n```"
  }

  lemma BlockAt(s: string, p: nat, lang: string, n: nat)
    requires FenceTag(lang) && BlockShape(s, p, lang, n)
    ensures FencedBlock(s, lang) == Some(s[p + |lang| + 4..p + |lang| + 4 + n])
  {
    var a := p + |lang| + 4;
    FirstOpening(s, p, lang);
    assert SkipSpace(s, a - 1) == a;
    CloseAfterBody(s, a, n);
  }

  /** A block sent with prose before it that has no backtick, and anything after it, is found
      whole, whatever the letter case of its tag: its first character is not whitespace, and
      it holds no backtick. */
  lemma FencedBlockOf(pre: string, lang: string, tag: string, body: string, post: string)
    requires FenceTag(lang) && TagOf(tag, lang)
    requires NoBacktick(pre) && body != [] && !IsSpace(body[0]) && NoBacktick(body)
    ensures FencedBlock(pre + Fenced(tag, body) + post, lang) == Some(body)
  {
    var s := pre + Fenced(tag, body) + post;
    BlockLayout(pre, lang, tag, body, post);
    BlockAt(s, |pre|, lang, |body|);
  }

  /** Where the pieces of a block with prose around it sit. */
  lemma BlockLayout(pre: string, lang: string, tag: string, body: string, post: string)
    requires TagOf(tag, lang)
    requires NoBacktick(pre) && body != [] && !IsSpace(body[0]) && NoBacktick(body)
    ensures var s := pre + Fenced(tag, body) + post; var a := |pre| + |lang| + 4;
      BlockShape(s, |pre|, lang, |body|) && s[a..a + |body|] == body
  {
    var f := Fenced(tag, body);
    var s := pre + f + post;
    var p := |pre|;
    var a := p + |lang| + 4;
    FencedLayout(tag, body);
    assert s[..p] == pre;
    assert s[p..p + |f|] == f;
    assert s[p..p + |lang| + 3] == f[..|lang| + 3];
    OpeningOfTag(tag, lang);
    MatchesCITransfer(s, p, "```" + tag, 0, "```" + lang);
    assert s[a - 1] == f[|lang| + 3];
    assert s[a..a + |body|] == f[|lang| + 4..|lang| + 4 + |body|];
    assert s[a + |body|..a + |body| + 4] == f[|lang| + 4 + |body|..];
  }

  /** A match of a fence literal is a code fence. */
  lemma MatchIsTriple(s: string, q: nat, lang: string)
    requires MatchesCIAt(s, q, "```" + lang)
    ensures Triple(s, q)
  {
    var open := "```" + lang;
    assert open[0] == '`' && open[1] == '`' && open[2] == '`';
    assert LowerAt(s, q, 0) == '`' && LowerAt(s, q, 1) == '`' && LowerAt(s, q, 2) == '`';
    LowerBacktick(s[q]);
    LowerBacktick(s[q + 1]);
    LowerBacktick(s[q + 2]);
  }

  lemma LowerBacktick(c: char)
    requires Lower(c) == '`'
    ensures c == '`'
  {
  }

  /** A text without a code fence has no block. */
  lemma NoTripleNoBlock(s: string, lang: string)
    requires forall k | 0 <= k < |s| :: !Triple(s, k)
    ensures FencedBlock(s, lang).None?
  {
    var open := "```" + lang;
    forall q | 0 <= q <= |s| ensures !MatchesCIAt(s, q, open) {
      if MatchesCIAt(s, q, open) {
        MatchIsTriple(s, q, lang);
      }
    }
  }

  /** A text without any backtick has no block. */
  lemma NoBacktickNoBlock(s: string, lang: string)
    requires NoBacktick(s)
    ensures FencedBlock(s, lang).None?
  {
    NoTripleNoBlock(s, lang);
  }

  // ---------------------------------------------------------------------------
  // parse_html_response

  /** `rsp.strip().startswith('<!DOCTYPE html>') or rsp.strip().startswith('<html')`, letter
      case included. */
  predicate StartsAsPage(t: string) {
    MatchesAt(t, 0, "<!DOCTYPE html>") || MatchesAt(t, 0, "<html")
  }

  /** The trimmed group of the first html block; without one, the trimmed reply when it starts
      like a page, else the reply unchanged. */
  function ParseHtmlResponse(rsp: string): (r: string)
    ensures FencedBlock(rsp, "html").Some? || StartsAsPage(Strip(rsp)) ==> Trimmed(r)
    ensures FencedBlock(rsp, "html").None? && !StartsAsPage(Strip(rsp)) ==> r == rsp
  {
    match FencedBlock(rsp, "html")
    case Some(block) => Strip(block)
    case None =>
      var t := Strip(rsp);
      if StartsAsPage(t) then t else rsp
  }

  /** A page sent in an html block, its tag in any letter case, with prose around it, comes
      back exactly. */
  lemma ParseHtmlFenced(pre: string, tag: string, page: string, post: string)
    requires TagOf(tag, "html")
    requires NoBacktick(pre) && page != [] && Trimmed(page) && NoBacktick(page)
    ensures ParseHtmlResponse(pre + Fenced(tag, page) + post) == page
  {
    FencedBlockOf(pre, "html", tag, page, post);
    StripTrimmed(page);
  }

  /** A page the model sent without fences is only trimmed. */
  lemma ParseHtmlPlain(rsp: string)
    requires NoBacktick(rsp) && StartsAsPage(Strip(rsp))
    ensures ParseHtmlResponse(rsp) == Strip(rsp)
  {
    NoBacktickNoBlock(rsp, "html");
  }

  /** What a block gives is a fixed point: parsing it again changes nothing. */
  lemma ParseHtmlFixpoint(rsp: string)
    requires FencedBlock(rsp, "html").Some?
    ensures ParseHtmlResponse(ParseHtmlResponse(rsp)) == ParseHtmlResponse(rsp)
  {
    var b := FencedBlock(rsp, "html").value;
    BlockHasNoFence(rsp, "html");
    StripNoTriple(b);
    NoTripleNoBlock(Strip(b), "html");
    StripIdempotent(b);
  }

  /** `strip()` keeps a slice of the text, so it adds no code fence. */
  lemma StripNoTriple(s: string)
    requires forall k | 0 <= k < |s| :: !Triple(s, k)
    ensures var r := Strip(s); forall k | 0 <= k < |r| :: !Triple(r, k)
  {
    var r := Strip(s);
    var d := SkipSpace(s, 0);
    assert r == s[d..][..|r|];
    forall k | 0 <= k < |r| ensures !Triple(r, k) {
      if Triple(r, k) {
        assert r[k] == s[d + k] && r[k + 1] == s[d + k + 1] && r[k + 2] == s[d + k + 2];
        assert Triple(s, d + k);
      }
    }
  }

  // ---------------------------------------------------------------------------
  // parse_json_response

  /** The span of `re.search(r"\{.*?\}", s, re.DOTALL)`: the first `{` up to the nearest `}`
      after it. A later `{` cannot help when the first has no `}` after it. */
  function BraceSpan(s: string): (r: Option<string>)
    ensures r.Some? ==> |r.value| >= 2 && r.value[0] == '{' && r.value[|r.value| - 1] == '}'
    ensures r.Some? ==> forall k | 0 < k < |r.value| - 1 :: r.value[k] != '}'
  {
    match FindChar(s, '{', 0)
    case None => None
    case Some(b) =>
      match FindChar(s, '}', b + 1)
      case None => None
      case Some(e) =>
        var r := s[b..e + 1];
        assert forall k | 0 < k < |r| - 1 :: r[k] == s[b + k];
        Some(r)
  }

  /** The text handed to `json.loads`: the first json block, else the brace span, else the
      whole reply. */
  function JsonCandidate(rsp: string): string {
    match FencedBlock(rsp, "json")
    case Some(t) => t
    case None =>
      match BraceSpan(rsp)
      case Some(t) => t
      case None => rsp
  }

  /** The record returned when the candidate does not decode. */
  function ParseFailure(rsp: string): Json {
    JObj(map["error" := JStr("Failed to parse JSON"), "raw_response" := JStr(rsp)])
  }

  /** `parse_json_response`, with `json.loads` as `decode` (None when it raises). */
  function ParseJsonResponse(rsp: string, decode: string -> Option<Json>): (r: Json)
    ensures decode(JsonCandidate(rsp)).Some? ==> r == decode(JsonCandidate(rsp)).value
  {
    match decode(JsonCandidate(rsp))
    case Some(v) => v
    case None => ParseFailure(rsp)
  }

  /** A JSON text sent in a json block, its tag in any letter case, with prose around it, is
      the one decoded. */
  lemma ParseJsonFenced(pre: string, tag: string, body: string, post: string, decode: string -> Option<Json>)
    requires TagOf(tag, "json")
    requires NoBacktick(pre) && body != [] && !IsSpace(body[0]) && NoBacktick(body)
    ensures JsonCandidate(pre + Fenced(tag, body) + post) == body
    ensures decode(body).Some? ==> ParseJsonResponse(pre + Fenced(tag, body) + post, decode) == decode(body).value
  {
    FencedBlockOf(pre, "json", tag, body, post);
  }

  /** Without a block, the first `{` through the nearest `}` is the one decoded. */
  lemma JsonCandidateBraces(pre: string, mid: string, post: string)
    requires NoBacktick(pre + "{" + mid + "}" + post)
    requires '{' !in pre && '}' !in mid
    ensures JsonCandidate(pre + "{" + mid + "}" + post) == "{" + mid + "}"
  {
    var s := pre + "{" + mid + "}" + post;
    NoBacktickNoBlock(s, "json");
    var b := |pre|;
    var e := b + 1 + |mid|;
    assert s[b] == '{' && s[e] == '}';
    assert forall q | 0 <= q < b :: s[q] == pre[q];
    assert FindChar(s, '{', 0) == Some(b);
    assert forall q | b + 1 <= q < e :: s[q] == mid[q - b - 1];
    assert FindChar(s, '}', b + 1) == Some(e);
    assert s[b..e + 1] == "{" + mid + "}";
  }

  /** Without a block or a brace span, the whole reply is decoded. */
  lemma JsonCandidateWhole(rsp: string)
    requires FencedBlock(rsp, "json").None? && ('{' !in rsp || '}' !in rsp)
    ensures JsonCandidate(rsp) == rsp
  {
  }

  /** When the candidate does not decode, the record says so and keeps the whole reply, not
      just the candidate. */
  lemma ParseJsonFailed(rsp: string, decode: string -> Option<Json>)
    requires decode(JsonCandidate(rsp)).None?
    ensures var r := ParseJsonResponse(rsp, decode);
      r.JObj? && r.fields.Keys == {"error", "raw_response"}
      && r.fields["error"] == JStr("Failed to parse JSON") && r.fields["raw_response"] == JStr(rsp)
  {
  }

  // ---------------------------------------------------------------------------
  // ValidateGame.run

  /** `game_html[:2000]`, the part of a page the validator is shown. */
  function ValidationExcerpt(html: string): (r: string)
    ensures |r| <= 2000 && |r| <= |html| && r == html[..|r|]
    ensures |html| <= 2000 ==> r == html
    ensures |html| > 2000 ==> |r| == 2000
  {
    if |html| <= 2000 then html else html[..2000]
  }

  // ---------------------------------------------------------------------------
  // MultiAgentGameSystem._save_games

  /** How one result of the loop ends: its game written, skipped as not validated, or an
      exception that ends the whole loop. */
  datatype SaveStep = Save(game: SavedGame) | Skip | Abort

  /** The number `f"{n:02d}"` formats: an integer, or a boolean as 0 or 1; anything else raises. */
  function GameNumber(num: Json): (r: Option<int>)
    ensures r.Some? <==> num.JInt? || num.JBool?
  {
    match num
    case JInt(i) => Some(i)
    case JBool(b) => Some(if b then 1 else 0)
    case _ => None
  }

  /** `str(n)` for such a number: a boolean prints as "True" or "False". */
  function NumberText(num: Json): string
    requires num.JInt? || num.JBool?
  {
    if num.JBool? then (if num.b then "True" else "False") else IntToString(num.i)
  }

  function GameData(result: Json): Json
    requires result.JObj?
  {
    Get(result.fields, "game_data", JObj(map[]))
  }

  function ValidationField(result: Json): Json
    requires result.JObj?
  {
    Get(result.fields, "validation", JObj(map[]))
  }

  /** A result that passes the filter: a dict whose `validation` is a dict whose
      `passes_validation` is absent or true. */
  predicate Passes(result: Json) {
    result.JObj? && ValidationField(result).JObj?
    && Truthy(Get(ValidationField(result).fields, "passes_validation", JBool(true)))
  }

  /** One result. `get` on anything but a dict raises, and so do a number that `02d` cannot
      format and a page that is not a string. The record keeps the score, 0 by default. */
  function SaveItem(result: Json, isAlnum: char -> bool): SaveStep {
    if !result.JObj? || !ValidationField(result).JObj? then Abort
    else if !Passes(result) then Skip
    else
      var data := GameData(result);
      if !data.JObj? then Abort
      else
        var num := Get(data.fields, "game_number", JInt(1));
        if GameNumber(num).None? then Abort
        else
          var title := Get(data.fields, "title", JStr("Game " + NumberText(num)));
          var html := Get(data.fields, "html", JStr(""));
          if !title.JStr? || !html.JStr? then Abort
          else
            var n := GameNumber(num).value;
            var score := Get(ValidationField(result).fields, "validation_score", JInt(0));
            Save(SavedGame(n, title.s, FileName(n, SafeTitle(title.s, isAlnum)), html.s,
                           map["validation_score" := score]))
  }

  /** A result is skipped exactly when it is a dict with a dict `validation` that does not
      pass; it is saved exactly when it passes and its game data can be written. A saved game
      is named by the rule, from `game_number` (1 by default) and `title` ("Game 1" when both
      are missing), and keeps `validation_score` (0 by default). */
  lemma SaveItemCases(result: Json, isAlnum: char -> bool)
    ensures SaveItem(result, isAlnum).Skip? <==>
      result.JObj? && ValidationField(result).JObj? && !Passes(result)
    ensures SaveItem(result, isAlnum).Save? <==>
      Passes(result) && GameData(result).JObj?
      && (var d := GameData(result).fields;
          var num := Get(d, "game_number", JInt(1));
          GameNumber(num).Some?
          && Get(d, "title", JStr("Game " + NumberText(num))).JStr? && Get(d, "html", JStr("")).JStr?)
    ensures SaveItem(result, isAlnum).Save? ==>
      var g := SaveItem(result, isAlnum).game;
      var d := GameData(result).fields;
      var v := ValidationField(result).fields;
      NamedByRule(g, isAlnum)
      && ("game_number" !in d ==> g.number == 1)
      && ("game_number" !in d && "title" !in d ==> g.title == "Game 1")
      && ("html" !in d ==> g.html == [])
      && g.extra == map["validation_score" := Get(v, "validation_score", JInt(0))]
  {
    if SaveItem(result, isAlnum).Save? {
      var d := GameData(result).fields;
      if "game_number" !in d {
        assert NumberText(JInt(1)) == "1";
      }
    }
  }

  /** What the loop has done: the games written so far, in order, and whether it was ended by
      an exception. */
  datatype Saving = Saving(written: seq<SavedGame>, aborted: bool)

  /** The loop body of this system: `SaveItem`. */
  function Saver(isAlnum: char -> bool): Json -> SaveStep {
    (result: Json) => SaveItem(result, isAlnum)
  }

  /** The loop after the first `n` results, with `step` as its body. */
  function SaveUpTo(items: seq<Json>, n: nat, step: Json -> SaveStep): Saving
    requires n <= |items|
  {
    if n == 0 then Saving([], false)
    else
      var s := SaveUpTo(items, n - 1, step);
      if s.aborted then s
      else
        match step(items[n - 1])
        case Abort => Saving(s.written, true)
        case Skip => s
        case Save(g) => Saving(s.written + [g], false)
  }

  /** The games of the results among the first `n` that are saved, in order. */
  function KeptBefore(items: seq<Json>, n: nat, step: Json -> SaveStep): (gs: seq<SavedGame>)
    requires n <= |items|
    ensures |gs| <= n
  {
    if n == 0 then []
    else
      var st := step(items[n - 1]);
      KeptBefore(items, n - 1, step) + (if st.Save? then [st.game] else [])
  }

  /** `_save_games`, with `json.loads` as `decode`. An exception anywhere is caught by the
      outer handler, which ends the run before the index is made (files already written stay);
      the records reach `_create_index` only when nothing raised. Iterating a dict gives its
      keys and iterating a string its characters, and neither has `get`; a number cannot be
      iterated at all. */
  function SaveGamesRun(resultsJson: string, decode: string -> Option<Json>, isAlnum: char -> bool): Saving {
    match decode(resultsJson)
    case None => Saving([], true)
    case Some(results) =>
      match results
      case JArr(items) => SaveUpTo(items, |items|, Saver(isAlnum))
      case JObj(m) => Saving([], m != map[])
      case JStr(s) => Saving([], s != [])
      case _ => Saving([], true)
  }

  /** An ended loop stays ended. */
  lemma {:induction false} AbortedStays(items: seq<Json>, i: nat, n: nat, step: Json -> SaveStep)
    requires i <= n <= |items| && SaveUpTo(items, i, step).aborted
    ensures SaveUpTo(items, n, step) == SaveUpTo(items, i, step)
    decreases n - i
  {
    if i < n {
      AbortedStays(items, i, n - 1, step);
    }
  }

  /** One result, step by step as the loop body handles it. */
  method SaveOne(result: Json, isAlnum: char -> bool) returns (step: SaveStep)
    ensures step == SaveItem(result, isAlnum)
  {
    if !result.JObj? {
      return Abort;
    }
    var data := Get(result.fields, "game_data", JObj(map[]));
    var validation := Get(result.fields, "validation", JObj(map[]));
    if !validation.JObj? {
      return Abort;
    }
    if !Truthy(Get(validation.fields, "passes_validation", JBool(true))) {
      return Skip;
    }
    if !data.JObj? {
      return Abort;
    }
    var num := Get(data.fields, "game_number", JInt(1));
    if !(num.JInt? || num.JBool?) {
      return Abort;
    }
    var title := Get(data.fields, "title", JStr("Game " + NumberText(num)));
    var html := Get(data.fields, "html", JStr(""));
    if !title.JStr? || !html.JStr? {
      return Abort;
    }
    var n := if num.JBool? then (if num.b then 1 else 0) else num.i;
    var filename := FileName(n, SafeTitle(title.s, isAlnum));
    var score := Get(validation.fields, "validation_score", JInt(0));
    step := Save(SavedGame(n, title.s, filename, html.s, map["validation_score" := score]));
  }

  /** The loop `for result in results` over a list. */
  method SaveAll(items: seq<Json>, isAlnum: char -> bool) returns (saving: Saving)
    ensures saving == SaveUpTo(items, |items|, Saver(isAlnum))
  {
    var written: seq<SavedGame> := [];
    for i := 0 to |items|
      invariant SaveUpTo(items, i, Saver(isAlnum)) == Saving(written, false)
    {
      var step := SaveOne(items[i], isAlnum);
      assert step == Saver(isAlnum)(items[i]);
      match step {
        case Abort =>
          AbortedStays(items, i + 1, |items|, Saver(isAlnum));
          return Saving(written, true);
        case Skip =>
        case Save(g) =>
          written := written + [g];
      }
    }
    saving := Saving(written, false);
  }

  /** `_save_games`: decode the results, then save the games that pass, in order. */
  method SaveGames(resultsJson: string, decode: string -> Option<Json>, isAlnum: char -> bool)
    returns (saving: Saving)
    ensures saving == SaveGamesRun(resultsJson, decode, isAlnum)
  {
    var results := decode(resultsJson);
    if results.None? {
      return Saving([], true);
    }
    match results.value {
      case JArr(items) =>
        saving := SaveAll(items, isAlnum);
      case JObj(m) =>
        saving := Saving([], m != map[]);
      case JStr(s) =>
        saving := Saving([], s != []);
      case _ =>
        saving := Saving([], true);
    }
  }

  /** The loop goes through every result exactly when no result raises, and then writes the
      games of the results that are saved, in order. Otherwise it has written those of the
      results before the first one that raises. */
  lemma {:induction false} SaveUpToKept(items: seq<Json>, n: nat, step: Json -> SaveStep)
    requires n <= |items|
    ensures var s := SaveUpTo(items, n, step);
      (s.aborted <==> exists k | 0 <= k < n :: step(items[k]).Abort?)
      && (!s.aborted ==> s.written == KeptBefore(items, n, step))
    ensures var s := SaveUpTo(items, n, step);
      s.aborted ==> exists k | 0 <= k < n ::
        step(items[k]).Abort? && (forall j | 0 <= j < k :: !step(items[j]).Abort?)
        && s.written == KeptBefore(items, k, step)
  {
    if n > 0 {
      SaveUpToKept(items, n - 1, step);
    }
  }

  /** A loop body that saves only results passing the filter, under names by the rule. */
  ghost predicate SavesByTheRules(step: Json -> SaveStep, isAlnum: char -> bool) {
    forall r :: step(r).Save? ==> Passes(r) && NamedByRule(step(r).game, isAlnum)
  }

  lemma SaverByTheRules(isAlnum: char -> bool)
    ensures SavesByTheRules(Saver(isAlnum), isAlnum)
  {
    forall r | Saver(isAlnum)(r).Save? ensures Passes(r) && NamedByRule(Saver(isAlnum)(r).game, isAlnum) {
      SaveItemCases(r, isAlnum);
    }
  }

  /** Every game kept is named by the rule and comes from a result that passes the filter. */
  lemma {:induction false} KeptByTheRules(items: seq<Json>, n: nat, step: Json -> SaveStep, isAlnum: char -> bool)
    requires n <= |items| && SavesByTheRules(step, isAlnum)
    ensures forall g <- KeptBefore(items, n, step) :: NamedByRule(g, isAlnum)
    ensures forall g <- KeptBefore(items, n, step) ::
      exists k | 0 <= k < n :: Passes(items[k]) && step(items[k]) == Save(g)
  {
    if n > 0 {
      KeptByTheRules(items, n - 1, step, isAlnum);
    }
  }

  /** What `_save_games` promises: nothing is written when the results do not decode; from a
      list, the records reach the index exactly when no result raises, and they are then the
      games of the results that pass, in order; every file written is named by the rule. */
  lemma SaveGamesPromises(resultsJson: string, decode: string -> Option<Json>, isAlnum: char -> bool)
    ensures var s := SaveGamesRun(resultsJson, decode, isAlnum);
      (decode(resultsJson).None? ==> s == Saving([], true))
      && (forall g <- s.written :: NamedByRule(g, isAlnum))
    ensures var s := SaveGamesRun(resultsJson, decode, isAlnum);
      decode(resultsJson).Some? && decode(resultsJson).value.JArr? ==>
        var items := decode(resultsJson).value.items;
        (!s.aborted <==> forall k | 0 <= k < |items| :: !SaveItem(items[k], isAlnum).Abort?)
        && (!s.aborted ==> s.written == KeptBefore(items, |items|, Saver(isAlnum)))
        && (forall g <- s.written :: exists k | 0 <= k < |items| :: Passes(items[k]) && SaveItem(items[k], isAlnum) == Save(g))
  {
    match decode(resultsJson)
    case None =>
    case Some(results) =>
      if results.JArr? {
        var items := results.items;
        var step := Saver(isAlnum);
        SaveUpToKept(items, |items|, step);
        SaverByTheRules(isAlnum);
        KeptByTheRules(items, |items|, step, isAlnum);
        var s := SaveUpTo(items, |items|, step);
        if s.aborted {
          var k :| 0 <= k < |items| && step(items[k]).Abort? && (forall j | 0 <= j < k :: !step(items[j]).Abort?)
            && s.written == KeptBefore(items, k, step);
          KeptByTheRules(items, k, step, isAlnum);
        }
      }
  }
}
