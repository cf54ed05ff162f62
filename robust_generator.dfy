/** The robust generator: a page cleaner that keeps all leading prose when it adds the doctype,
    its three-attempt page generation, and the driver that reads the game specifications and
    writes one page per game. */
module RobustGenerator {
  import opened Wrappers
  import opened Text
  import opened Fences
  import opened Pages
  import opened PyJson
  import opened GameFiles
  import opened Generation
  import opened GameLoop
  import FixedCleaner

  // ---------------------------------------------------------------------------
  // RobustCodeCleaner.clean_html_response

  /** The tags whose presence, in any letter case, makes the cleaner wrap a fragment in the
      page skeleton. */
  const WrapTags: seq<string> := ["<head>", "<body>", "<div>", "<script>"]

  predicate HasWrapTag(c: string) {
    exists t <- WrapTags :: ContainsCI(c, t)
  }

  /** The completion step: a text that starts with a doctype is kept; one that mentions `<html`
      anywhere gets a doctype line in front of all of it; one with a tag of `WrapTags` is placed
      in the skeleton; anything else is kept. */
  function Completed(c: string): string {
    if FixedCleaner.HasDoctype(c) then c
    else if ContainsCI(c, "<html") then DoctypeLine + "\n" + c
    else if HasWrapTag(c) then Shell(c)
    else c
  }

  /** What the cleaner returns: fences removed exactly as the fixed cleaner removes them, then
      the completion step. The `except` branch cannot be reached: nothing in the `try` raises
      on a string. */
  function RobustCleaned(raw: string): string {
    Completed(FixedCleaner.Prepared(raw))
  }

  method CleanHtmlResponse(raw: string) returns (html: string)
    ensures html == RobustCleaned(raw)
  {
    var cleaned := Strip(raw);
    cleaned := StripMarkdown(cleaned, HtmlPatterns);
    cleaned := Strip(cleaned);
    if !FixedCleaner.HasDoctype(cleaned) {
      if ContainsCI(cleaned, "<html") {
        cleaned := DoctypeLine + "\n" + cleaned;
      } else if HasWrapTag(cleaned) {
        cleaned := Shell(cleaned);
      }
    }
    html := cleaned;
  }

  /** The completed text starts with a doctype exactly when the text had one or mentions
      `<html` or one of `WrapTags`; the text itself always survives whole, at a known place. */
  lemma CompletedShape(c: string)
    ensures FixedCleaner.HasDoctype(Completed(c))
      <==> FixedCleaner.HasDoctype(c) || ContainsCI(c, "<html") || HasWrapTag(c)
    ensures FixedCleaner.HasDoctype(c) || (!ContainsCI(c, "<html") && !HasWrapTag(c)) ==> Completed(c) == c
    ensures !FixedCleaner.HasDoctype(c) && ContainsCI(c, "<html") ==>
      Completed(c)[..16] == DoctypeLine + "\n" && Completed(c)[16..] == c
    ensures !FixedCleaner.HasDoctype(c) && !ContainsCI(c, "<html") && HasWrapTag(c) ==>
      var n := |ShellHead|;
      Completed(c)[..n] == ShellHead && Completed(c)[n..n + |c|] == c && Completed(c)[n + |c|..] == ShellTail
  {
    var r := Completed(c);
    if !FixedCleaner.HasDoctype(c) {
      if ContainsCI(c, "<html") {
        assert |DoctypeLine + "\n"| == 16;
        AddedLineDoctype(c);
      } else if HasWrapTag(c) {
        ShellDoctype(c);
      }
    }
  }

  lemma AddedLineDoctype(c: string)
    ensures FixedCleaner.HasDoctype(DoctypeLine + "\n" + c)
  {
    FixedCleaner.DoctypeLineIndicators(DoctypeLine + "\n" + c);
  }

  lemma ShellDoctype(c: string)
    ensures FixedCleaner.HasDoctype(Shell(c))
  {
    var s := Shell(c);
    assert s[..15] == DoctypeLine by {
      assert s[..15] == s[..|ShellHead|][..15];
      assert ShellHead[..15] == DoctypeLine;
    }
    FixedCleaner.DoctypeLineIndicators(s);
  }

  /** Whenever the cleaner adds a doctype, what it returns passes the fixed cleaner's lenient
      check. */
  lemma CompletedValid(c: string)
    requires !FixedCleaner.HasDoctype(c) && (ContainsCI(c, "<html") || HasWrapTag(c))
    ensures FixedCleaner.LenientValid(Completed(c))
  {
    if ContainsCI(c, "<html") {
      var r := DoctypeLine + "\n" + c;
      FixedCleaner.DoctypeLineIndicators(r);
      assert ContainsCI(r, "doctype");
      ContainsCIAppend(DoctypeLine + "\n", c, "<html");
    } else {
      FixedCleaner.ShellValid(c);
    }
  }

  /** The two cleaners compared on the same prepared text (the fixed cleaner then formats what
      its repair step returns). On a text that already has a doctype they agree. When the fixed
      cleaner finds an `html` tag at `st`, the robust cleaner keeps the `st` characters before
      it, which the fixed cleaner drops: the fixed repair is the robust completion with those
      characters cut out after the added doctype line. */
  lemma CompletedVersusRepaired(c: string)
    ensures FixedCleaner.HasDoctype(c) ==> FixedCleaner.Repaired(c) == Completed(c)
    ensures !FixedCleaner.HasDoctype(c) && FixedCleaner.FindHtmlTag(c, 0).Some? ==>
      var st := FixedCleaner.FindHtmlTag(c, 0).value;
      var r := Completed(c);
      16 + st <= |r| && r[16..16 + st] == c[..st]
      && FixedCleaner.Repaired(c) == r[..16] + r[16 + st..]
  {
    if !FixedCleaner.HasDoctype(c) {
      match FixedCleaner.FindHtmlTag(c, 0)
      case None =>
      case Some(st) =>
        var head := DoctypeLine + "\n";
        assert MatchesCIAt(c, st, "<html");
        assert Completed(c) == head + c;
        assert FixedCleaner.Repaired(c) == head + c[st..];
        CutAfter(head, c, st);
    }
  }

  /** Cutting `st` characters out of `h + c` just after `h`. */
  lemma CutAfter(h: string, c: string, st: nat)
    requires st <= |c|
    ensures var r := h + c;
      |h| + st <= |r| && r[|h|..|h| + st] == c[..st] && r[..|h|] + r[|h| + st..] == h + c[st..]
  {
    var r := h + c;
    assert r[..|h|] == h;
    assert r[|h| + st..] == c[st..];
  }

  /** A page that already starts with a doctype, sent inside an html code fence, comes back
      exactly as it was - provided none of its lines begins with "html". */
  lemma RobustFencedPage(page: string)
    requires page != [] && Trimmed(page) && NoBacktick(page) && NoHtmlLine(page)
    requires FixedCleaner.HasDoctype(page)
    ensures RobustCleaned(Fenced("html", page)) == page
  {
    var raw := Fenced("html", page);
    FencedLayout("html", page);
    StripTrimmed(raw);
    HtmlPatternsOnBlock(page);
    StripTrailingSpace(page, "\n");
  }

  // ---------------------------------------------------------------------------
  // RobustGameGeneratorAction.run

  /** The retry loop of `run` with the robust cleaner: the page of the first reply the loop
      accepts - at least 100 characters once stripped, and at least 200 once cleaned unless it
      is the third - or "Failed to generate game after 3 attempts". */
  method GenerateGame(replies: seq<Reply>) returns (result: Result<string, string>, calls: nat)
    ensures result.Success? <==> exists k | 0 <= k < MaxRetries :: Accepts(replies, RobustCleaned, k)
    ensures result.Failure? ==> result.error == FailedGenerate && calls == MaxRetries
    ensures result.Success? ==> exists k | 0 <= k < MaxRetries ::
      Accepts(replies, RobustCleaned, k) && (forall j | 0 <= j < k :: !Accepts(replies, RobustCleaned, j))
      && result.value == RobustCleaned(ReplyAt(replies, k).text) && calls == k + 1
  {
    result, calls := GenerateWithRetries(replies, RobustCleaned);
    GeneratedPage(replies, RobustCleaned);
  }

  // ---------------------------------------------------------------------------
  // RobustGameGenerator.generate_games_from_json

  /** The field the driver copies into each record, with its default. */
  const RobustDefaults: map<string, Json> := map["concept" := JStr("Learning")]

  /** The per-game step of this driver. */
  function RobustPlay(isAlnum: char -> bool): (nat, Json, seq<Reply>) -> Played {
    Player(RobustCleaned, RobustDefaults, isAlnum)
  }

  /** A run of the driver on the loaded file (`None` when it could not be read as JSON). An
      exception outside the per-game `try` reaches the outer handler, which logs it and ends
      the run: a file that does not hold an object, and a truthy `mini_games` that is not a
      list, whose first element cannot be a dict. A missing or empty `mini_games` returns at
      once. */
  function RobustRun(systemData: Option<Json>, replies: seq<Reply>, isAlnum: char -> bool): Run {
    match systemData
    case None => Run([], [], true, 0)
    case Some(data) =>
      if !data.JObj? then Run([], [], true, 0)
      else
        var mini := Get(data.fields, "mini_games", JArr([]));
        if !Truthy(mini) then Run([], [], false, 0)
        else if !mini.JArr? then Run([], [], true, 0)
        else Games(mini.items, replies, RobustPlay(isAlnum))
  }

  method GenerateGamesFromJson(systemData: Option<Json>, replies: seq<Reply>, isAlnum: char -> bool)
    returns (run: Run)
    ensures run == RobustRun(systemData, replies, isAlnum)
  {
    if systemData.None? || !systemData.value.JObj? {
      return Run([], [], true, 0);
    }
    var mini := Get(systemData.value.fields, "mini_games", JArr([]));
    if !Truthy(mini) {
      return Run([], [], false, 0);
    }
    if !mini.JArr? {
      return Run([], [], true, 0);
    }
    run := RunGames(mini.items, replies, RobustPlay(isAlnum));
  }

  /** What a run of the robust driver promises: nothing happens without a list of games; with
      one, the games are numbered from 1 in order, every game up to the first specification
      that is not a dict is written or failed, at most three calls are made per game, every
      file is named by the rule and no two games share a file. */
  lemma RobustRunPromises(systemData: Option<Json>, replies: seq<Reply>, isAlnum: char -> bool)
    ensures var run := RobustRun(systemData, replies, isAlnum);
      (systemData.None? || !systemData.value.JObj? ==> run == Run([], [], true, 0))
      && ((systemData.Some? && systemData.value.JObj?
           && !Truthy(Get(systemData.value.fields, "mini_games", JArr([])))) ==> run == Run([], [], false, 0))
    ensures var run := RobustRun(systemData, replies, isAlnum);
      systemData.Some? && systemData.value.JObj? && Get(systemData.value.fields, "mini_games", JArr([])).JArr? ==>
        var items := Get(systemData.value.fields, "mini_games", JArr([])).items;
        Counted(run, |items|, items) && Numbered(run) && AllNamed(run.saved, isAlnum)
        && (forall a, b | 0 <= a < b < |run.saved| :: run.saved[a].filename != run.saved[b].filename)
  {
    if systemData.Some? && systemData.value.JObj? {
      var mini := Get(systemData.value.fields, "mini_games", JArr([]));
      if mini.JArr? {
        PlayerByTheRules(RobustCleaned, RobustDefaults, isAlnum);
        RunPromises(mini.items, replies, RobustPlay(isAlnum), isAlnum);
        if !Truthy(mini) {
          assert mini.items == [];
          assert Games(mini.items, replies, RobustPlay(isAlnum)) == Run([], [], false, 0);
        }
      }
    }
  }

  /** What succeeds is kept: given a list of dict specifications with string titles and a model
      whose every reply is accepted on its first call, the driver writes every game, in order,
      each with its title, its `concept` and its own reply, and fails none. */
  lemma RobustRunWritesAll(data: Json, replies: seq<Reply>, isAlnum: char -> bool)
    requires data.JObj? && Get(data.fields, "mini_games", JArr([])).JArr?
    requires var items := Get(data.fields, "mini_games", JArr([])).items;
      Writable(items, replies, |items|) && forall k | 0 <= k < |items| :: FirstCallAccepted(replies[k], RobustCleaned)
    ensures var items := Get(data.fields, "mini_games", JArr([])).items;
      RobustRun(Some(data), replies, isAlnum)
        == Run(Records(items, replies, |items|, RobustCleaned, RobustDefaults, isAlnum), [], false, |items|)
  {
    var items := Get(data.fields, "mini_games", JArr([])).items;
    var gs := Records(items, replies, |items|, RobustCleaned, RobustDefaults, isAlnum);
    PlayerWritesAll(items, replies, RobustCleaned, RobustDefaults, isAlnum);
    assert Games(items, replies, RobustPlay(isAlnum)) == Run(gs, [], false, |items|);
    RobustRunOfList(data, replies, isAlnum);
  }

  /** With a list of games, the run is the loop over it. */
  lemma RobustRunOfList(data: Json, replies: seq<Reply>, isAlnum: char -> bool)
    requires data.JObj? && Get(data.fields, "mini_games", JArr([])).JArr?
    ensures var items := Get(data.fields, "mini_games", JArr([])).items;
      RobustRun(Some(data), replies, isAlnum) == Games(items, replies, RobustPlay(isAlnum))
  {
    var items := Get(data.fields, "mini_games", JArr([])).items;
    if items == [] {
      assert Games(items, replies, RobustPlay(isAlnum)) == Run([], [], false, 0);
    }
  }
}
