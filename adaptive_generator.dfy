/** The adaptive generator: the model is first asked how many games the content needs, its
    answer is cleaned, decoded and validated, and then one page is generated per game
    specification, with the fixed cleaner. */
module Adaptive {
  import opened Wrappers
  import opened Text
  import opened Fences
  import opened PyJson
  import opened GameFiles
  import opened Generation
  import opened GameLoop
  import FixedCleaner

  // ---------------------------------------------------------------------------
  // AdaptiveContentAnalyzer._clean_json_response

  /** The reply stripped, its markdown fences removed, stripped again. */
  function CleanJson(response: string): (r: string)
    ensures Trimmed(r)
  {
    Strip(ApplyAll(JsonPatterns, Strip(response)))
  }

  method CleanJsonResponse(response: string) returns (cleaned: string)
    ensures cleaned == CleanJson(response)
  {
    cleaned := Strip(response);
    cleaned := StripMarkdown(cleaned, JsonPatterns);
    cleaned := Strip(cleaned);
  }

  /** A JSON text sent inside a json code fence comes out exactly as it was. */
  lemma CleanJsonFenced(body: string)
    requires body != [] && Trimmed(body) && NoBacktick(body)
    ensures CleanJson(Fenced("json", body)) == body
  {
    var raw := Fenced("json", body);
    FencedLayout("json", body);
    StripTrimmed(raw);
    JsonPatternsOnBlock(body);
    StripTrailingSpace(body, "\n");
  }

  /** A reply without fences or surrounding whitespace is left alone. */
  lemma CleanJsonPlain(t: string)
    requires Trimmed(t) && NoBacktick(t)
    ensures CleanJson(t) == t
  {
    StripTrimmed(t);
    var ps := JsonPatterns;
    NoBacktickIdentity(ps[0], t);
    NoBacktickIdentity(ps[1], t);
    NoBacktickIdentity(ps[2], t);
    NoBacktickIdentity(ps[3], t);
    ApplyAllStep(ps, 0, t);
    ApplyAllStep(ps, 1, t);
    ApplyAllStep(ps, 2, t);
    ApplyAllStep(ps, 3, t);
  }

  // ---------------------------------------------------------------------------
  // AdaptiveContentAnalyzer._validate_analysis

  /** `key in container`: membership of a key of a dict, of an element of a list, of a substring
      of a string; `TypeError` (None) on anything else. */
  function PyIn(key: string, container: Json): (r: Option<bool>)
    ensures r.Some? <==> container.JObj? || container.JArr? || container.JStr?
  {
    match container
    case JObj(m) => Some(key in m)
    case JArr(items) => Some(JStr(key) in items)
    case JStr(s) => Some(Contains(s, key))
    case _ => None
  }

  /** `container[key]` with a string key: a dict's value, `KeyError` or `TypeError` (None) otherwise. */
  function PySub(container: Json, key: string): (r: Option<Json>)
    ensures r.Some? <==> container.JObj? && key in container.fields
    ensures r.Some? ==> r.value == container.fields[key]
  {
    if container.JObj? && key in container.fields then Some(container.fields[key]) else None
  }

  /** A value as a number in a comparison: integers, floats and booleans; `TypeError` (None)
      for anything else. */
  function PyNumber(j: Json): (r: Option<real>)
    ensures r.Some? <==> j.JInt? || j.JReal? || j.JBool?
  {
    match j
    case JInt(i) => Some(i as real)
    case JReal(x) => Some(x)
    case JBool(b) => Some(if b then 1.0 else 0.0)
    case _ => None
  }

  /** The body of `_validate_analysis`'s `try`, step by step: `Some(b)` when it returns `b`,
      None when it raises. */
  function Validation(data: Json): Option<bool> {
    match PyIn("content_analysis", data)
    case None => None
    case Some(false) => Some(false)
    case Some(true) =>
      match PyIn("game_specifications", data)
      case None => None
      case Some(false) => Some(false)
      case Some(true) =>
        match PySub(data, "content_analysis")
        case None => None
        case Some(analysis) =>
          match PyIn("optimal_game_count", analysis)
          case None => None
          case Some(false) => Some(false)
          case Some(true) =>
            match PySub(analysis, "optimal_game_count")
            case None => None
            case Some(count) =>
              match PyNumber(count)
              case None => None
              case Some(x) =>
                if !(3.0 <= x <= 15.0) then Some(false)
                else
                  match PySub(data, "game_specifications")
                  case None => None
                  case Some(games) =>
                    match PyLen(games)
                    case None => None
                    case Some(n) => Some(n as real == x)
  }

  /** `_validate_analysis`: an exception counts as a failed validation. */
  predicate ValidateAnalysis(data: Json) {
    Validation(data) == Some(true)
  }

  /** The number of game specifications an analysis asks for, when its count is a number. */
  function OptimalCount(data: Json): Option<real> {
    match PySub(data, "content_analysis")
    case None => None
    case Some(analysis) =>
      match PySub(analysis, "optimal_game_count")
      case None => None
      case Some(count) => PyNumber(count)
  }

  /** The specifications the analysis lists, when there is such a field. */
  function Specifications(data: Json): Option<Json> {
    PySub(data, "game_specifications")
  }

  /** An analysis passes exactly when it is a dict with both fields, its `content_analysis` is a
      dict whose `optimal_game_count` is a number from 3 to 15, and its `game_specifications`
      has exactly that many elements (or keys, or characters). */
  lemma ValidateAnalysisIff(data: Json)
    ensures ValidateAnalysis(data) <==>
      data.JObj? && "content_analysis" in data.fields && "game_specifications" in data.fields
      && OptimalCount(data).Some? && 3.0 <= OptimalCount(data).value <= 15.0
      && PyLen(Specifications(data).value).Some?
      && PyLen(Specifications(data).value).value as real == OptimalCount(data).value
  {
  }

  /** A valid analysis lists from 3 to 15 specifications. */
  lemma ValidatedCount(data: Json)
    requires ValidateAnalysis(data)
    ensures Specifications(data).Some? && PyLen(Specifications(data).value).Some?
    ensures 3 <= PyLen(Specifications(data).value).value <= 15
  {
    ValidateAnalysisIff(data);
  }

  // ---------------------------------------------------------------------------
  // AdaptiveContentAnalyzer.run

  const FailedAnalyze: string := "Failed to analyze content after 3 attempts"
  const AllAnalyzeFailed: string := "All content analysis attempts failed"

  /** One attempt of the analysis loop, given how `json.loads` decodes a text. A failed call or
      a reply that does not decode raises; a decoded analysis is returned when it validates,
      and otherwise the loop goes on - on the last attempt, past its end. */
  function AnalysisAttempt(reply: Reply, decode: string -> Option<Json>): Attempt<Json> {
    match reply
    case CallFailed => Raise
    case Answer(t) =>
      match decode(CleanJson(t))
      case None => Raise
      case Some(data) => if ValidateAnalysis(data) then Done(data) else Next
  }

  function AnalysisSteps(replies: seq<Reply>, decode: string -> Option<Json>): (steps: seq<Attempt<Json>>)
    ensures |steps| == MaxRetries
  {
    seq(MaxRetries, k requires 0 <= k < MaxRetries => AnalysisAttempt(ReplyAt(replies, k), decode))
  }

  /** Reply `k` decodes to an analysis that validates. */
  predicate AnalysisAccepts(replies: seq<Reply>, decode: string -> Option<Json>, k: nat) {
    var reply := ReplyAt(replies, k);
    reply.Answer? && decode(CleanJson(reply.text)).Some? && ValidateAnalysis(decode(CleanJson(reply.text)).value)
  }

  /** Call `k` raises: the call fails or its reply does not decode. */
  predicate AnalysisRaises(replies: seq<Reply>, decode: string -> Option<Json>, k: nat) {
    var reply := ReplyAt(replies, k);
    reply.CallFailed? || decode(CleanJson(reply.text)).None?
  }

  method Analyze(replies: seq<Reply>, decode: string -> Option<Json>) returns (result: Result<Json, string>, calls: nat)
    ensures result == RetryFrom(AnalysisSteps(replies, decode), 0, FailedAnalyze, AllAnalyzeFailed)
    ensures calls == AttemptsFrom(AnalysisSteps(replies, decode), 0) && calls <= MaxRetries
  {
    ghost var steps := AnalysisSteps(replies, decode);
    calls := 0;
    var attempt := 0;
    while attempt < MaxRetries
      invariant attempt <= MaxRetries && calls == attempt
      invariant RetryFrom(steps, 0, FailedAnalyze, AllAnalyzeFailed)
        == RetryFrom(steps, attempt, FailedAnalyze, AllAnalyzeFailed)
      invariant AttemptsFrom(steps, 0) == attempt + AttemptsFrom(steps, attempt)
    {
      assert steps[attempt] == AnalysisAttempt(ReplyAt(replies, attempt), decode);
      var reply := ReplyAt(replies, attempt);
      calls := calls + 1;
      var raised := false;
      match reply {
        case CallFailed =>
          raised := true;
        case Answer(t) =>
          var cleaned := CleanJsonResponse(t);
          match decode(cleaned) {
            case None =>
              raised := true;
            case Some(data) =>
              if ValidateAnalysis(data) {
                return Success(data), calls;
              }
          }
      }
      if raised && attempt == MaxRetries - 1 {
        return Failure(FailedAnalyze), calls;
      }
      attempt := attempt + 1;
    }
    result := Failure(AllAnalyzeFailed);
  }

  /** The analysis loop returns the first reply that decodes to a valid analysis, after that many
      calls, and only such a reply. */
  lemma AnalyzedContent(replies: seq<Reply>, decode: string -> Option<Json>)
    ensures var r := RetryFrom(AnalysisSteps(replies, decode), 0, FailedAnalyze, AllAnalyzeFailed);
      (r.Success? <==> exists k | 0 <= k < MaxRetries :: AnalysisAccepts(replies, decode, k))
      && (r.Success? ==> ValidateAnalysis(r.value))
    ensures var r := RetryFrom(AnalysisSteps(replies, decode), 0, FailedAnalyze, AllAnalyzeFailed);
      var calls := AttemptsFrom(AnalysisSteps(replies, decode), 0);
      r.Success? ==> exists k | 0 <= k < MaxRetries ::
        AnalysisAccepts(replies, decode, k) && (forall j | 0 <= j < k :: !AnalysisAccepts(replies, decode, j))
        && r.value == decode(CleanJson(ReplyAt(replies, k).text)).value && calls == k + 1
  {
    var steps := AnalysisSteps(replies, decode);
    forall k | 0 <= k < MaxRetries ensures steps[k].Done? <==> AnalysisAccepts(replies, decode, k) {
      AnalysisStep(replies, decode, k);
    }
    RetryOutcome(steps, 0, FailedAnalyze, AllAnalyzeFailed);
    match FirstDone(steps, 0)
    case Some(k) => AnalysisStep(replies, decode, k);
    case None =>
  }

  /** Without such a reply the loop has made all three calls, and its message tells how the
      third ended: "Failed to analyze content after 3 attempts" when it raised, "All content
      analysis attempts failed" when it decoded but did not validate. */
  lemma AnalysisFailure(replies: seq<Reply>, decode: string -> Option<Json>)
    ensures var r := RetryFrom(AnalysisSteps(replies, decode), 0, FailedAnalyze, AllAnalyzeFailed);
      r.Failure? ==>
        AttemptsFrom(AnalysisSteps(replies, decode), 0) == MaxRetries
        && (r.error == FailedAnalyze <==> AnalysisRaises(replies, decode, MaxRetries - 1))
        && (r.error == AllAnalyzeFailed <==> !AnalysisRaises(replies, decode, MaxRetries - 1))
  {
    var steps := AnalysisSteps(replies, decode);
    RetryOutcome(steps, 0, FailedAnalyze, AllAnalyzeFailed);
    if FirstDone(steps, 0).None? {
      AnalysisStep(replies, decode, MaxRetries - 1);
      assert FailedAnalyze[0] != AllAnalyzeFailed[0];
    }
  }

  /** How attempt `k` ends, in terms of its reply. */
  lemma AnalysisStep(replies: seq<Reply>, decode: string -> Option<Json>, k: nat)
    requires k < MaxRetries
    ensures AnalysisSteps(replies, decode)[k].Done? <==> AnalysisAccepts(replies, decode, k)
    ensures AnalysisSteps(replies, decode)[k].Raise? <==> AnalysisRaises(replies, decode, k)
    ensures AnalysisAccepts(replies, decode, k) ==>
      AnalysisSteps(replies, decode)[k] == Done(decode(CleanJson(ReplyAt(replies, k).text)).value)
  {
    assert AnalysisSteps(replies, decode)[k] == AnalysisAttempt(ReplyAt(replies, k), decode);
  }

  // ---------------------------------------------------------------------------
  // EnhancedGameGenerator.run

  /** The retry loop of the enhanced generator, with the fixed cleaner. On a short reply at the
      third attempt the source returns `self._create_enhanced_fallback(game_spec)`, a method the
      class does not define: the `AttributeError` is caught by the loop's own handler, which
      raises "Failed to generate game after 3 attempts" - so the loop is the robust generator's,
      with another cleaner. */
  method EnhancedGenerate(replies: seq<Reply>) returns (result: Result<string, string>, calls: nat)
    ensures result.Success? <==> exists k | 0 <= k < MaxRetries :: Accepts(replies, FixedCleaner.FixedCleaned, k)
    ensures result.Failure? ==> result.error == FailedGenerate && calls == MaxRetries
    ensures result.Success? ==> exists k | 0 <= k < MaxRetries ::
      Accepts(replies, FixedCleaner.FixedCleaned, k)
      && (forall j | 0 <= j < k :: !Accepts(replies, FixedCleaner.FixedCleaned, j))
      && result.value == FixedCleaner.FixedCleaned(ReplyAt(replies, k).text) && calls == k + 1
  {
    result, calls := GenerateWithRetries(replies, FixedCleaner.FixedCleaned);
    GeneratedPage(replies, FixedCleaner.FixedCleaned);
  }

  // ---------------------------------------------------------------------------
  // AdaptiveGameSystem.generate_adaptive_games

  /** The fields the driver copies into each record, with their defaults. */
  const AdaptiveDefaults: map<string, Json> := map[
    "concept" := JStr("Learning"),
    "difficulty" := JStr("Medium"),
    "learning_objective" := JStr("Educational goal"),
    "estimated_time" := JStr("3 minutes")]

  function AdaptivePlay(isAlnum: char -> bool): (nat, Json, seq<Reply>) -> Played {
    Player(FixedCleaner.FixedCleaned, AdaptiveDefaults, isAlnum)
  }

  /** The specifications the per-game loop runs over, once the analysis is in. None when the
      driver raises first: the count or `estimated_learning_time` cannot be read (both are
      logged), or the specifications are not a list - a dict or a string of the validated
      length has a first element, and that is not a dict. */
  function GameSpecs(analysis: Json): Option<seq<Json>> {
    match PySub(analysis, "content_analysis")
    case None => None
    case Some(ca) =>
      if PySub(ca, "optimal_game_count").None? || PySub(ca, "estimated_learning_time").None? then None
      else
        match Specifications(analysis)
        case None => None
        case Some(specs) => if specs.JArr? then Some(specs.items) else None
  }

  /** A run that made `used` more calls first. */
  function After(used: nat, run: Run): Run {
    Run(run.saved, run.failed, run.stopped, run.calls + used)
  }

  /** A run of the driver on the content file (`None` when it cannot be read). Content under 50
      characters once stripped returns at once. An analysis that fails, and everything else
      that raises outside the per-game `try`, reaches the outer handler, which ends the run. */
  function AdaptiveRun(content: Option<string>, replies: seq<Reply>, decode: string -> Option<Json>,
                       isAlnum: char -> bool): Run
  {
    match content
    case None => Run([], [], true, 0)
    case Some(text) =>
      if |Strip(text)| < 50 then Run([], [], false, 0)
      else
        var steps := AnalysisSteps(replies, decode);
        FromAnalysis(RetryFrom(steps, 0, FailedAnalyze, AllAnalyzeFailed), AttemptsFrom(steps, 0), replies, isAlnum)
  }

  /** The rest of a run once the analysis loop has ended with `analysis` after `used` calls. */
  function FromAnalysis(analysis: Result<Json, string>, used: nat, replies: seq<Reply>, isAlnum: char -> bool): Run {
    match analysis
    case Failure(_) => Run([], [], true, used)
    case Success(a) =>
      match GameSpecs(a)
      case None => Run([], [], true, used)
      case Some(specs) => After(used, Games(specs, Drop(replies, used), AdaptivePlay(isAlnum)))
  }

  method GenerateAdaptiveGames(content: Option<string>, replies: seq<Reply>, decode: string -> Option<Json>,
                               isAlnum: char -> bool) returns (run: Run)
    ensures run == AdaptiveRun(content, replies, decode, isAlnum)
  {
    if content.None? {
      return Run([], [], true, 0);
    }
    if |Strip(content.value)| < 50 {
      return Run([], [], false, 0);
    }
    var analysis, used := Analyze(replies, decode);
    if analysis.Failure? {
      return Run([], [], true, used);
    }
    var specs := GameSpecs(analysis.value);
    if specs.None? {
      return Run([], [], true, used);
    }
    var games := RunGames(specs.value, Drop(replies, used), AdaptivePlay(isAlnum));
    run := After(used, games);
  }

  /** What every run of the adaptive driver keeps to: at most 15 games played and 48 calls made
      (3 for the analysis, 3 per game); games numbered from 1 in order, each written or failed;
      every file named by the rule and no two games sharing a file. */
  ghost predicate Promised(run: Run, isAlnum: char -> bool) {
    |run.saved| + |run.failed| <= 15 && run.calls <= MaxRetries + MaxRetries * 15
    && Numbered(run) && AllNamed(run.saved, isAlnum)
    && (forall a, b | 0 <= a < b < |run.saved| :: run.saved[a].filename != run.saved[b].filename)
  }

  /** No call is made for short content, and every run keeps to `Promised`. */
  lemma AdaptiveRunPromises(content: Option<string>, replies: seq<Reply>, decode: string -> Option<Json>,
                            isAlnum: char -> bool)
    ensures content.Some? && |Strip(content.value)| < 50 ==>
      AdaptiveRun(content, replies, decode, isAlnum) == Run([], [], false, 0)
    ensures Promised(AdaptiveRun(content, replies, decode, isAlnum), isAlnum)
  {
    if content.Some? && |Strip(content.value)| >= 50 {
      var steps := AnalysisSteps(replies, decode);
      AnalysisBounded(replies, decode);
      FromAnalysisPromised(RetryFrom(steps, 0, FailedAnalyze, AllAnalyzeFailed), AttemptsFrom(steps, 0), replies, isAlnum);
    }
  }

  /** Every specification up to the first that is not a dict is played, each game written or
      failed in turn, and the run stops exactly at a specification that is not a dict. */
  ghost predicate EachPlayed(run: Run, specs: seq<Json>) {
    var m := |run.saved| + |run.failed|;
    m <= |specs| && (run.stopped <==> m < |specs|) && (run.stopped ==> !specs[m].JObj?)
    && forall k | 0 <= k < m :: specs[k].JObj?
  }

  /** With content to analyse: when the analysis and its fields can be read, the game loop
      plays the specifications by `EachPlayed`; otherwise no game is played and the run ends
      in the outer handler. */
  lemma AdaptiveGamesCounted(content: Option<string>, replies: seq<Reply>, decode: string -> Option<Json>,
                             isAlnum: char -> bool)
    requires content.Some? && |Strip(content.value)| >= 50
    ensures var r := RetryFrom(AnalysisSteps(replies, decode), 0, FailedAnalyze, AllAnalyzeFailed);
      var run := AdaptiveRun(content, replies, decode, isAlnum);
      (r.Success? && GameSpecs(r.value).Some? ==> EachPlayed(run, GameSpecs(r.value).value))
      && (r.Failure? || GameSpecs(r.value).None? ==> run.saved == [] && run.failed == [] && run.stopped)
  {
    var steps := AnalysisSteps(replies, decode);
    FromAnalysisCounted(RetryFrom(steps, 0, FailedAnalyze, AllAnalyzeFailed), AttemptsFrom(steps, 0), replies, isAlnum);
  }

  lemma FromAnalysisCounted(analysis: Result<Json, string>, used: nat, replies: seq<Reply>, isAlnum: char -> bool)
    ensures var run := FromAnalysis(analysis, used, replies, isAlnum);
      (analysis.Success? && GameSpecs(analysis.value).Some? ==> EachPlayed(run, GameSpecs(analysis.value).value))
      && (analysis.Failure? || GameSpecs(analysis.value).None? ==> run.saved == [] && run.failed == [] && run.stopped)
  {
    if analysis.Success? && GameSpecs(analysis.value).Some? {
      var specs := GameSpecs(analysis.value).value;
      PlayerByTheRules(FixedCleaner.FixedCleaned, AdaptiveDefaults, isAlnum);
      RunPromises(specs, Drop(replies, used), AdaptivePlay(isAlnum), isAlnum);
    }
  }

  /** What succeeds is kept: once the analysis yields dict specifications with string titles,
      and the model's every later reply is accepted on its first call, every game is written,
      in order, with its title, its copied fields and its own reply, and none fails. */
  lemma FromAnalysisWritesAll(a: Json, used: nat, replies: seq<Reply>, isAlnum: char -> bool)
    requires GameSpecs(a).Some?
    requires var specs := GameSpecs(a).value; var rest := Drop(replies, used);
      Writable(specs, rest, |specs|) && forall k | 0 <= k < |specs| :: FirstCallAccepted(rest[k], FixedCleaner.FixedCleaned)
    ensures var specs := GameSpecs(a).value; var rest := Drop(replies, used);
      FromAnalysis(Success(a), used, replies, isAlnum)
        == After(used, Run(Records(specs, rest, |specs|, FixedCleaner.FixedCleaned, AdaptiveDefaults, isAlnum), [], false, |specs|))
  {
    var specs := GameSpecs(a).value;
    PlayerWritesAll(specs, Drop(replies, used), FixedCleaner.FixedCleaned, AdaptiveDefaults, isAlnum);
    assert Games(specs, Drop(replies, used), AdaptivePlay(isAlnum))
        == Run(Records(specs, Drop(replies, used), |specs|, FixedCleaner.FixedCleaned, AdaptiveDefaults, isAlnum), [], false, |specs|);
  }

  /** The analysis loop makes at most three calls and returns only a valid analysis. */
  lemma AnalysisBounded(replies: seq<Reply>, decode: string -> Option<Json>)
    ensures AttemptsFrom(AnalysisSteps(replies, decode), 0) <= MaxRetries
    ensures var r := RetryFrom(AnalysisSteps(replies, decode), 0, FailedAnalyze, AllAnalyzeFailed);
      r.Success? ==> ValidateAnalysis(r.value)
  {
    AnalyzedContent(replies, decode);
    RetryOutcome(AnalysisSteps(replies, decode), 0, FailedAnalyze, AllAnalyzeFailed);
  }

  lemma FromAnalysisPromised(analysis: Result<Json, string>, used: nat, replies: seq<Reply>, isAlnum: char -> bool)
    requires used <= MaxRetries
    requires analysis.Success? ==> ValidateAnalysis(analysis.value)
    ensures Promised(FromAnalysis(analysis, used, replies, isAlnum), isAlnum)
  {
    if analysis.Success? && GameSpecs(analysis.value).Some? {
      ValidatedCount(analysis.value);
      AfterPromised(used, GameSpecs(analysis.value).value, Drop(replies, used), isAlnum);
    }
  }

  /** Up to 15 specifications, played after at most three calls. */
  lemma AfterPromised(used: nat, specs: seq<Json>, replies: seq<Reply>, isAlnum: char -> bool)
    requires used <= MaxRetries && |specs| <= 15
    ensures Promised(After(used, Games(specs, replies, AdaptivePlay(isAlnum))), isAlnum)
  {
    PlayerByTheRules(FixedCleaner.FixedCleaned, AdaptiveDefaults, isAlnum);
    RunPromises(specs, replies, AdaptivePlay(isAlnum), isAlnum);
  }

  // ---------------------------------------------------------------------------
  // total_time in _create_enhanced_index

  /** `int(value.split()[0])`: None when the value is not a string (`AttributeError`), is blank
      (`IndexError`) or does not start with an integer token (`ValueError`). */
  function Minutes(value: Json): Option<int> {
    if !value.JStr? then None
    else
      match FirstToken(value.s)
      case None => None
      case Some(token) => ParseInt(token)
  }

  /** A saved game's `estimated_time`, with the index's default "3". */
  function EstimatedTime(g: SavedGame): Json {
    Get(g.extra, "estimated_time", JStr("3"))
  }

  /** The minutes of each game, in order. */
  function GameTimes(games: seq<SavedGame>): (ms: seq<Option<int>>)
    ensures |ms| == |games|
  {
    seq(|games|, k requires 0 <= k < |games| => Minutes(EstimatedTime(games[k])))
  }

  /** A sum of values that may each be missing: None as soon as one is. */
  function SumAll(ms: seq<Option<int>>): Option<int> {
    if ms == [] then Some(0)
    else
      match SumAll(ms[..|ms| - 1])
      case None => None
      case Some(t) =>
        match ms[|ms| - 1]
        case None => None
        case Some(m) => Some(t + m)
  }

  /** `sum(int(game.get('estimated_time', '3').split()[0]) for game in games)`; None when one
      of the games raises. */
  function TotalTime(games: seq<SavedGame>): Option<int> {
    SumAll(GameTimes(games))
  }

  /** The token a scan for the end of a token stops at. */
  lemma {:induction false} TokenEndAt(s: string, i: nat, j: nat)
    requires i <= j <= |s| && (forall k | i <= k < j :: !IsSpace(s[k])) && (j == |s| || IsSpace(s[j]))
    ensures TokenEnd(s, i) == j
    decreases j - i
  {
    if i < j {
      TokenEndAt(s, i + 1, j);
    }
  }

  /** A time written as a number followed by a space and anything ("5 minutes") counts that many
      minutes. */
  lemma MinutesOfDecimal(n: nat, rest: string)
    requires rest == [] || IsSpace(rest[0])
    ensures Minutes(JStr(Decimal(n) + rest)) == Some(n)
  {
    var d := Decimal(n);
    var s := d + rest;
    assert s[0] == d[0] && d[0] in d;
    assert SkipSpace(s, 0) == 0;
    forall k | 0 <= k < |d| ensures !IsSpace(s[k]) {
      assert s[k] == d[k] && d[k] in d;
    }
    TokenEndAt(s, 0, |d|);
    assert s[0..|d|] == d;
    ParseIntRoundTrip(n);
  }

  lemma {:induction false} SumAllDefined(ms: seq<Option<int>>)
    ensures SumAll(ms).Some? <==> forall k | 0 <= k < |ms| :: ms[k].Some?
  {
    if ms != [] {
      var front := ms[..|ms| - 1];
      SumAllDefined(front);
      assert forall k | 0 <= k < |front| :: front[k] == ms[k];
    }
  }

  lemma {:induction false} SumAllUniform(ms: seq<Option<int>>, n: int)
    requires forall k | 0 <= k < |ms| :: ms[k] == Some(n)
    ensures SumAll(ms) == Some(n * |ms|)
  {
    if ms != [] {
      var front := ms[..|ms| - 1];
      assert forall k | 0 <= k < |front| :: front[k] == ms[k];
      SumAllUniform(front, n);
      assert n * |front| + n == n * |ms| by {
        assert |ms| == |front| + 1;
      }
    }
  }

  /** The total is defined exactly when every game's time can be read. */
  lemma TotalTimeDefined(games: seq<SavedGame>)
    ensures TotalTime(games).Some? <==> forall k | 0 <= k < |games| :: Minutes(EstimatedTime(games[k])).Some?
  {
    SumAllDefined(GameTimes(games));
    assert forall k | 0 <= k < |games| :: GameTimes(games)[k] == Minutes(EstimatedTime(games[k]));
  }

  /** When every game takes `n` minutes the total is `n` per game. */
  lemma TotalTimeUniform(games: seq<SavedGame>, n: int)
    requires forall k | 0 <= k < |games| :: Minutes(EstimatedTime(games[k])) == Some(n)
    ensures TotalTime(games) == Some(n * |games|)
  {
    SumAllUniform(GameTimes(games), n);
  }

  /** A sum of two runs of values is defined when both are, and is then their total. */
  lemma {:induction false} SumAllAppend(a: seq<Option<int>>, b: seq<Option<int>>)
    ensures SumAll(a + b).Some? <==> SumAll(a).Some? && SumAll(b).Some?
    ensures SumAll(a + b).Some? ==> SumAll(a + b).value == SumAll(a).value + SumAll(b).value
    decreases |b|
  {
    if b == [] {
      assert a + b == a;
    } else {
      var front := b[..|b| - 1];
      assert (a + b)[..|a + b| - 1] == a + front;
      assert (a + b)[|a + b| - 1] == b[|b| - 1];
      SumAllAppend(a, front);
    }
  }

  /** The total over two lists of games is defined exactly when both totals are, and is then
      their sum. */
  lemma TotalTimeAppend(a: seq<SavedGame>, b: seq<SavedGame>)
    ensures TotalTime(a + b).Some? <==> TotalTime(a).Some? && TotalTime(b).Some?
    ensures TotalTime(a + b).Some? ==> TotalTime(a + b).value == TotalTime(a).value + TotalTime(b).value
  {
    GameTimesAppend(a, b);
    SumAllAppend(GameTimes(a), GameTimes(b));
  }

  lemma GameTimesAppend(a: seq<SavedGame>, b: seq<SavedGame>)
    ensures GameTimes(a + b) == GameTimes(a) + GameTimes(b)
  {
    var x, y, z := GameTimes(a + b), GameTimes(a), GameTimes(b);
    forall k | 0 <= k < |a| ensures x[k] == y[k] {
      assert (a + b)[k] == a[k];
    }
    forall k | 0 <= k < |b| ensures x[|a| + k] == z[k] {
      assert (a + b)[|a| + k] == b[k];
    }
    assert x == y + z;
  }

  /** The record of a specification with no time gets "3 minutes", which counts as 3. */
  lemma DefaultTimeMinutes()
    ensures Minutes(AdaptiveDefaults["estimated_time"]) == Some(3)
  {
    assert Decimal(3) == "3";
    assert "3 minutes" == Decimal(3) + " minutes";
    MinutesOfDecimal(3, " minutes");
  }
}
