# Educational HTML game generator — a Dafny model

This project models four MetaGPT scripts: a shared page cleaner (`fixed_code_cleaner.py`) and
three generators that turn a text into a set of small educational HTML games. The Dafny model
covers the deterministic core those scripts share:

- **Cleaning a model reply into a page.**
  - `FixedCodeCleaner` (module `FixedCleaner`): removes markdown fences, completes a missing
    doctype, a lenient validity check, line formatting, the emergency clean-up, and the
    basic JavaScript brace and parenthesis check.
  - `RobustCodeCleaner` (module `RobustGenerator`): a cleaner that keeps all leading prose when it
    adds the doctype.
  - Multi-agent parsers (module `MultiAgent`): `parse_html_response`, the extraction part of
    `parse_json_response`, and the 2000-character excerpt that `ValidateGame` sends.
- **The bounded retry loops** (module `Generation` and `Adaptive.Analyze`). Each asks the
  language model up to three times and returns the first reply it accepts, or raises one of
  the source's messages.
- **The drivers**, which write one page per game specification (modules `GameLoop`,
  `RobustGenerator`, `Adaptive`): the robust driver `generate_games_from_json`, the adaptive
  driver `generate_adaptive_games` with its content analysis and validation, and the
  multi-agent `_save_games`. All three share the file naming rule `game_NN_<title>.html`
  (module `GameFiles`), followed by `total_time` on the cards the adaptive driver records.

How the model stands in for the parts it cannot run:

- **The language model is a reply script.** A `seq<Reply>` gives what the model answers call
  after call: `Answer(text)`, or `CallFailed` for a call that raised. A call past the end of
  the script fails. The drivers thread one script through all their calls and report how
  many calls they made.
- **`json.loads` is a parameter** `decode: string -> Option<Json>`. `None` stands for a
  `JSONDecodeError`. `Json` models the finite Python values such a decode yields, including
  bool versus int versus float, because the source's comparisons, `len`, `in`, truthiness and
  `:02d` formatting depend on them (module `PyJson`). A float is the binary64 value that
  `json.loads` rounds its literal to (`15.0000000000000001` decodes as `15.0`), and `decode`
  is expected to round it so.
- **`str.isalnum` is a parameter** `isAlnum: char -> bool`.
- **Regular expressions** are written as scanning functions over strings. Each follows
  `re.sub` / `re.search` semantics: leftmost match, non-overlapping, `^` and `$` under
  `re.MULTILINE` judged against the original string. `\s` and `str.strip()` use Python's
  whitespace set.
- **Raised exceptions** become `Failure(message)` with the source's message, or cause a run
  to be reported as stopped.

Two behaviours of the code worth knowing:

- The cleaners' fence removal is not idempotent. Applied to `htmlhtml`, the `^html\s*\n?`
  pass removes one `html` and leaves `html`. A second cleaning turns that into the empty
  string (`FixedCleaner.FixedCleanedNotIdempotent`). So a non-empty reply can come back
  empty.
- The adaptive driver's "content too short" check compares the length of the stripped
  content with 50. It does not count non-whitespace characters.

## Model

| member | source | states |
|---|---|---|
| FixedCleaner.FixedCleaned | MetaGPT/fixed_code_cleaner.py:17-57 | the cleaner as a function: fence removal between two strips, then `Repaired`, then `Formatted`; its properties are stated by FixedCleanedShape, FixedCleanedFencedPage and FixedCleanedNotIdempotent |
| FixedCleaner.Repaired | MetaGPT/fixed_code_cleaner.py:37-48 | the repair step: a page with a doctype is kept; otherwise a doctype line goes before the first `<html…>` tag, or a head or body is wrapped, or the text is kept; stated by RepairedShape and RepairedIsValid |
| FixedCleaner.LenientValid | MetaGPT/fixed_code_cleaner.py:65-85 | `_lenient_html_validation`: at least two of the five lower-case indicators occur; stated by LenientValidExtend, ShellValid and RepairedIsValid |
| FixedCleaner.Formatted | MetaGPT/fixed_code_cleaner.py:117-128 | `_format_html`: the non-blank lines, right-stripped, joined by newlines; stated by FormatHtml, FormattedIdempotent and FormattedLines |
| FixedCleaner.EmergencyCleanup | MetaGPT/fixed_code_cleaner.py:88-114 | `_emergency_cleanup`: strip, remove tagged fences, remove a fence at the very end, wrap a fragment with one of five tags and no doctype; stated by EmergencyCleanupNoFence and EmergencyCleanupWraps |
| FixedCleaner.CleanHtmlResponse | MetaGPT/fixed_code_cleaner.py:17-62 | the method computes the cleaner's function: strip, the five fence patterns in order, strip again, doctype repair, formatting |
| FixedCleaner.FixedCleanedShape | MetaGPT/fixed_code_cleaner.py:37-55 | a text that looks like HTML comes out starting with a doctype (and with the exact line `<!DOCTYPE html>` when one was added); anything else comes out only formatted |
| FixedCleaner.RepairedShape | MetaGPT/fixed_code_cleaner.py:37-48 | the repair keeps a text with a doctype or without HTML; otherwise it adds the doctype line before the first `<html…>` tag, dropping what precedes that tag (no earlier position starts one), or wraps the whole text in `<html lang="en">` … `</html>` when there is only a head or body |
| FixedCleaner.FindHtmlTag | MetaGPT/fixed_code_cleaner.py:40 | finds the first position at which an `<html` tag closed by `>` starts, or proves there is none |
| FixedCleaner.RepairedIsValid | MetaGPT/fixed_code_cleaner.py:37-51 | whenever the repair adds a doctype, the result passes the lenient validation |
| FixedCleaner.LenientValidExtend | MetaGPT/fixed_code_cleaner.py:65-85 | at least two of the five indicators present stays true when text is added around the page |
| FixedCleaner.ShellValid | MetaGPT/fixed_code_cleaner.py:65-85 | the emergency page skeleton always passes the lenient validation |
| FixedCleaner.AddedDoctypeKept | MetaGPT/fixed_code_cleaner.py:43-55 | formatting keeps the added `<!DOCTYPE html>` line at the start of the page |
| FixedCleaner.FormattedKeepsDoctype | MetaGPT/fixed_code_cleaner.py:117-128 | formatting keeps a leading doctype |
| FixedCleaner.FormatHtml | MetaGPT/fixed_code_cleaner.py:117-128 | the loop over lines keeps exactly the lines that are not blank, right-stripped and joined by newlines |
| FixedCleaner.FormattedIdempotent | MetaGPT/fixed_code_cleaner.py:117-128 | formatting a formatted page changes nothing |
| FixedCleaner.FormattedLines | MetaGPT/fixed_code_cleaner.py:123-128 | every line of a formatted page is non-empty and ends in a non-space character |
| FixedCleaner.FixedCleanedFencedPage | MetaGPT/fixed_code_cleaner.py:17-57 | a page with a doctype sent inside an html code fence comes back as the page, formatted (when none of its lines starts with `html`) |
| FixedCleaner.FixedCleanedCutsHtmlSelector | MetaGPT/fixed_code_cleaner.py:29-33 | on a concrete page that already starts with a doctype, the `^html\s*\n?` pass deletes the word of a CSS `html {` selector line, leaving `<!DOCTYPE html>\n{\n}` |
| FixedCleaner.DoubledHtmlPass | MetaGPT/fixed_code_cleaner.py:29-33 | the `^html\s*\n?` pass removes one `html` of `htmlhtml` |
| FixedCleaner.PlainHtmlWord | MetaGPT/fixed_code_cleaner.py:29-55 | the word `html` is not HTML and survives formatting, but the `^html` pass erases it |
| FixedCleaner.FixedCleanedNotIdempotent | MetaGPT/fixed_code_cleaner.py:17-57 | cleaning `htmlhtml` gives `html`, and cleaning that gives the empty string |
| FixedCleaner.EmptyCleaned | MetaGPT/fixed_code_cleaner.py:37-57 | the empty text is repaired and formatted to the empty text |
| FixedCleaner.EmergencyCleanupNoFence | MetaGPT/fixed_code_cleaner.py:88-97 | after the emergency clean-up no three backticks remain, and its second pattern never finds anything to remove |
| FixedCleaner.EmergencyCleanupWraps | MetaGPT/fixed_code_cleaner.py:99-114 | a fragment with one of the five tags and no doctype is placed in the page skeleton, which passes the lenient validation; any other text is returned as it stands after the fence removal, unwrapped |
| FixedCleaner.ElementsUnclosed | MetaGPT/fixed_code_cleaner.py:137 | no element body found by the non-greedy element pattern contains its closing tag |
| FixedCleaner.ScriptBlocksUnclosed | MetaGPT/fixed_code_cleaner.py:137 | no script block contains `</script>` in any letter case |
| FixedCleaner.BlockIssues | MetaGPT/fixed_code_cleaner.py:139-150 | a block gets at most two issues, braces before parentheses, and exactly those whose counts differ by more than two |
| FixedCleaner.IssuesSound | MetaGPT/fixed_code_cleaner.py:139-150 | every reported issue names a block, numbered from 1, whose counts do differ by more than two |
| FixedCleaner.IssuesComplete | MetaGPT/fixed_code_cleaner.py:139-150 | every mismatch in every block is reported |
| FixedCleaner.IssuesOrdered | MetaGPT/fixed_code_cleaner.py:139-150 | issues are reported by block order, braces before parentheses within a block |
| FixedCleaner.ValidateJavascriptBasics | MetaGPT/fixed_code_cleaner.py:131-156 | the method returns the messages of exactly the issues of the script blocks, in order |
| Fences.StripMarkdown | MetaGPT/fixed_code_cleaner.py:32-33 | the pattern loop applies each substitution in order, and never lengthens the text |
| Fences.HtmlPatternsOnBlock | MetaGPT/fixed_code_cleaner.py:24-33 | the five patterns reduce a fenced html block to its body and a newline |
| Fences.JsonPatternsOnBlock | MetaGPT/adaptive_game_generator.py:113-121 | the four patterns reduce a fenced json block to its body and a newline |
| Fences.NoBacktickIdentity | MetaGPT/fixed_code_cleaner.py:25-28 | a fence pattern changes nothing in a text without a backtick |
| Fences.HtmlPatternsWithoutFence | MetaGPT/fixed_code_cleaner.py:24-33 | on a text without backticks only the `^html` pass acts |
| Fences.TaggedFenceSubNoTriple | MetaGPT/fixed_code_cleaner.py:96 | after removing every fence with a language tag no three backticks remain |
| Text.Strip | MetaGPT/fixed_code_cleaner.py:21 | `str.strip` keeps no whitespace at either end, and gives the empty string exactly for all-whitespace input |
| Text.StripIdempotent | MetaGPT/fixed_code_cleaner.py:35 | stripping twice is stripping once |
| Text.SplitJoin | MetaGPT/fixed_code_cleaner.py:120-128 | joining lines without newlines and splitting at newlines gives the lines back |
| Text.JoinSplit | MetaGPT/fixed_code_cleaner.py:120-128 | splitting and joining again gives the text back |
| Text.Format2d | MetaGPT/robust_game_generator.py:190 | `:02d` of a number from 0 to 99 is two digits, and the digits of any non-negative number read back as that number |
| Text.ParseIntRoundTrip | MetaGPT/adaptive_game_generator.py:331 | `int()` of the decimal numeral of n is n |
| Pages.Shell | MetaGPT/robust_game_generator.py:48-58 | the skeleton is its head, the fragment, then its tail, each at its place |
| RobustGenerator.Completed | MetaGPT/robust_game_generator.py:42-60 | the completion step: keep a page with a doctype, put a doctype line before a text that mentions `<html`, wrap a text with one of the four tags, else keep it; stated by CompletedShape, CompletedValid and CompletedVersusRepaired |
| RobustGenerator.CleanHtmlResponse | MetaGPT/robust_game_generator.py:23-65 | the method computes the robust cleaner: the same fence removal, then the completion step |
| RobustGenerator.CompletedShape | MetaGPT/robust_game_generator.py:42-60 | the result has a doctype exactly when the text had one or mentions `<html` or one of the four tags; the text itself survives whole, at a known place |
| RobustGenerator.CompletedValid | MetaGPT/robust_game_generator.py:42-58 | whenever a doctype is added the page passes the lenient validation |
| RobustGenerator.CompletedVersusRepaired | MetaGPT/robust_game_generator.py:43-45 | the robust and fixed cleaners agree on a page with a doctype; where the fixed one finds an `<html…>` tag, it drops exactly the characters before it that the robust one keeps |
| RobustGenerator.RobustFencedPage | MetaGPT/robust_game_generator.py:23-60 | a page with a doctype inside an html code fence comes back exactly |
| Generation.GenerateWithRetries | MetaGPT/robust_game_generator.py:115-147 | the retry loop returns what the specification of three attempts gives, after that many calls, never more than three |
| Generation.GeneratedPage | MetaGPT/robust_game_generator.py:115-147 | a page is returned exactly when some call gives an accepted reply (at least 100 characters stripped, and 200 cleaned unless it is the third), and then it is the first such reply cleaned, after that many calls; otherwise the error is "Failed to generate game after 3 attempts", after three calls |
| Generation.RetryOutcome | MetaGPT/adaptive_game_generator.py:84-106 | a retry loop returns the value of its first returning attempt; with none it raises the in-loop message when the last attempt raised, the after-loop message when it fell through |
| Generation.FirstDone | MetaGPT/adaptive_game_generator.py:85-96 | the first attempt that returns, with none before it |
| RobustGenerator.GenerateGame | MetaGPT/robust_game_generator.py:115-147 | the robust generator's page is the first accepted reply, robustly cleaned, or the failure message after three calls |
| GameFiles.KeepTitleChars | MetaGPT/robust_game_generator.py:189 | the filter keeps a character of the title exactly when it is alphanumeric, a space, a hyphen or an underscore, and only such characters |
| GameFiles.KeepTitleCharsAppend | MetaGPT/robust_game_generator.py:189 | the filter works piece by piece: filtering `a + b` is filtering `a` then `b`, so order and multiplicity are kept |
| GameFiles.KeepTitleChar | MetaGPT/robust_game_generator.py:189 | a one-character title keeps its character exactly when `isalnum()` holds or it is one of `' '`, `'-'`, `'_'` |
| GameFiles.KeepTitleCharsAll | MetaGPT/robust_game_generator.py:189 | a title made only of kept characters is kept whole |
| GameFiles.SafeTitle | MetaGPT/robust_game_generator.py:189-190 | the safe title has no space and only alphanumerics, hyphens and underscores |
| GameFiles.SafeTitleOfKept | MetaGPT/robust_game_generator.py:189-190 | a title of kept characters with no whitespace at either end keeps its length, and each space becomes `_` while every other character stays |
| GameFiles.SafeTitleEmpty | MetaGPT/robust_game_generator.py:189-190 | the safe title is empty exactly when every character the title keeps is whitespace |
| GameFiles.FileName | MetaGPT/robust_game_generator.py:190 | every file name starts with `game_` and ends with `.html` |
| GameFiles.FileNameNumberInjective | MetaGPT/robust_game_generator.py:190 | two file names that are equal have the same game number |
| GameFiles.DistinctFileNames | MetaGPT/robust_game_generator.py:181-190 | games numbered in increasing order never share a file |
| GameLoop.Extra | MetaGPT/adaptive_game_generator.py:299-308 | the copied fields are exactly the defaulted keys, each the spec's value or its default |
| GameLoop.PlayGame | MetaGPT/robust_game_generator.py:184-207 | one game of the per-game `try`: generate, name by the rule, record with defaults, or fail; stated by PlayGameWritten and PlayGameCases |
| GameLoop.Games | MetaGPT/robust_game_generator.py:181-207 | the loop over the specifications, stopping at one that is not a dict; stated by RunPromises, GamesCounted and StoppedStays |
| GameLoop.PlayGameWritten | MetaGPT/robust_game_generator.py:181-207 | one game makes at most three calls; it stops the run exactly when its spec is not a dict; a written game carries its number, a file name by the rule and the cleaned page of an accepted reply |
| GameLoop.Record | MetaGPT/robust_game_generator.py:188-202 | the record of a written game holds its number, its title, the page, a file name by the rule, and every defaulted field with the spec's value or its default |
| GameLoop.PlayGameCases | MetaGPT/robust_game_generator.py:184-207 | a dict spec is written exactly when some call's reply is accepted and its title is a string, and otherwise fails; the written record holds that title, the copied fields and the first accepted reply cleaned, after one call per attempt up to that reply |
| GameLoop.PlayerWritesAccepted | MetaGPT/robust_game_generator.py:184-202 | the drivers' per-game step writes a dict spec with a string title, with one call, whenever the first reply is accepted |
| GameLoop.RecordsAt | MetaGPT/robust_game_generator.py:181-202 | record `k` is game `k + 1`, from spec `k` and reply `k` |
| GameLoop.WrittenRun | MetaGPT/robust_game_generator.py:179-202 | a run whose every game is written with one call keeps exactly those records, in order, and fails none |
| GameLoop.AllAcceptedWritten | MetaGPT/robust_game_generator.py:179-202 | with dict specs with string titles and every reply accepted on its first call, the loop writes every game, one call each, with the record of its own spec and reply |
| GameLoop.PlayerWritesAll | MetaGPT/robust_game_generator.py:179-202 | the same for the drivers' own per-game step, over the whole list |
| GameLoop.PlayOne | MetaGPT/robust_game_generator.py:184-207 | the method for one game computes its specification |
| GameLoop.RunGames | MetaGPT/robust_game_generator.py:181-207 | the loop over specifications computes the run's specification |
| GameLoop.StoppedStays | MetaGPT/robust_game_generator.py:181-182 | once the run stops, later specifications change nothing |
| GameLoop.GamesCounted | MetaGPT/robust_game_generator.py:181-207 | up to the first spec that is not a dict each game is written or failed, with at most three calls each |
| GameLoop.GamesNumbered | MetaGPT/robust_game_generator.py:181-202 | games are numbered from 1 in order, and written games are named by the rule |
| GameLoop.RunPromises | MetaGPT/robust_game_generator.py:181-207 | a whole run is counted, numbered, named by the rule, and its written files are distinct |
| RobustGenerator.RobustRun | MetaGPT/robust_game_generator.py:158-216 | a whole run of `generate_games_from_json` on the loaded file; stated by RobustRunPromises |
| RobustGenerator.GenerateGamesFromJson | MetaGPT/robust_game_generator.py:158-216 | the driver computes its run: a file that is not an object stops it, an empty `mini_games` returns at once, a truthy non-list stops it, a list runs the game loop |
| RobustGenerator.RobustRunPromises | MetaGPT/robust_game_generator.py:158-216 | with no object nothing happens; with a list the run is counted, numbered, named by the rule and without two games in one file |
| RobustGenerator.RobustRunWritesAll | MetaGPT/robust_game_generator.py:168-202 | with a list of dict specs with string titles and every reply accepted on its first call, the driver writes every game in order with its title, its `concept` and its own reply, and fails none |
| RobustGenerator.RobustRunOfList | MetaGPT/robust_game_generator.py:168-181 | with a `mini_games` list, empty or not, the run is the loop over it |
| Adaptive.CleanJson | MetaGPT/adaptive_game_generator.py:108-123 | `_clean_json_response`: the four patterns between two strips; its result is trimmed |
| Adaptive.CleanJsonResponse | MetaGPT/adaptive_game_generator.py:108-123 | the method computes the JSON cleaner, whose result is trimmed |
| Adaptive.CleanJsonFenced | MetaGPT/adaptive_game_generator.py:108-123 | a trimmed body inside a json fence comes back exactly |
| Adaptive.CleanJsonPlain | MetaGPT/adaptive_game_generator.py:108-123 | a trimmed text without backticks is kept |
| Adaptive.PyIn | MetaGPT/adaptive_game_generator.py:129 | `in` is defined exactly on dicts, lists and strings |
| Adaptive.PySub | MetaGPT/adaptive_game_generator.py:132 | a subscript by a string key succeeds exactly on a dict holding the key, giving its value |
| Adaptive.PyNumber | MetaGPT/adaptive_game_generator.py:137 | the chained comparison is defined exactly on bools, ints and floats |
| Adaptive.Validation | MetaGPT/adaptive_game_generator.py:127-144 | the `try` body of `_validate_analysis` step by step, with each `in`, subscript, comparison and `len` raising as in Python; stated by ValidateAnalysisIff |
| Adaptive.ValidateAnalysis | MetaGPT/adaptive_game_generator.py:125-147 | `_validate_analysis`: true exactly when the `try` body returns true, an exception counting as false; stated by ValidateAnalysisIff and ValidatedCount |
| Adaptive.ValidateAnalysisIff | MetaGPT/adaptive_game_generator.py:125-147 | an analysis is valid exactly when it is a dict with both keys, its count is a number from 3 to 15, and its specifications have a length equal to the count |
| Adaptive.ValidatedCount | MetaGPT/adaptive_game_generator.py:136-144 | a valid analysis has between 3 and 15 specifications |
| Adaptive.Analyze | MetaGPT/adaptive_game_generator.py:84-106 | the analysis loop returns what its three attempts specify, after that many calls |
| Adaptive.AnalyzedContent | MetaGPT/adaptive_game_generator.py:84-106 | an analysis is returned exactly when some call is answered with JSON that decodes and validates; it is the first such, valid, after that many calls |
| Adaptive.AnalysisFailure | MetaGPT/adaptive_game_generator.py:100-106 | a failure comes after three calls, with "Failed to analyze content after 3 attempts" exactly when the third attempt raised and "All content analysis attempts failed" exactly when it did not |
| Adaptive.EnhancedGenerate | MetaGPT/adaptive_game_generator.py:210-239 | the enhanced generator returns the first accepted reply cleaned by the fixed cleaner, or the failure message after three calls |
| Adaptive.AdaptiveRun | MetaGPT/adaptive_game_generator.py:250-326 | a whole run of `generate_adaptive_games`; stated by AdaptiveRunPromises and AdaptiveGamesCounted |
| Adaptive.GenerateAdaptiveGames | MetaGPT/adaptive_game_generator.py:250-326 | the driver computes its run: short content returns, a failed analysis or a field it cannot read stops it, otherwise the game loop runs over the specifications on the replies left |
| Adaptive.AdaptiveRunPromises | MetaGPT/adaptive_game_generator.py:250-326 | short content does nothing; every run writes or fails at most 15 games, makes at most 48 calls, numbers games in order, names them by the rule and never writes two games to one file |
| Adaptive.AdaptiveGamesCounted | MetaGPT/adaptive_game_generator.py:284-313 | when the analysis and its fields can be read, every specification up to the first that is not a dict is played, each game written or failed in turn, and the run stops exactly there; otherwise no game is played and the run ends |
| Adaptive.FromAnalysisCounted | MetaGPT/adaptive_game_generator.py:268-313 | the same, for the part of the run after the analysis loop |
| Adaptive.FromAnalysisWritesAll | MetaGPT/adaptive_game_generator.py:284-310 | after an analysis with dict specs with string titles, and with every later reply accepted on its first call, every game is written in order with its title, its four copied fields and its own reply, and none fails |
| Adaptive.AnalysisBounded | MetaGPT/adaptive_game_generator.py:84-106 | the analysis makes at most three calls and returns only a valid analysis |
| Adaptive.TotalTime | MetaGPT/adaptive_game_generator.py:331 | `total_time`: the sum of each game's first token of `estimated_time` as an integer, None when one raises; stated by TotalTimeDefined, TotalTimeUniform and TotalTimeAppend |
| Adaptive.TotalTimeDefined | MetaGPT/adaptive_game_generator.py:331 | the total time is defined exactly when every game's estimated time starts with an integer |
| Adaptive.TotalTimeUniform | MetaGPT/adaptive_game_generator.py:331 | when every game takes n minutes the total is n times the number of games |
| Adaptive.MinutesOfDecimal | MetaGPT/adaptive_game_generator.py:331 | an estimate written as a number and then a space or nothing counts that number of minutes |
| Adaptive.DefaultTimeMinutes | MetaGPT/adaptive_game_generator.py:306 | the default estimate "3 minutes" counts three minutes |
| Adaptive.SumAllDefined | MetaGPT/adaptive_game_generator.py:331 | the sum is defined exactly when every term is |
| Adaptive.SumAllUniform | MetaGPT/adaptive_game_generator.py:331 | the sum of m equal terms n is n*m |
| Adaptive.SumAllAppend | MetaGPT/adaptive_game_generator.py:331 | the sum over two runs of terms is defined exactly when both sums are, and is then their total |
| Adaptive.TotalTimeAppend | MetaGPT/adaptive_game_generator.py:331 | the total time of two lists of games is defined exactly when both totals are, and is then their sum |
| Adaptive.GameTimesAppend | MetaGPT/adaptive_game_generator.py:331 | the minutes of two lists of games are those of the first followed by those of the second |
| MultiAgent.FencedBlock | MetaGPT/multi_agent_game_system.py:44-45 | the group of the fenced-block search: from the first opening fence in any case, past whitespace, to the first close; stated by FencedBlockOf, BlockHasNoFence and NoBacktickNoBlock |
| MultiAgent.CloseFrom | MetaGPT/multi_agent_game_system.py:44 | the first place at which the non-greedy body can end, `\n?` and three backticks |
| MultiAgent.FencedBlockOf | MetaGPT/multi_agent_game_system.py:44-47 | a body inside a fence whose tag is `html` or `json` in any letter case, after prose without backticks, is the block found, whatever follows it |
| MultiAgent.OpeningOfTag | MetaGPT/multi_agent_game_system.py:44-45 | a fence opened with the tag in any letter case matches the opening literal under `re.IGNORECASE` |
| MultiAgent.TagOfItself | MetaGPT/multi_agent_game_system.py:44-45 | the lower-case tags `html` and `json` are among the tags accepted |
| MultiAgent.NoBacktickNoBlock | MetaGPT/multi_agent_game_system.py:44-46 | a reply without backticks has no fenced block |
| MultiAgent.ParseHtmlResponse | MetaGPT/multi_agent_game_system.py:41-53 | a fenced block or a stripped reply that starts as a page gives a trimmed result; anything else is returned unchanged |
| MultiAgent.ParseHtmlFenced | MetaGPT/multi_agent_game_system.py:44-47 | a trimmed page in an html fence, its tag in any letter case, is returned exactly |
| MultiAgent.ParseHtmlPlain | MetaGPT/multi_agent_game_system.py:49-51 | a page without fences is returned stripped |
| MultiAgent.ParseHtmlFixpoint | MetaGPT/multi_agent_game_system.py:41-53 | parsing the page of a fenced block again changes nothing |
| MultiAgent.JsonCandidate | MetaGPT/multi_agent_game_system.py:24-32 | the text handed to `json.loads`: the json block, else the first brace span, else the reply; stated by ParseJsonFenced, JsonCandidateBraces and JsonCandidateWhole |
| MultiAgent.BraceSpan | MetaGPT/multi_agent_game_system.py:30-31 | the fallback match runs from a `{` to the first `}` after it |
| MultiAgent.ParseJsonResponse | MetaGPT/multi_agent_game_system.py:21-38 | when the candidate text decodes, the decoded value is returned |
| MultiAgent.ParseJsonFenced | MetaGPT/multi_agent_game_system.py:24-35 | a body in a json fence, its tag in any letter case, is the candidate and its decoding is the result |
| MultiAgent.JsonCandidateBraces | MetaGPT/multi_agent_game_system.py:29-32 | without a fence the candidate is the first `{…}` without `}` inside |
| MultiAgent.JsonCandidateWhole | MetaGPT/multi_agent_game_system.py:32 | without a fence or brace pair the whole reply is the candidate |
| MultiAgent.ParseJsonFailed | MetaGPT/multi_agent_game_system.py:36-38 | when decoding fails the result is exactly the dict with "error" and "raw_response" |
| MultiAgent.ValidationExcerpt | MetaGPT/multi_agent_game_system.py:215 | the excerpt is the page's prefix of at most 2000 characters: the whole page when shorter, exactly 2000 when longer |
| MultiAgent.GameNumber | MetaGPT/multi_agent_game_system.py:413 | `:02d` accepts the game number exactly when it is an int or a bool |
| MultiAgent.SaveItem | MetaGPT/multi_agent_game_system.py:405-423 | the step of one result: skip, save a record or raise; stated by SaveItemCases |
| MultiAgent.SaveItemCases | MetaGPT/multi_agent_game_system.py:405-423 | a result is skipped exactly when its validation is a dict that fails; saved exactly when it passes with readable fields; a saved game is named by the rule, numbered 1 and titled "Game 1" by default, with `""` as html by default, and carries the validation score (default 0) |
| MultiAgent.SaveOne | MetaGPT/multi_agent_game_system.py:405-423 | the method for one result computes its step |
| MultiAgent.SaveAll | MetaGPT/multi_agent_game_system.py:405-423 | the loop computes the fold of the steps over all results |
| MultiAgent.SaveGames | MetaGPT/multi_agent_game_system.py:397-431 | the method computes the whole save: a decode failure stops it, a list runs the loop, a dict or string iterates keys or characters, which cannot be read |
| MultiAgent.AbortedStays | MetaGPT/multi_agent_game_system.py:405-431 | once a result raises, the rest change nothing |
| MultiAgent.SaveUpToKept | MetaGPT/multi_agent_game_system.py:405-431 | the save aborts exactly when some result raises; it writes the kept games of every result before the first that raises, or of all results |
| MultiAgent.KeptByTheRules | MetaGPT/multi_agent_game_system.py:409-423 | every kept game is named by the rule and comes from a result that passes |
| MultiAgent.SaveGamesPromises | MetaGPT/multi_agent_game_system.py:397-431 | a decode failure writes nothing; every written game is named by the rule; for a list, the save completes exactly when no result raises, then writes every kept game, and each written game comes from a passing result |

## Left out

- Case-insensitive matching folds ASCII letters only; Python's `re.IGNORECASE` and `str.lower` fold all of Unicode.
- `str.isalnum` is a parameter, not Python's Unicode table.
- `json.loads` and `json.load` are a parameter; JSON syntax and the reading of the file are not modelled.
- `int()` accepts only ASCII digits (with `_` separators and a sign) in the model; Python also accepts other Unicode decimal digits.
- The prompts sent to the model, `asyncio.sleep`, the `logger` calls and the validation warnings produce no value and are not modelled.
- The language model calls become the reply script; the content of a reply is arbitrary.
- File I/O is not modelled: reading the content file, creating the output directory, writing pages, and the empty file that an error within `f.write` would leave behind.
- GameLoop.PlayGame, GameLoop.PlayGameCases, GameLoop.PlayGameWritten: a title that is a list or dict is treated as a failure of that game. Python would iterate it (its keys or elements) when building the safe title, and then fail at the string-only steps or not at all.
- MultiAgent.SaveItem, MultiAgent.SaveItemCases: a title that is not a string aborts the save in the same way, for the same reason.
- The non-finite floats `NaN`, `Infinity` and `-Infinity`, which `json.loads` accepts, have no `Json` value. `_validate_analysis` would reject them as a count, since `3 <= nan` is false and infinity is above 15. But `bool(nan)` is true, so a `passes_validation` of `NaN` would let a game be saved; the model cannot express that input.
- The `except` branches of the two `clean_html_response` methods are unreachable on a string input and are not modelled as taken; the emergency clean-up is modelled as a function of its own.
- The constant `"status": "success"` field of a game card is not modelled.
- The index pages, the analysis report and `success_rate` are not modelled. Of the index, only `total_time` is modelled, as a separate function. The model does not capture that a `total_time` failure, reached after the games are written, ends the run.
- `_create_enhanced_fallback` does not exist in the source. The call raises `AttributeError`, and the model takes that path as a failed final attempt.
- The `Team`/`Role` machinery of the multi-agent system, which produces the results JSON that `_save_games` reads, is not modelled; the JSON is an input.
- `ValidateGame` is modelled only as the 2000-character excerpt; the prompt formatting and the call are not.
- `patch_code_cleaner` and the `__main__` blocks are not modelled.
