/** The per-game loop the robust and the adaptive generators share: for each game
    specification, in order and numbered from 1, generate a page, name its file by the rule
    and keep a record of it; a game that fails is logged and the loop goes on. */
module GameLoop {
  import opened Wrappers
  import opened Text
  import opened PyJson
  import opened GameFiles
  import opened Generation

  /** How one game ends: its page written, the game failed (and the loop goes on), or the
      whole run stopped by an exception raised outside the per-game `try`. */
  datatype GameOutcome = Written(game: SavedGame) | GameFailed | Stopped

  datatype Played = Played(outcome: GameOutcome, calls: nat)

  /** What a run comes to: the games written, in order; the numbers of the games that failed;
      whether the run was stopped; and how many calls it made to the model. */
  datatype Run = Run(saved: seq<SavedGame>, failed: seq<nat>, stopped: bool, calls: nat)

  /** `f'Game {i}'`, the title of a specification without one. */
  function DefaultTitle(number: nat): string {
    "Game " + IntToString(number)
  }

  /** `game_spec.get('title', f'Game {i}')`. */
  function SpecTitle(number: nat, fields: map<string, Json>): Json {
    Get(fields, "title", JStr(DefaultTitle(number)))
  }

  /** The fields a driver copies from a specification into its record, each with its default. */
  function Extra(fields: map<string, Json>, defaults: map<string, Json>): (extra: map<string, Json>)
    ensures extra.Keys == defaults.Keys
    ensures forall k <- defaults :: extra[k] == Get(fields, k, defaults[k])
  {
    map k | k in defaults :: Get(fields, k, defaults[k])
  }

  /** The record kept of game `number` with its title and page: the file is named by the rule,
      and the copied fields take their defaults. */
  function Record(number: nat, title: string, html: string, fields: map<string, Json>,
                  defaults: map<string, Json>, isAlnum: char -> bool): (g: SavedGame)
    ensures g.number == number && g.title == title && g.html == html && NamedByRule(g, isAlnum)
    ensures g.extra.Keys == defaults.Keys && forall k <- defaults :: g.extra[k] == Get(fields, k, defaults[k])
  {
    SavedGame(number, title, FileName(number, SafeTitle(title, isAlnum)), html, Extra(fields, defaults))
  }

  /** Game `number`. The progress line calls `game_spec.get` before the per-game `try`, so a
      specification that is not a dict stops the run. Inside the `try`, a generation that
      raises, or a title that is not a string, fails this game alone. */
  function PlayGame(number: nat, spec: Json, replies: seq<Reply>, clean: string -> string,
                    defaults: map<string, Json>, isAlnum: char -> bool): Played
  {
    if !spec.JObj? then Played(Stopped, 0)
    else
      var steps := GenSteps(replies, clean);
      var calls := AttemptsFrom(steps, 0);
      match RetryFrom(steps, 0, FailedGenerate, AllGenerateFailed)
      case Failure(_) => Played(GameFailed, calls)
      case Success(html) =>
        var title := SpecTitle(number, spec.fields);
        if !title.JStr? then Played(GameFailed, calls)
        else Played(Written(Record(number, title.s, html, spec.fields, defaults, isAlnum)), calls)
  }

  /** The per-game step of a driver: game `number`, from its specification, with the replies
      still to come. */
  function Player(clean: string -> string, defaults: map<string, Json>, isAlnum: char -> bool)
    : (nat, Json, seq<Reply>) -> Played
  {
    (number: nat, spec: Json, replies: seq<Reply>) => PlayGame(number, spec, replies, clean, defaults, isAlnum)
  }

  /** Where the loop stands: the run so far and the replies still to come. */
  datatype Progress = Progress(run: Run, rest: seq<Reply>)

  /** One more game of the loop, game `number` from specification `spec`; once the run has
      stopped nothing more happens. */
  function Advance(pr: Progress, number: nat, spec: Json, play: (nat, Json, seq<Reply>) -> Played): Progress
  {
    if pr.run.stopped then pr
    else
      var r := pr.run;
      var p := play(number, spec, pr.rest);
      match p.outcome
      case Stopped => Progress(Run(r.saved, r.failed, true, r.calls), pr.rest)
      case GameFailed => Progress(Run(r.saved, r.failed + [number], false, r.calls + p.calls), Drop(pr.rest, p.calls))
      case Written(g) => Progress(Run(r.saved + [g], r.failed, false, r.calls + p.calls), Drop(pr.rest, p.calls))
  }

  /** The loop after the first `n` specifications, games 1 to `n`. */
  function GamesUpTo(specs: seq<Json>, n: nat, replies: seq<Reply>, play: (nat, Json, seq<Reply>) -> Played): Progress
    requires n <= |specs|
  {
    if n == 0 then Progress(Run([], [], false, 0), replies)
    else Advance(GamesUpTo(specs, n - 1, replies, play), n, specs[n - 1], play)
  }

  /** The whole loop. */
  function Games(specs: seq<Json>, replies: seq<Reply>, play: (nat, Json, seq<Reply>) -> Played): Run {
    GamesUpTo(specs, |specs|, replies, play).run
  }

  /** A stopped run stays as it is. */
  lemma {:induction false} StoppedStays(specs: seq<Json>, i: nat, n: nat, replies: seq<Reply>,
                                        play: (nat, Json, seq<Reply>) -> Played)
    requires i <= n <= |specs| && GamesUpTo(specs, i, replies, play).run.stopped
    ensures GamesUpTo(specs, n, replies, play) == GamesUpTo(specs, i, replies, play)
    decreases n - i
  {
    if i < n {
      StoppedStays(specs, i, n - 1, replies, play);
    }
  }

  /** One game's `try` block: generate its page, then name its file by the rule. */
  method PlayOne(number: nat, spec: Json, replies: seq<Reply>, clean: string -> string,
                 defaults: map<string, Json>, isAlnum: char -> bool) returns (p: Played)
    requires spec.JObj?
    ensures p == PlayGame(number, spec, replies, clean, defaults, isAlnum)
  {
    var result, used := GenerateWithRetries(replies, clean);
    match result {
      case Failure(_) =>
        p := Played(GameFailed, used);
      case Success(html) =>
        var title := SpecTitle(number, spec.fields);
        if title.JStr? {
          var filename := FileName(number, SafeTitle(title.s, isAlnum));
          p := Played(Written(SavedGame(number, title.s, filename, html, Extra(spec.fields, defaults))), used);
        } else {
          p := Played(GameFailed, used);
        }
    }
  }

  /** The driver loop, `for i, game_spec in enumerate(specs, 1)`, with `play` as each game's step. */
  method RunGames(specs: seq<Json>, replies: seq<Reply>, play: (nat, Json, seq<Reply>) -> Played)
    returns (run: Run)
    ensures run == Games(specs, replies, play)
  {
    var saved: seq<SavedGame> := [];
    var failed: seq<nat> := [];
    var calls: nat := 0;
    var rest := replies;
    var i: nat := 0;
    while i < |specs|
      invariant i <= |specs|
      invariant GamesUpTo(specs, i, replies, play) == Progress(Run(saved, failed, false, calls), rest)
      decreases |specs| - i
    {
      var number := i + 1;
      var p := play(number, specs[i], rest);
      match p.outcome {
        case Stopped =>
          StoppedStays(specs, i + 1, |specs|, replies, play);
          return Run(saved, failed, true, calls);
        case Written(g) =>
          saved := saved + [g];
        case GameFailed =>
          failed := failed + [number];
      }
      calls := calls + p.calls;
      rest := Drop(rest, p.calls);
      i := i + 1;
    }
    run := Run(saved, failed, false, calls);
  }

  // ---------------------------------------------------------------------------
  // What a run promises

  function Numbers(games: seq<SavedGame>): (ns: seq<int>)
    ensures |ns| == |games| && forall k | 0 <= k < |games| :: ns[k] == games[k].number
  {
    if games == [] then [] else Numbers(games[..|games| - 1]) + [games[|games| - 1].number]
  }

  /** Strictly increasing numbers. */
  predicate Ascending(ns: seq<int>) {
    forall a, b | 0 <= a < b < |ns| :: ns[a] < ns[b]
  }

  /** A written game carries its number, is named by the rule, and holds the page the
      generator returned for a reply it accepted; a game makes at most three calls. */
  lemma PlayGameWritten(number: nat, spec: Json, replies: seq<Reply>, clean: string -> string,
                        defaults: map<string, Json>, isAlnum: char -> bool)
    ensures var p := PlayGame(number, spec, replies, clean, defaults, isAlnum);
      p.calls <= MaxRetries
      && (p.outcome.Stopped? <==> !spec.JObj?)
      && (p.outcome.Written? ==>
            p.outcome.game.number == number && NamedByRule(p.outcome.game, isAlnum)
            && exists k | 0 <= k < MaxRetries ::
                 Accepts(replies, clean, k) && p.outcome.game.html == clean(ReplyAt(replies, k).text))
  {
    GeneratedPage(replies, clean);
    var steps := GenSteps(replies, clean);
    RetryOutcome(steps, 0, FailedGenerate, AllGenerateFailed);
  }

  /** A dict specification is written exactly when some call's reply is accepted and its title
      is a string, and otherwise fails; a written game holds that title, the copied fields and
      the first accepted reply cleaned, after one call per attempt made. */
  lemma PlayGameCases(number: nat, spec: Json, replies: seq<Reply>, clean: string -> string,
                      defaults: map<string, Json>, isAlnum: char -> bool)
    ensures var p := PlayGame(number, spec, replies, clean, defaults, isAlnum);
      spec.JObj? ==>
        (p.outcome.Written? <==>
           (exists k | 0 <= k < MaxRetries :: Accepts(replies, clean, k)) && SpecTitle(number, spec.fields).JStr?)
        && (!p.outcome.Written? ==> p.outcome == GameFailed)
    ensures var p := PlayGame(number, spec, replies, clean, defaults, isAlnum);
      forall k | 0 <= k < MaxRetries && Accepts(replies, clean, k) && (forall j | 0 <= j < k :: !Accepts(replies, clean, j)) ::
        spec.JObj? && SpecTitle(number, spec.fields).JStr? ==>
          p == Played(Written(Record(number, SpecTitle(number, spec.fields).s, clean(ReplyAt(replies, k).text),
                                     spec.fields, defaults, isAlnum)), k + 1)
  {
    GeneratedPage(replies, clean);
    forall k | 0 <= k < MaxRetries && Accepts(replies, clean, k) && (forall j | 0 <= j < k :: !Accepts(replies, clean, j))
      ensures RetryFrom(GenSteps(replies, clean), 0, FailedGenerate, AllGenerateFailed) == Success(clean(ReplyAt(replies, k).text))
      ensures AttemptsFrom(GenSteps(replies, clean), 0) == k + 1
    {
      var k0 :| 0 <= k0 < MaxRetries && Accepts(replies, clean, k0) && (forall j | 0 <= j < k0 :: !Accepts(replies, clean, j))
        && RetryFrom(GenSteps(replies, clean), 0, FailedGenerate, AllGenerateFailed).value == clean(ReplyAt(replies, k0).text)
        && AttemptsFrom(GenSteps(replies, clean), 0) == k0 + 1;
      assert k0 == k;
    }
  }

  /** A reply the page generator accepts on a first call: long enough once stripped, and long
      enough once cleaned. */
  predicate FirstCallAccepted(reply: Reply, clean: string -> string) {
    reply.Answer? && |Strip(reply.text)| >= 100 && |clean(reply.text)| >= 200
  }

  /** A per-game step that writes a dict specification with a string title whenever the
      model's first reply is accepted, one call, with the record of that title and reply. */
  ghost predicate WritesAccepted(play: (nat, Json, seq<Reply>) -> Played, clean: string -> string,
                                 defaults: map<string, Json>, isAlnum: char -> bool) {
    forall number: nat, spec: Json, replies: seq<Reply> {:trigger play(number, spec, replies)} |
      spec.JObj? && SpecTitle(number, spec.fields).JStr? && FirstCallAccepted(ReplyAt(replies, 0), clean) ::
        play(number, spec, replies)
          == Played(Written(Record(number, SpecTitle(number, spec.fields).s, clean(ReplyAt(replies, 0).text),
                                   spec.fields, defaults, isAlnum)), 1)
  }

  lemma PlayerWritesAccepted(clean: string -> string, defaults: map<string, Json>, isAlnum: char -> bool)
    ensures WritesAccepted(Player(clean, defaults, isAlnum), clean, defaults, isAlnum)
  {
    forall number: nat, spec: Json, replies: seq<Reply> |
      spec.JObj? && SpecTitle(number, spec.fields).JStr? && FirstCallAccepted(ReplyAt(replies, 0), clean)
      ensures Player(clean, defaults, isAlnum)(number, spec, replies)
        == Played(Written(Record(number, SpecTitle(number, spec.fields).s, clean(ReplyAt(replies, 0).text),
                                 spec.fields, defaults, isAlnum)), 1)
    {
      assert Accepts(replies, clean, 0);
      PlayGameCases(number, spec, replies, clean, defaults, isAlnum);
    }
  }

  /** Specifications 1 to `n` are dicts with a string title, and the model answers the first
      `n` calls. */
  predicate Writable(specs: seq<Json>, replies: seq<Reply>, n: nat) {
    n <= |specs| && n <= |replies|
    && forall k | 0 <= k < n :: specs[k].JObj? && SpecTitle(k + 1, specs[k].fields).JStr? && replies[k].Answer?
  }

  /** The records of games 1 to `n`, each from its specification and its own reply. */
  function Records(specs: seq<Json>, replies: seq<Reply>, n: nat, clean: string -> string,
                   defaults: map<string, Json>, isAlnum: char -> bool): (gs: seq<SavedGame>)
    requires Writable(specs, replies, n)
    ensures |gs| == n
  {
    if n == 0 then [] else Records(specs, replies, n - 1, clean, defaults, isAlnum) + [RecordAt(specs, replies, n - 1, clean, defaults, isAlnum)]
  }

  /** The record of game `k + 1`, from specification `k` and reply `k`. */
  function RecordAt(specs: seq<Json>, replies: seq<Reply>, k: nat, clean: string -> string,
                    defaults: map<string, Json>, isAlnum: char -> bool): SavedGame
    requires Writable(specs, replies, k + 1)
  {
    Record(k + 1, SpecTitle(k + 1, specs[k].fields).s, clean(replies[k].text), specs[k].fields, defaults, isAlnum)
  }

  /** Record `k` is game `k + 1`'s, from specification `k` and reply `k`. */
  lemma {:induction false} RecordsAt(specs: seq<Json>, replies: seq<Reply>, n: nat, clean: string -> string,
                                     defaults: map<string, Json>, isAlnum: char -> bool, k: nat)
    requires Writable(specs, replies, n)
    requires k < n
    ensures Records(specs, replies, n, clean, defaults, isAlnum)[k]
         == Record(k + 1, SpecTitle(k + 1, specs[k].fields).s, clean(replies[k].text),
                   specs[k].fields, defaults, isAlnum)
  {
    assert Writable(specs, replies, n - 1);
    var prev := Records(specs, replies, n - 1, clean, defaults, isAlnum);
    var last := Record(n, SpecTitle(n, specs[n - 1].fields).s, clean(replies[n - 1].text),
                       specs[n - 1].fields, defaults, isAlnum);
    assert Records(specs, replies, n, clean, defaults, isAlnum) == prev + [last];
    if k < n - 1 {
      RecordsAt(specs, replies, n - 1, clean, defaults, isAlnum, k);
      assert (prev + [last])[k] == prev[k];
    } else {
      assert (prev + [last])[k] == last;
    }
  }

  /** When every specification is a dict with a string title and the model's next reply is
      always accepted, the loop writes every game, one call each, with the title, the copied
      fields and the cleaned reply of its own call; nothing fails. */
  lemma AllAcceptedWritten(specs: seq<Json>, n: nat, replies: seq<Reply>,
                            play: (nat, Json, seq<Reply>) -> Played, clean: string -> string,
                            defaults: map<string, Json>, isAlnum: char -> bool)
    requires Writable(specs, replies, n) && WritesAccepted(play, clean, defaults, isAlnum)
    requires forall k | 0 <= k < n :: FirstCallAccepted(replies[k], clean)
    ensures GamesUpTo(specs, n, replies, play)
         == Progress(Run(Records(specs, replies, n, clean, defaults, isAlnum), [], false, n), Drop(replies, n))
  {
    var gs := Records(specs, replies, n, clean, defaults, isAlnum);
    forall k | 0 <= k < n ensures play(k + 1, specs[k], Drop(replies, k)) == Played(Written(gs[k]), 1) {
      assert Writable(specs, replies, k + 1);
      PlayAccepted(specs, k + 1, replies, play, clean, defaults, isAlnum);
      RecordsAt(specs, replies, n, clean, defaults, isAlnum, k);
    }
    WrittenRun(specs, n, replies, play, gs);
  }

  /** A run whose every game is written with one call holds those games' records in order. */
  lemma {:induction false} WrittenRun(specs: seq<Json>, n: nat, replies: seq<Reply>,
                                      play: (nat, Json, seq<Reply>) -> Played, gs: seq<SavedGame>)
    requires n <= |specs| && n <= |replies| && |gs| == n
    requires forall k | 0 <= k < n :: play(k + 1, specs[k], Drop(replies, k)) == Played(Written(gs[k]), 1)
    ensures GamesUpTo(specs, n, replies, play) == Progress(Run(gs, [], false, n), Drop(replies, n))
  {
    if n > 0 {
      WrittenRun(specs, n - 1, replies, play, gs[..n - 1]);
      WrittenStep(specs, n, replies, play, gs[..n - 1], gs[n - 1]);
      assert gs[..n - 1] + [gs[n - 1]] == gs;
    }
  }

  /** The drivers' loop, given dict specifications with string titles and a model whose every
      reply is accepted on its first call, writes every game and fails none. */
  lemma PlayerWritesAll(specs: seq<Json>, replies: seq<Reply>, clean: string -> string,
                        defaults: map<string, Json>, isAlnum: char -> bool)
    requires Writable(specs, replies, |specs|)
    requires forall k | 0 <= k < |specs| :: FirstCallAccepted(replies[k], clean)
    ensures Games(specs, replies, Player(clean, defaults, isAlnum))
         == Run(Records(specs, replies, |specs|, clean, defaults, isAlnum), [], false, |specs|)
  {
    PlayerWritesAccepted(clean, defaults, isAlnum);
    AllAcceptedWritten(specs, |specs|, replies, Player(clean, defaults, isAlnum), clean, defaults, isAlnum);
  }

  /** Game `n` is written from its specification and the reply to its one call. */
  lemma PlayAccepted(specs: seq<Json>, n: nat, replies: seq<Reply>, play: (nat, Json, seq<Reply>) -> Played,
                     clean: string -> string, defaults: map<string, Json>, isAlnum: char -> bool)
    requires 0 < n && Writable(specs, replies, n) && WritesAccepted(play, clean, defaults, isAlnum)
    requires FirstCallAccepted(replies[n - 1], clean)
    ensures play(n, specs[n - 1], Drop(replies, n - 1))
         == Played(Written(RecordAt(specs, replies, n - 1, clean, defaults, isAlnum)), 1)
  {
    DropReplyAt(replies, n - 1, 0);
  }

  /** A game written with one call adds its record, and that call, to a run going on. */
  lemma WrittenStep(specs: seq<Json>, n: nat, replies: seq<Reply>, play: (nat, Json, seq<Reply>) -> Played,
                    done: seq<SavedGame>, g: SavedGame)
    requires 0 < n <= |specs| && n <= |replies|
    requires GamesUpTo(specs, n - 1, replies, play) == Progress(Run(done, [], false, n - 1), Drop(replies, n - 1))
    requires play(n, specs[n - 1], Drop(replies, n - 1)) == Played(Written(g), 1)
    ensures GamesUpTo(specs, n, replies, play) == Progress(Run(done + [g], [], false, n), Drop(replies, n))
  {
    assert Drop(Drop(replies, n - 1), 1) == Drop(replies, n);
  }

  /** What the drivers' per-game step promises: at most three calls; the run stops exactly on a
      specification that is not a dict; a written game carries its number and is named by the rule. */
  ghost predicate ByTheRules(play: (nat, Json, seq<Reply>) -> Played, isAlnum: char -> bool) {
    forall number: nat, spec: Json, replies: seq<Reply> ::
      var p := play(number, spec, replies);
      p.calls <= MaxRetries
      && (p.outcome.Stopped? <==> !spec.JObj?)
      && (p.outcome.Written? ==> p.outcome.game.number == number && NamedByRule(p.outcome.game, isAlnum))
  }

  lemma PlayerByTheRules(clean: string -> string, defaults: map<string, Json>, isAlnum: char -> bool)
    ensures ByTheRules(Player(clean, defaults, isAlnum), isAlnum)
  {
    forall number: nat, spec: Json, replies: seq<Reply> {
      PlayGameWritten(number, spec, replies, clean, defaults, isAlnum);
    }
  }

  /** A run after `n` specifications: every one of them accounted for as written or failed,
      unless one that is not a dict stopped the run; at most three calls per game. */
  predicate Counted(run: Run, n: nat, specs: seq<Json>) {
    var m := |run.saved| + |run.failed|;
    m <= n <= |specs| && (run.stopped <==> m < n)
    && (run.stopped ==> !specs[m].JObj?)
    && (forall k | 0 <= k < m :: specs[k].JObj?)
    && run.calls <= MaxRetries * m
  }

  lemma AdvanceCounted(pr: Progress, n: nat, specs: seq<Json>, play: (nat, Json, seq<Reply>) -> Played,
                       isAlnum: char -> bool)
    requires 0 < n <= |specs| && Counted(pr.run, n - 1, specs) && ByTheRules(play, isAlnum)
    ensures Counted(Advance(pr, n, specs[n - 1], play).run, n, specs)
  {
    if !pr.run.stopped {
      var r := pr.run;
      var m := |r.saved| + |r.failed|;
      var p := play(n, specs[n - 1], pr.rest);
      assert p.calls <= MaxRetries && (p.outcome.Stopped? <==> !specs[n - 1].JObj?);
      assert m == n - 1;
      var next := Advance(pr, n, specs[n - 1], play).run;
      if p.outcome.Stopped? {
        assert next == Run(r.saved, r.failed, true, r.calls);
      } else {
        assert |next.saved| + |next.failed| == n && !next.stopped && next.calls == r.calls + p.calls;
        assert forall k | 0 <= k < n :: specs[k].JObj? by {
          forall k | 0 <= k < n ensures specs[k].JObj? {
            if k < m { assert specs[k].JObj?; }
          }
        }
      }
    }
  }

  /** After `n` specifications the run is `Counted`. */
  lemma {:induction false} GamesCounted(specs: seq<Json>, n: nat, replies: seq<Reply>,
                                        play: (nat, Json, seq<Reply>) -> Played, isAlnum: char -> bool)
    requires n <= |specs| && ByTheRules(play, isAlnum)
    ensures Counted(GamesUpTo(specs, n, replies, play).run, n, specs)
  {
    if n > 0 {
      GamesCounted(specs, n - 1, replies, play, isAlnum);
      AdvanceCounted(GamesUpTo(specs, n - 1, replies, play), n, specs, play, isAlnum);
    }
  }

  /** Every game number up to the last one played is either written or failed, never both,
      and both kinds come in increasing order. */
  ghost predicate Numbered(run: Run) {
    var m := |run.saved| + |run.failed|;
    Increasing(run.saved) && Ascending(run.failed)
    && (forall x :: x in Numbers(run.saved) || x in run.failed <==> 0 < x <= m)
    && (forall x :: !(x in Numbers(run.saved) && x in run.failed))
  }

  /** Every game is named by the rule. */
  predicate AllNamed(games: seq<SavedGame>, isAlnum: char -> bool) {
    forall g <- games :: NamedByRule(g, isAlnum)
  }

  lemma AdvanceNumbered(pr: Progress, n: nat, specs: seq<Json>, play: (nat, Json, seq<Reply>) -> Played,
                        isAlnum: char -> bool)
    requires 0 < n <= |specs| && Counted(pr.run, n - 1, specs) && Numbered(pr.run)
    requires AllNamed(pr.run.saved, isAlnum) && ByTheRules(play, isAlnum)
    ensures var run := Advance(pr, n, specs[n - 1], play).run;
      Numbered(run) && AllNamed(run.saved, isAlnum)
  {
    if !pr.run.stopped {
      var p := play(n, specs[n - 1], pr.rest);
      match p.outcome
      case Stopped =>
      case GameFailed => FailedLast(pr.run, n, pr.run.calls + p.calls);
      case Written(g) =>
        WrittenLast(pr.run, g, pr.run.calls + p.calls);
        assert NamedByRule(g, isAlnum);
    }
  }

  /** After `n` specifications the run is `Numbered` and its games are named by the rule. */
  lemma {:induction false} GamesNumbered(specs: seq<Json>, n: nat, replies: seq<Reply>,
                                         play: (nat, Json, seq<Reply>) -> Played, isAlnum: char -> bool)
    requires n <= |specs| && ByTheRules(play, isAlnum)
    ensures var run := GamesUpTo(specs, n, replies, play).run;
      Numbered(run) && AllNamed(run.saved, isAlnum)
  {
    if n > 0 {
      GamesNumbered(specs, n - 1, replies, play, isAlnum);
      GamesCounted(specs, n - 1, replies, play, isAlnum);
      AdvanceNumbered(GamesUpTo(specs, n - 1, replies, play), n, specs, play, isAlnum);
    }
  }

  /** A failed game numbered after every game so far keeps the run `Numbered`. */
  lemma FailedLast(r: Run, number: nat, calls: nat)
    requires number == |r.saved| + |r.failed| + 1 && Numbered(r)
    ensures Numbered(Run(r.saved, r.failed + [number], false, calls))
  {
    var f := r.failed + [number];
    assert forall x :: x in f <==> x in r.failed || x == number;
    forall a, b | 0 <= a < b < |f| ensures f[a] < f[b] {
      assert f[a] == r.failed[a] && f[a] in r.failed;
    }
  }

  /** A written game numbered after every game so far keeps the run `Numbered`. */
  lemma WrittenLast(r: Run, g: SavedGame, calls: nat)
    requires g.number == |r.saved| + |r.failed| + 1 && Numbered(r)
    ensures Numbered(Run(r.saved + [g], r.failed, false, calls))
  {
    var ns0 := Numbers(r.saved);
    var s := r.saved + [g];
    NumbersSnoc(r.saved, g);
    assert forall x :: x in Numbers(s) <==> x in ns0 || x == g.number;
    forall a, b | 0 <= a < b < |s| ensures s[a].number < s[b].number {
      assert s[a].number == ns0[a] && ns0[a] in ns0;
    }
  }

  lemma NumbersSnoc(games: seq<SavedGame>, g: SavedGame)
    ensures Numbers(games + [g]) == Numbers(games) + [g.number]
  {
    assert (games + [g])[..|games|] == games;
  }

  /** What a whole run promises: every specification is accounted for up to the first that is
      not a dict, which stops the run; at most three calls per game; written and failed numbers
      partition 1 to the number of games played, each in increasing order; every file is named
      by the rule and no two games share a file. */
  lemma RunPromises(specs: seq<Json>, replies: seq<Reply>, play: (nat, Json, seq<Reply>) -> Played,
                    isAlnum: char -> bool)
    requires ByTheRules(play, isAlnum)
    ensures var run := Games(specs, replies, play);
      Counted(run, |specs|, specs) && Numbered(run) && AllNamed(run.saved, isAlnum)
      && forall a, b | 0 <= a < b < |run.saved| :: run.saved[a].filename != run.saved[b].filename
  {
    var run := Games(specs, replies, play);
    GamesCounted(specs, |specs|, replies, play, isAlnum);
    GamesNumbered(specs, |specs|, replies, play, isAlnum);
    var ns := Numbers(run.saved);
    forall g <- run.saved ensures 0 <= g.number && NamedByRule(g, isAlnum) {
      var k :| 0 <= k < |run.saved| && run.saved[k] == g;
      assert ns[k] in ns;
    }
    DistinctFileNames(run.saved, isAlnum);
  }
}
