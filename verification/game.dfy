/** IntroState, FinishedState and the interactive runner that drives the
    states until the game is finished. */
module Game {
  import opened Wrappers
  import opened Text
  import opened Questions
  import opened Players
  import opened Events
  import opened Playing

  // ------------------------------------------------------ createFactory

  /** The loaders the runner's factory can build. */
  datatype LoaderKind = Csv | Json | Xml

  /** createFactory's createQuestionLoader: the lower-cased path's suffix
      picks the loader; any other suffix is an IllegalArgumentException,
      here None. */
  function CreateLoader(path: string): (r: Option<LoaderKind>)
    ensures r == Some(Csv) <==> EndsWith(ToLower(path), ".csv")
    ensures r == Some(Json) <==> EndsWith(ToLower(path), ".json")
    ensures r == Some(Xml) <==> EndsWith(ToLower(path), ".xml")
    ensures r.None? <==>
      !EndsWith(ToLower(path), ".csv") && !EndsWith(ToLower(path), ".json") && !EndsWith(ToLower(path), ".xml")
  {
    var lower := ToLower(path);
    SuffixesExclusive(lower);
    if EndsWith(lower, ".csv") then Some(Csv)
    else if EndsWith(lower, ".json") then Some(Json)
    else if EndsWith(lower, ".xml") then Some(Xml)
    else None
  }

  /** No name ends in two of the three suffixes, so the order of the tests
      does not matter. */
  lemma SuffixesExclusive(s: string)
    ensures !(EndsWith(s, ".csv") && EndsWith(s, ".json"))
    ensures !(EndsWith(s, ".csv") && EndsWith(s, ".xml"))
    ensures !(EndsWith(s, ".json") && EndsWith(s, ".xml"))
  {
    if EndsWith(s, ".json") {
      assert s[|s| - 4] == 'j';
    }
  }

  /** The choice ignores the case of the path. */
  lemma CreateLoaderIgnoresCase(path: string)
    ensures CreateLoader(ToLower(path)) == CreateLoader(path)
  {
    ToLowerIdempotent(path);
  }

  // ---------------------------------------------------------- IntroState

  /** What the factory and the loader give for a path: the loaded array
      (possibly null), or an IllegalArgumentException. */
  datatype LoadResult = Loaded(questions: Option<seq<Option<Question>>>) | Rejected

  /** The runner's loading: the factory picks a loader by suffix (or
      rejects the path) and the chosen loader reads the file. */
  function LoadWith(read: (LoaderKind, string) -> Option<seq<Option<Question>>>, path: string): (r: LoadResult)
    ensures r.Rejected? <==> CreateLoader(path).None?
    ensures r.Loaded? ==> r.questions == read(CreateLoader(path).value, path)
  {
    match CreateLoader(path)
    case None => Rejected
    case Some(kind) => Loaded(read(kind, path))
  }

  /** executeState of IntroState: the trimmed filename goes to the loader; a
      rejected path, a null array or an empty one leaves everything as it
      was; otherwise the questions are stored, LoadFile is published and a
      fresh PlayingState takes over. Exactly one line is read. */
  function IntroStep(s: Session, lines: seq<string>, load: string -> LoadResult): (r: Outcome)
    requires s.phase.Intro?
    ensures r.OutOfInput? <==> |lines| == 0
    ensures r.Stepped? ==> r.rest == lines[1..]
    ensures r.Stepped? ==>
      var l := load(Trim(lines[0]));
      var loaded := l.Loaded? && l.questions.Some? && |l.questions.value| > 0;
      && (!loaded ==> r.session == s)
      && (loaded ==> r.session == s.(phase := Playing(None, 0, true), questions := l.questions,
                                     log := s.log + [LoadFile]))
  {
    if |lines| == 0 then OutOfInput
    else
      var path := Trim(lines[0]);
      match load(path)
      case Rejected => Stepped(s, lines[1..])
      case Loaded(qs) =>
        if qs.None? || |qs.value| == 0 then Stepped(s, lines[1..])
        else Stepped(Emit(s.(questions := qs), LoadFile).(phase := IntroChangeState()), lines[1..])
  }

  /** changeState of IntroState: always a fresh PlayingState, with no board,
      the first player's turn and the game active. */
  function IntroChangeState(): (r: Phase)
    ensures r.Playing? && r.board.None? && r.current == 0 && r.active
  {
    Playing(None, 0, true)
  }

  /** A load step keeps a reachable session reachable. */
  lemma IntroStepValid(s: Session, lines: seq<string>, load: string -> LoadResult)
    requires s.phase.Intro? && Valid(s)
    ensures var r := IntroStep(s, lines, load); r.Stepped? ==> Valid(r.session)
  {
  }

  /** With the runner's factory, a path with an unsupported suffix changes
      nothing. */
  lemma UnsupportedPathChangesNothing(s: Session, lines: seq<string>,
                                      read: (LoaderKind, string) -> Option<seq<Option<Question>>>)
    requires s.phase.Intro? && |lines| > 0 && CreateLoader(Trim(lines[0])).None?
    ensures IntroStep(s, lines, path => LoadWith(read, path)) == Stepped(s, lines[1..])
  {
  }

  // ------------------------------------------------------- FinishedState

  /** The players ordered by score, highest first. */
  predicate SortedDesc(ps: seq<Player>) {
    forall i, j :: 0 <= i < j < |ps| ==> ps[i].score >= ps[j].score
  }

  /** The players with score k, in their order. */
  function WithScore(ps: seq<Player>, k: int): (r: seq<Player>)
    ensures |r| <= |ps|
  {
    if |ps| == 0 then []
    else (if ps[0].score == k then [ps[0]] else []) + WithScore(ps[1..], k)
  }

  /** Insert p in front of the first player scoring at most p's score, so
      that p goes ahead of the players with an equal score. SortByScore
      inserts the earlier-joined player into the sorted later ones, so this
      keeps ties in join order. */
  function InsertByScore(p: Player, ps: seq<Player>): (r: seq<Player>)
    requires SortedDesc(ps)
    ensures |r| == |ps| + 1 && (r[0] == p || (|ps| > 0 && r[0] == ps[0]))
    ensures SortedDesc(r) && multiset(r) == multiset(ps) + multiset{p}
  {
    if |ps| == 0 || ps[0].score <= p.score then [p] + ps
    else
      var rest := InsertByScore(p, ps[1..]);
      assert ps == [ps[0]] + ps[1..];
      assert ps[0].score >= rest[0].score;
      [ps[0]] + rest
  }

  /** Collections.sort with the comparator Integer.compare(p2.score,
      p1.score): descending by score, stable. */
  function SortByScore(ps: seq<Player>): (r: seq<Player>)
    ensures SortedDesc(r) && multiset(r) == multiset(ps)
  {
    if |ps| == 0 then []
    else
      assert ps == [ps[0]] + ps[1..];
      InsertByScore(ps[0], SortByScore(ps[1..]))
  }

  lemma {:induction false} InsertKeepsTies(p: Player, ps: seq<Player>, k: int)
    requires SortedDesc(ps)
    ensures WithScore(InsertByScore(p, ps), k) == (if p.score == k then [p] else []) + WithScore(ps, k)
  {
    var r := InsertByScore(p, ps);
    if |ps| == 0 || ps[0].score <= p.score {
      assert r == [p] + ps;
      assert r[0] == p && r[1..] == ps;
    } else {
      var rest := InsertByScore(p, ps[1..]);
      assert r == [ps[0]] + rest;
      assert r[0] == ps[0] && r[1..] == rest;
      InsertKeepsTies(p, ps[1..], k);
      assert WithScore(ps, k) == (if ps[0].score == k then [ps[0]] else []) + WithScore(ps[1..], k);
    }
  }

  /** The sort is stable: players with equal scores keep their join order. */
  lemma {:induction false} SortIsStable(ps: seq<Player>, k: int)
    ensures WithScore(SortByScore(ps), k) == WithScore(ps, k)
  {
    if |ps| > 0 {
      SortIsStable(ps[1..], k);
      InsertKeepsTies(ps[0], SortByScore(ps[1..]), k);
    }
  }

  /** One line of the final scores: the 1-based rank and the player. */
  datatype Standing = Standing(rank: int, player: Player)

  function PlayersOf(st: seq<Standing>): (r: seq<Player>)
    ensures |r| == |st| && forall i :: 0 <= i < |st| ==> r[i] == st[i].player
  {
    if |st| == 0 then [] else [st[0].player] + PlayersOf(st[1..])
  }

  /** displayFinalScores: a sorted copy of the players, ranked 1..n. */
  function Standings(ps: seq<Player>): (r: seq<Standing>)
    ensures |r| == |ps|
    ensures forall i :: 0 <= i < |r| ==> r[i].rank == i + 1
    ensures SortedDesc(PlayersOf(r)) && multiset(PlayersOf(r)) == multiset(ps)
  {
    var sorted := SortByScore(ps);
    assert |sorted| == |multiset(sorted)| == |multiset(ps)| == |ps|;
    var r := seq(|sorted|, i requires 0 <= i < |sorted| => Standing(i + 1, sorted[i]));
    assert PlayersOf(r) == sorted;
    r
  }

  /** The announced winner: the first of the standings, when there is one. */
  function Winner(ps: seq<Player>): (r: Option<Player>)
    ensures r.None? <==> |ps| == 0
  {
    var st := Standings(ps);
    if |st| == 0 then None else Some(st[0].player)
  }

  lemma {:induction false} FirstWithScore(ps: seq<Player>, k: int)
    requires |WithScore(ps, k)| > 0
    ensures exists i :: 0 <= i < |ps| && ps[i] == WithScore(ps, k)[0] && ps[i].score == k &&
                        forall j :: 0 <= j < i ==> ps[j].score != k
  {
    if ps[0].score != k {
      FirstWithScore(ps[1..], k);
      var i :| 0 <= i < |ps[1..]| && ps[1..][i] == WithScore(ps[1..], k)[0] && ps[1..][i].score == k &&
               forall j :: 0 <= j < i ==> ps[1..][j].score != k;
      assert ps[i + 1] == ps[1..][i];
      assert forall j :: 1 <= j < i + 1 ==> ps[j] == ps[1..][j - 1];
    }
  }

  /** The winner has the top score and, among the top scorers, joined first. */
  lemma WinnerJoinedFirstAmongBest(ps: seq<Player>)
    requires |ps| > 0
    ensures var w := Winner(ps).value;
      && (forall j :: 0 <= j < |ps| ==> ps[j].score <= w.score)
      && exists i :: 0 <= i < |ps| && ps[i] == w && forall j :: 0 <= j < i ==> ps[j].score < w.score
  {
    var sorted := SortByScore(ps);
    var w := sorted[0];
    assert Winner(ps).value == w;
    forall j | 0 <= j < |ps| ensures ps[j].score <= w.score {
      assert ps[j] in multiset(sorted);
      var m :| 0 <= m < |sorted| && sorted[m] == ps[j];
    }
    assert w in multiset(ps);
    SortIsStable(ps, w.score);
    assert sorted == [w] + sorted[1..];
    assert WithScore(sorted, w.score)[0] == w;
    FirstWithScore(ps, w.score);
  }

  /** What FinishedState.executeState produces: the standings, the winner
      announced when there is at least one player, and the report (the
      event log and the players) when a report strategy is set. */
  datatype Summary = Summary(standings: seq<Standing>, winner: Option<Player>,
                             report: Option<(seq<Event>, seq<Player>)>)

  /** executeState of FinishedState; the session itself is left alone (its
      changeState does nothing). */
  function Finish(s: Session, hasStrategy: bool): (r: Summary)
    ensures r.report.Some? <==> hasStrategy
    ensures r.report.Some? ==> r.report.value == (s.log, s.players)
    ensures |r.standings| == |s.players| && (r.winner.Some? <==> |s.players| > 0)
    ensures r.winner.Some? ==> r.winner.value == r.standings[0].player
  {
    Summary(Standings(s.players), Winner(s.players), if hasStrategy then Some((s.log, s.players)) else None)
  }

  // ------------------------------------------------------------- runner

  /** What a run of the interactive game gives: the final session, the
      phases executed in order, and FinishedState's summary; or the input
      ran out first. */
  datatype RunResult = Ran(final: Session, executed: seq<Phase>, summary: Summary) | InputEnded

  function Rank(p: Phase): nat {
    match p
    case Intro => 0
    case Playing(_, _, _) => 1
    case Finished => 2
  }

  /** What a run promises: the executed phases start with the first one,
      end with Finished executed once, never go back (Intro, then Playing,
      then Finished), the log only grows, and the summary is Finished's. */
  predicate RunOk(s: Session, hasStrategy: bool, r: RunResult) {
    r.Ran? ==>
      && |r.executed| > 0
      && r.executed[0] == s.phase
      && r.executed[|r.executed| - 1] == Finished
      && (forall i :: 0 <= i < |r.executed| - 1 ==> !r.executed[i].Finished?)
      && (forall i, j :: 0 <= i < j < |r.executed| ==> Rank(r.executed[i]) <= Rank(r.executed[j]))
      && r.final.phase == Finished
      && s.log <= r.final.log
      && r.summary == Finish(r.final, hasStrategy)
      && (s.phase.Finished? ==> r.final == s)
      && (!s.phase.Finished? ==> |r.final.log| > 0 && r.final.log[|r.final.log| - 1] == GameFinished)
  }

  /** The main loop of InteractiveGameRunner: while the state is not
      Finished, execute it; then execute Finished once. */
  function Run(s: Session, lines: seq<string>, load: string -> LoadResult, hasStrategy: bool): (r: RunResult)
    requires Valid(s)
    ensures RunOk(s, hasStrategy, r)
    decreases |lines|, 2 - Rank(s.phase)
  {
    match s.phase
    case Finished => Ran(s, [Finished], Finish(s, hasStrategy))
    case Intro =>
      (match IntroStep(s, lines, load)
       case OutOfInput => InputEnded
       case Stepped(t, rest) =>
         IntroStepValid(s, lines, load);
         var r := Run(t, rest, load, hasStrategy);
         ContinueOk(s, t, hasStrategy, r);
         Continue(s, r))
    case Playing(_, _, _) =>
      match PlayStep(s, lines)
      case OutOfInput => InputEnded
      case Stepped(t, rest) =>
        var r := Run(t, rest, load, hasStrategy);
        ContinueOk(s, t, hasStrategy, r);
        Continue(s, r)
  }

  /** The run of the loop that follows one executed state. */
  function Continue(s: Session, r: RunResult): RunResult {
    match r
    case InputEnded => InputEnded
    case Ran(final, executed, summary) => Ran(final, [s.phase] + executed, summary)
  }

  lemma ContinueOk(s: Session, t: Session, hasStrategy: bool, r: RunResult)
    requires !s.phase.Finished? && Rank(s.phase) <= Rank(t.phase) && s.log <= t.log
    requires t.phase.Finished? ==> |t.log| > 0 && t.log[|t.log| - 1] == GameFinished
    requires RunOk(t, hasStrategy, r)
    ensures RunOk(s, hasStrategy, Continue(s, r))
  {
    if r.Ran? {
      var e := [s.phase] + r.executed;
      assert e[1..] == r.executed;
      forall i, j | 0 <= i < j < |e| ensures Rank(e[i]) <= Rank(e[j]) {
        if i > 0 {
          assert e[i] == r.executed[i - 1] && e[j] == r.executed[j - 1];
        } else {
          assert e[j] == r.executed[j - 1];
          assert Rank(r.executed[0]) <= Rank(r.executed[j - 1]) || j - 1 == 0;
        }
      }
      if t.phase.Finished? {
        assert r.final == t;
      }
    }
  }
}
