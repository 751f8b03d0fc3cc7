/** The game session and PlayingState: one executeState call is one pure
    step that consumes console lines from the front of a sequence. */
module Playing {
  import opened Wrappers
  import opened Text
  import opened Questions
  import opened Players
  import opened Boards
  import opened Events

  /** The current game state. Playing carries PlayingState's own fields: its
      board (null until the first step), the index of the player whose turn
      it is, and the gameActive flag. */
  datatype Phase =
    | Intro
    | Playing(board: Option<Board>, current: nat, active: bool)
    | Finished

  /** The game context: the state, the loaded questions (null until a load),
      the players and the log of published events. */
  datatype Session = Session(phase: Phase, questions: Option<seq<Option<Question>>>,
                             players: seq<Player>, log: seq<Event>)

  /** A step either leaves the unread lines, or needs a line the input does
      not have (Scanner.nextLine throws and the program stops). */
  datatype Outcome = Stepped(session: Session, rest: seq<string>) | OutOfInput

  const MaxPlayers: int := 4

  /** rest is what is left of lines after reading some of its front. */
  predicate Suffix(rest: seq<string>, lines: seq<string>) {
    |rest| <= |lines| && rest == lines[|lines| - |rest|..]
  }

  /** What holds of every reachable session: at most four players, and the
      turn index points at a player once there are players. */
  predicate Valid(s: Session) {
    && |s.players| <= MaxPlayers
    && (s.phase.Playing? ==>
          s.phase.current < |s.players| || (|s.players| == 0 && s.phase.current == 0))
  }

  /** notifyObservers: the event joins the session's log. */
  function Emit(s: Session, e: Event): Session {
    s.(log := s.log + [e])
  }

  /** changeState of PlayingState: the game moves to Finished, and publishes
      GameFinished, exactly when it is no longer active or its board exists
      and is exhausted; otherwise nothing happens. */
  function ChangeState(s: Session): (r: Session)
    requires s.phase.Playing?
    ensures r.phase.Finished? <==>
      !s.phase.active || (s.phase.board.Some? && AllAnswered(s.phase.board.value))
    ensures r.phase.Finished? ==> r.log == s.log + [GameFinished]
    ensures !r.phase.Finished? ==> r == s
    ensures r.players == s.players && r.questions == s.questions
  {
    var p := s.phase;
    if !p.active || (p.board.Some? && AllAnswered(p.board.value)) then
      Emit(s.(phase := Finished), GameFinished)
    else s
  }

  /** The line is accepted by setupPlayers' count prompt: an integer in 1..4. */
  predicate AcceptsCount(line: string) {
    var p := ParseInt(Trim(line));
    p.Some? && 1 <= p.value <= MaxPlayers
  }

  /** The re-prompting loop of setupPlayers: the accepted count and the
      number of lines read up to and including it; None when the input runs
      out before an acceptable line. */
  function ReadPlayerCount(lines: seq<string>): (r: Option<(int, nat)>)
    ensures r.Some? ==> 1 <= r.value.0 <= MaxPlayers && 0 < r.value.1 <= |lines|
  {
    if |lines| == 0 then None
    else if AcceptsCount(lines[0]) then Some((ParseInt(Trim(lines[0])).value, 1))
    else
      match ReadPlayerCount(lines[1..])
      case None => None
      case Some((n, used)) => Some((n, used + 1))
  }

  /** The count comes from the first acceptable line; every line before it
      is re-prompted; None means no line was acceptable. */
  lemma {:induction false} ReadPlayerCountFindsFirst(lines: seq<string>)
    ensures var r := ReadPlayerCount(lines);
      && (r.Some? ==>
            && AcceptsCount(lines[r.value.1 - 1])
            && ParseInt(Trim(lines[r.value.1 - 1])) == Some(r.value.0)
            && forall j :: 0 <= j < r.value.1 - 1 ==> !AcceptsCount(lines[j]))
      && (r.None? <==> forall j :: 0 <= j < |lines| ==> !AcceptsCount(lines[j]))
  {
    if |lines| > 0 && !AcceptsCount(lines[0]) {
      ReadPlayerCountFindsFirst(lines[1..]);
      assert forall j :: 1 <= j < |lines| ==> lines[j] == lines[1..][j - 1];
    }
  }

  /** The name setupPlayers gives player i (counted from 0): the trimmed
      line, or "Player " and the 1-based number when that is blank. */
  function PlayerName(line: string, i: nat): (r: string)
    ensures |r| > 0
    ensures |Trim(line)| > 0 ==> r == Trim(line)
    ensures |Trim(line)| == 0 ==> r == "Player " + IntToString(i + 1)
  {
    var t := Trim(line);
    if |t| == 0 then "Player " + IntToString(i + 1) else t
  }

  /** A default name reads back as "Player " and the player's number
      counted from 1. */
  lemma DefaultNameNumbersFromOne(line: string, i: nat)
    requires |Trim(line)| == 0 && i < MaxPlayers
    ensures var r := PlayerName(line, i);
      |r| > 7 && r[..7] == "Player " && ParseInt(r[7..]) == Some(i + 1)
  {
    var r := PlayerName(line, i);
    assert r[7..] == IntToString(i + 1);
    ParseIntRoundTrip(i + 1);
  }

  /** One PlayerJoined event per player, in order. */
  function Joined(ps: seq<Player>): (r: seq<Event>)
    ensures |r| == |ps| && forall k :: 0 <= k < |ps| ==> r[k] == PlayerJoined(ps[k])
  {
    seq(|ps|, k requires 0 <= k < |ps| => PlayerJoined(ps[k]))
  }

  /** The players named by the given lines, in order, each with score 0. */
  function Roster(names: seq<string>): (r: seq<Player>)
    ensures |r| == |names|
    ensures forall k :: 0 <= k < |names| ==> r[k] == NewPlayer(PlayerName(names[k], k))
  {
    if |names| == 0 then []
    else Roster(names[..|names| - 1]) + [NewPlayer(PlayerName(names[|names| - 1], |names| - 1))]
  }

  /** The name half of setupPlayers, once the count n is accepted: one
      name line per player; publish the count, then each player as it
      joins. */
  function TakeNames(s: Session, n: int, lines: seq<string>): (r: Option<(Session, seq<string>)>)
    requires 1 <= n <= MaxPlayers
    ensures r.Some? <==> n <= |lines|
    ensures r.Some? ==>
      var (t, rest) := r.value;
      && rest == lines[n..]
      && |t.players| == n
      && (forall k :: 0 <= k < n ==> t.players[k].score == 0 && |t.players[k].name| > 0)
      && t.log == s.log + [SelectPlayerCount(n)] + Joined(t.players)
      && t.phase == s.phase && t.questions == s.questions
  {
    if |lines| < n then None
    else
      var ps := Roster(lines[..n]);
      Some((s.(players := ps, log := s.log + [SelectPlayerCount(n)] + Joined(ps)), lines[n..]))
  }

  /** setupPlayers: read the count, then one name per player. */
  function Setup(s: Session, lines: seq<string>): (r: Option<(Session, seq<string>)>)
    ensures r.Some? ==>
      var (t, rest) := r.value;
      && Suffix(rest, lines) && |rest| < |lines|
      && 1 <= |t.players| <= MaxPlayers
      && (forall k :: 0 <= k < |t.players| ==> t.players[k].score == 0 && |t.players[k].name| > 0)
      && t.log == s.log + [SelectPlayerCount(|t.players|)] + Joined(t.players)
      && t.phase == s.phase && t.questions == s.questions
  {
    match ReadPlayerCount(lines)
    case None => None
    case Some((n, used)) => TakeNames(s, n, lines[used..])
  }

  /** A scored turn (after the answer is read): only the current player's
      score changes, by the question's value when the answer matches ignoring
      case and by minus the value otherwise; the question (found as entry i
      for the chosen category and value) becomes answered and nothing else
      on the board changes; the event carries the answer, the points and the
      updated score; the turn passes to the next player in a cycle. */
  function ScoreTurn(s: Session, category: string, value: int, i: nat, answer: string): (r: Session)
    requires s.phase.Playing? && s.phase.board.Some? && s.phase.current < |s.players|
    requires GetQuestion(s.phase.board.value, category, value) == Some(i)
    ensures var board := s.phase.board.value; var cur := s.phase.current;
      var q := board[i].value; var correct := EqualsIgnoreCase(q.correctAnswer, answer);
      var points := if correct then value else -value;
      && |r.players| == |s.players|
      && (forall j :: 0 <= j < |s.players| && j != cur ==> r.players[j] == s.players[j])
      && r.players[cur].name == s.players[cur].name
      && r.players[cur].score == s.players[cur].score + points
      && r.phase.Playing? && r.phase.board.Some? && r.phase.active == s.phase.active
      && r.phase.current == (cur + 1) % |s.players|
      && |r.phase.board.value| == |board|
      && r.phase.board.value[i] == Some(q.MarkAnswered(true))
      && (forall j :: 0 <= j < |board| && j != i ==> r.phase.board.value[j] == board[j])
      && r.log == s.log + [QuestionAnswered(r.players[cur], q.MarkAnswered(true), correct, answer,
                                            points, r.players[cur].score)]
      && r.questions == s.questions
  {
    var board := s.phase.board.value;
    var cur := s.phase.current;
    var q := board[i].value;
    var player := s.players[cur];
    var correct := EqualsIgnoreCase(q.correctAnswer, answer);
    var points := if correct then value else -value;
    var runningScore := player.score + points;
    var scored := player.AddScore(points);
    var marked := MarkQuestionAsAnswered(board, q.category, q.value);
    Emit(s.(players := s.players[cur := scored],
            phase := s.phase.(board := Some(marked), current := (cur + 1) % |s.players|)),
         QuestionAnswered(scored, q.MarkAnswered(true), correct, answer, points, runningScore))
  }

  /** What every part of a step promises of a stepped outcome. */
  predicate StepOk(s: Session, lines: seq<string>, r: Outcome) {
    r.Stepped? ==>
      && Valid(r.session)
      && Suffix(r.rest, lines)
      && r.session.questions == s.questions
      && s.log <= r.session.log
      && (r.session.phase.Playing? || r.session.phase.Finished?)
      && (r.session.phase.Playing? ==>
            r.session.phase.active && r.session.phase.board.Some? &&
            0 < |r.session.players| && |r.rest| < |lines|)
      && (r.session.phase.Finished? ==>
            |r.session.log| > 0 && r.session.log[|r.session.log| - 1] == GameFinished)
  }

  /** Players keep their names and their number once they exist. */
  predicate SameRoster(a: seq<Player>, b: seq<Player>) {
    |a| == |b| && forall j :: 0 <= j < |a| ==> a[j].name == b[j].name
  }

  /** The rest of a turn once a question is found: read the answer, score
      it, then ask whether to continue; anything but "y" (after trimming and
      lower-casing) ends the game. */
  function Answer(s: Session, category: string, value: int, i: nat, lines: seq<string>): (r: Outcome)
    requires Valid(s) && s.phase.Playing? && s.phase.active && s.phase.board.Some?
    requires s.phase.current < |s.players|
    requires GetQuestion(s.phase.board.value, category, value) == Some(i)
    ensures StepOk(s, lines, r) && (r.Stepped? ==> SameRoster(s.players, r.session.players))
  {
    if |lines| < 2 then OutOfInput
    else
      var t := ScoreTurn(s, category, value, i, Trim(lines[0]));
      if ToLower(Trim(lines[1])) != "y" then
        Stepped(ChangeState(t.(phase := t.phase.(active := false))), lines[2..])
      else Stepped(t, lines[2..])
  }

  /** The current player's turn: category (or "quit"), value, lookup. An
      unreadable value (or -1) and a missing question end the step with the
      selections already published and nothing else changed. */
  function Turn(s: Session, lines: seq<string>): (r: Outcome)
    requires Valid(s) && s.phase.Playing? && s.phase.active && s.phase.board.Some?
    requires s.phase.current < |s.players|
    ensures StepOk(s, lines, r) && (r.Stepped? ==> SameRoster(s.players, r.session.players))
  {
    if |lines| == 0 then OutOfInput
    else
      var category := Trim(lines[0]);
      if EqualsIgnoreCase(category, "quit") then
        Stepped(ChangeState(s.(phase := s.phase.(active := false))), lines[1..])
      else
        var name := s.players[s.phase.current].name;
        var s1 := Emit(s, SelectCategory(category, name));
        if |lines| == 1 then OutOfInput
        else
          var value := ParseInt(Trim(lines[1])).GetOr(-1);
          if value == -1 then Stepped(s1, lines[2..])
          else
            var s2 := Emit(s1, SelectQuestion(category, value, name));
            match GetQuestion(s.phase.board.value, category, value)
            case None => Stepped(s2, lines[2..])
            case Some(i) => Answer(s2, category, value, i, lines[2..])
  }

  /** The termination check, then a turn. */
  function Proceed(s: Session, lines: seq<string>): (r: Outcome)
    requires Valid(s) && s.phase.Playing? && s.phase.board.Some? && 0 < |s.players|
    ensures StepOk(s, lines, r) && (r.Stepped? ==> SameRoster(s.players, r.session.players))
  {
    if !s.phase.active || AllAnswered(s.phase.board.value) then Stepped(ChangeState(s), lines)
    else Turn(s, lines)
  }

  /** A step that continues where an earlier part of the same step left off. */
  lemma StepOkAfter(s: Session, lines: seq<string>, t: Session, rest: seq<string>, r: Outcome)
    requires Suffix(rest, lines) && |rest| < |lines| && s.log <= t.log && t.questions == s.questions
    requires StepOk(t, rest, r)
    ensures StepOk(s, lines, r)
  {
    if r.Stepped? {
      assert r.rest == lines[|lines| - |r.rest|..];
    }
  }

  /** The one-time player setup, then the termination check and a turn. */
  function SetupAndProceed(s: Session, lines: seq<string>): (r: Outcome)
    requires Valid(s) && s.phase.Playing? && s.phase.board.Some?
    ensures StepOk(s, lines, r)
    ensures r.Stepped? && 0 < |s.players| ==> SameRoster(s.players, r.session.players)
  {
    if |s.players| == 0 then
      match Setup(s, lines)
      case None => OutOfInput
      case Some((t, rest)) =>
        var r := Proceed(t, rest);
        StepOkAfter(s, lines, t, rest, r);
        r
    else Proceed(s, lines)
  }

  /** executeState of PlayingState: build the board on the first call (or
      finish at once when there are no questions), set the players up on the
      first call, then check for the end and play one turn. */
  function PlayStep(s: Session, lines: seq<string>): (r: Outcome)
    requires s.phase.Playing? && Valid(s)
    ensures StepOk(s, lines, r)
    ensures r.Stepped? && 0 < |s.players| ==> SameRoster(s.players, r.session.players)
  {
    var p := s.phase;
    if p.board.None? && (s.questions.None? || |s.questions.value| == 0) then
      Stepped(ChangeState(s.(phase := p.(active := false))), lines)
    else
      var board := if p.board.Some? then p.board.value else NewBoard(s.questions.value);
      SetupAndProceed(s.(phase := p.(board := Some(board))), lines)
  }

  // ---------------------------------------------------------------- lemmas

  /** With no board yet and no questions (null or empty), the step finishes
      the game before any setup and reads nothing. */
  lemma NoQuestionsFinishesAtOnce(s: Session, lines: seq<string>)
    requires s.phase.Playing? && Valid(s) && s.phase.board.None?
    requires s.questions.None? || |s.questions.value| == 0
    ensures PlayStep(s, lines) == Stepped(s.(phase := Finished, log := s.log + [GameFinished]), lines)
  {
  }

  /** A session whose next step plays a turn: players set up, a board that
      still has an unanswered question, the game active. */
  predicate ReadyForTurn(s: Session) {
    && Valid(s) && s.phase.Playing? && s.phase.board.Some? && s.phase.active
    && 0 < |s.players| && !AllAnswered(s.phase.board.value)
  }

  /** An exhausted board ends the game without a turn and without reading. */
  lemma ExhaustedBoardFinishes(s: Session, lines: seq<string>)
    requires Valid(s) && s.phase.Playing? && s.phase.board.Some? && 0 < |s.players|
    requires AllAnswered(s.phase.board.value)
    ensures PlayStep(s, lines) == Stepped(s.(phase := Finished, log := s.log + [GameFinished]), lines)
  {
  }

  /** "quit" in any case, after trimming, ends the game: no selection is
      published, nobody scores and the turn does not move. */
  lemma QuitFinishes(s: Session, lines: seq<string>)
    requires ReadyForTurn(s) && |lines| > 0 && EqualsIgnoreCase(Trim(lines[0]), "quit")
    ensures PlayStep(s, lines) == Stepped(s.(phase := Finished, log := s.log + [GameFinished]), lines[1..])
  {
  }

  /** A value that is not an integer, or is -1, ends the step after the
      category selection is published; scores, board and turn stay put. */
  lemma UnreadableValueRetries(s: Session, lines: seq<string>)
    requires ReadyForTurn(s) && |lines| >= 2 && !EqualsIgnoreCase(Trim(lines[0]), "quit")
    requires ParseInt(Trim(lines[1])).None? || ParseInt(Trim(lines[1])) == Some(-1)
    ensures PlayStep(s, lines) ==
      Stepped(s.(log := s.log + [SelectCategory(Trim(lines[0]), s.players[s.phase.current].name)]), lines[2..])
  {
  }

  /** A category and value with no unanswered question end the step after
      both selections are published; scores, board and turn stay put. */
  lemma MissingQuestionRetries(s: Session, lines: seq<string>, value: int)
    requires ReadyForTurn(s) && |lines| >= 2 && !EqualsIgnoreCase(Trim(lines[0]), "quit")
    requires ParseInt(Trim(lines[1])) == Some(value) && value != -1
    requires GetQuestion(s.phase.board.value, Trim(lines[0]), value).None?
    ensures var name := s.players[s.phase.current].name;
      PlayStep(s, lines) ==
        Stepped(s.(log := s.log + [SelectCategory(Trim(lines[0]), name), SelectQuestion(Trim(lines[0]), value, name)]),
                lines[2..])
  {
  }

  /** A scored turn: after both selections are published, the step is
      ScoreTurn on the found question with the trimmed answer, and the game
      goes on only after a "y" to the continue prompt; anything else ends it. */
  lemma ScoredTurn(s: Session, lines: seq<string>, value: int, i: nat)
    requires ReadyForTurn(s) && |lines| >= 4 && !EqualsIgnoreCase(Trim(lines[0]), "quit")
    requires ParseInt(Trim(lines[1])) == Some(value) && value != -1
    requires GetQuestion(s.phase.board.value, Trim(lines[0]), value) == Some(i)
    ensures var category := Trim(lines[0]); var name := s.players[s.phase.current].name;
      var t := ScoreTurn(s.(log := s.log + [SelectCategory(category, name), SelectQuestion(category, value, name)]),
                         category, value, i, Trim(lines[2]));
      PlayStep(s, lines) ==
        if ToLower(Trim(lines[3])) == "y" then Stepped(t, lines[4..])
        else Stepped(t.(phase := Finished, log := t.log + [GameFinished]), lines[4..])
  {
    var category := Trim(lines[0]);
    var name := s.players[s.phase.current].name;
    var s2 := s.(log := s.log + [SelectCategory(category, name), SelectQuestion(category, value, name)]);
    PlayStepTakesTurn(s, lines);
    TurnFindsQuestion(s, lines, value, i);
    AnswerReads(s2, category, value, i, lines[2..]);
    assert lines[2..][0] == lines[2] && lines[2..][1] == lines[3] && lines[2..][2..] == lines[4..];
  }

  /** Once players exist and the board still has a question, a step is a turn. */
  lemma PlayStepTakesTurn(s: Session, lines: seq<string>)
    requires ReadyForTurn(s)
    ensures PlayStep(s, lines) == Turn(s, lines)
  {
  }

  lemma TurnFindsQuestion(s: Session, lines: seq<string>, value: int, i: nat)
    requires ReadyForTurn(s) && |lines| >= 2 && !EqualsIgnoreCase(Trim(lines[0]), "quit")
    requires ParseInt(Trim(lines[1])) == Some(value) && value != -1
    requires GetQuestion(s.phase.board.value, Trim(lines[0]), value) == Some(i)
    ensures var category := Trim(lines[0]); var name := s.players[s.phase.current].name;
      Turn(s, lines) ==
        Answer(s.(log := s.log + [SelectCategory(category, name), SelectQuestion(category, value, name)]),
               category, value, i, lines[2..])
  {
    var category := Trim(lines[0]);
    var name := s.players[s.phase.current].name;
    assert Emit(Emit(s, SelectCategory(category, name)), SelectQuestion(category, value, name)) ==
      s.(log := s.log + [SelectCategory(category, name), SelectQuestion(category, value, name)]);
  }

  lemma AnswerReads(s: Session, category: string, value: int, i: nat, lines: seq<string>)
    requires Valid(s) && s.phase.Playing? && s.phase.active && s.phase.board.Some?
    requires s.phase.current < |s.players|
    requires GetQuestion(s.phase.board.value, category, value) == Some(i)
    requires |lines| >= 2
    ensures var t := ScoreTurn(s, category, value, i, Trim(lines[0]));
      Answer(s, category, value, i, lines) ==
        if ToLower(Trim(lines[1])) == "y" then Stepped(t, lines[2..])
        else Stepped(t.(phase := Finished, log := t.log + [GameFinished]), lines[2..])
  {
  }

  /** The first step sets the players up from the accepted count and the
      names on the lines after it, publishing the count and then each
      joining player (with score 0), and only then goes on to the end check
      and a turn, which keep that roster and extend that log. */
  lemma SetupOnFirstStep(s: Session, lines: seq<string>, n: int, used: nat)
    requires Valid(s) && s.phase.Playing? && |s.players| == 0
    requires s.phase.board.Some? || (s.questions.Some? && |s.questions.value| > 0)
    requires ReadPlayerCount(lines) == Some((n, used)) && used + n <= |lines|
    ensures var board := if s.phase.board.Some? then s.phase.board.value else NewBoard(s.questions.value);
      var joined := Roster(lines[used..used + n]);
      var t := s.(phase := s.phase.(board := Some(board)), players := joined,
                  log := s.log + [SelectPlayerCount(n)] + Joined(joined));
      PlayStep(s, lines) == Proceed(t, lines[used + n..])
  {
    var p := s.phase;
    var board := if p.board.Some? then p.board.value else NewBoard(s.questions.value);
    var s1 := s.(phase := p.(board := Some(board)));
    var joined := Roster(lines[used..used + n]);
    var t := s1.(players := joined, log := s.log + [SelectPlayerCount(n)] + Joined(joined));
    SliceOfSlice(lines, used, n);
    PlayStepBuildsBoard(s, lines);
    SetupReads(s1, lines, n, used);
    TakeNamesReads(s1, n, lines[used..]);
    SetupThenProceed(s1, lines, t, lines[used + n..]);
  }

  /** On the first call the board is built from the loaded questions. */
  lemma PlayStepBuildsBoard(s: Session, lines: seq<string>)
    requires Valid(s) && s.phase.Playing? && |s.players| == 0
    requires s.phase.board.Some? || (s.questions.Some? && |s.questions.value| > 0)
    ensures var board := if s.phase.board.Some? then s.phase.board.value else NewBoard(s.questions.value);
      PlayStep(s, lines) == SetupAndProceed(s.(phase := s.phase.(board := Some(board))), lines)
  {
  }

  /** Once set up, the step goes on to the end check and a turn. */
  lemma SetupThenProceed(s: Session, lines: seq<string>, t: Session, rest: seq<string>)
    requires Valid(s) && s.phase.Playing? && s.phase.board.Some? && |s.players| == 0
    requires Setup(s, lines) == Some((t, rest))
    ensures SetupAndProceed(s, lines) == Proceed(t, rest)
  {
  }

  lemma SliceOfSlice<T>(xs: seq<T>, a: nat, n: nat)
    requires a + n <= |xs|
    ensures xs[a..][..n] == xs[a..a + n] && xs[a..][n..] == xs[a + n..]
  {
  }

  /** The names are the first n lines. */
  lemma TakeNamesReads(s: Session, n: int, names: seq<string>)
    requires 1 <= n <= MaxPlayers && n <= |names|
    ensures var joined := Roster(names[..n]);
      TakeNames(s, n, names) == Some((s.(players := joined, log := s.log + [SelectPlayerCount(n)] + Joined(joined)), names[n..]))
  {
  }


  /** setupPlayers after an accepted count: one name line per player. */
  lemma SetupReads(s: Session, lines: seq<string>, n: int, used: nat)
    requires ReadPlayerCount(lines) == Some((n, used))
    ensures Setup(s, lines) == TakeNames(s, n, lines[used..])
  {
  }



}
