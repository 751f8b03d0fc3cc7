# Jeopardy game core in Dafny

This project models the game engine of a console Jeopardy game. The model
covers:

- **the question board**: lookup by category and value, available values,
  categories, and answered flags;
- **players and scoring**;
- **the turn engine of `PlayingState`**: lazy board construction, one-time
  player setup, the end check, the "quit" sentinel, value parsing and the
  retry paths, case-insensitive answer checking, ±value scoring,
  round-robin turns and the continue prompt;
- **the phase machine**: `IntroState` loads questions, `PlayingState`
  plays, and `FinishedState` ranks the players and reports;
- **the driver loop of `InteractiveGameRunner`** and its file-suffix loader
  dispatch;
- **the observer list of `ObservableGame`**;
- **the line processing of `CSVQuestionLoader`**: quoting, unquoting,
  header, blank and short-row filtering, category numbering and id
  synthesis.

Everything is a pure function over immutable datatypes:

- Console input is a `seq<string>` of lines. Each `executeState` call is
  one step that consumes lines from the front and returns the session and
  the unread lines.
- Running out of lines is the outcome `OutOfInput`. In Java,
  `Scanner.nextLine` throws there.
- A published event is appended to the session's log.
- Java `null` is `None`.

Files (one module each):

| file | module | models |
|---|---|---|
| wrappers.dfy | Wrappers | `Option` |
| text.dfy | Text | `String.trim`, `toLowerCase`, `equalsIgnoreCase`, `startsWith`/`endsWith`/`contains`, `Integer.parseInt`, `String.valueOf(int)` (ASCII only) |
| questions.dfy | Questions | `Question` |
| players.dfy | Players | `Player` |
| events.dfy | Events | the event classes, as one `Event` datatype |
| observers.dfy | Observers | `ObservableGame` |
| boards.dfy | Boards | `QuestionBoard` |
| csv.dfy | CsvLoader | `CSVQuestionLoader` |
| playing.dfy | Playing | the game session, `PlayingState` |
| game.dfy | Game | `IntroState`, `FinishedState`, `InteractiveGameRunner` |

Where the code and the written design disagree, the model follows the
code:

- **Category matching is case-sensitive.** It uses `String.equals`, with
  no trimming or folding.
- **`getCategories` is a set.** The model returns a `set<string>`, as the
  code's `HashSet` gives no order.
- **Two board methods are reconstructed.** `PlayingState` calls
  `markQuestionAsAnswered(category, value)` and `isBoardEmpty()`, which the
  board class as given does not define.
  - `markQuestionAsAnswered` is modelled as marking whatever
    `getQuestion(category, value)` returns (`Boards.MarkQuestionAsAnswered`).
  - `isBoardEmpty` is modelled as `allQuestionsAnswered` (`Boards.AllAnswered`).
- **The session holds what the steps read and write.** `Playing.Session`
  holds:
  - the phase;
  - the loaded questions;
  - the players;
  - the log of published events.

  The context's scanner and observer list are not fields of `Session`:
  - The scanner is the sequence of lines passed to each step. A step
    returns the lines it did not read.
  - Publishing an event appends it to the log. Delivery to the registered
    observers is a separate function, `Observers.NotifyAll`, over a list of
    observers. That list does not change during a game.

## Model

| member | source | states |
|---|---|---|
| Questions.NewQuestion | src/main/java/com/bitbybit/model/Question.java:32-52 | every field of a new question is the constructor argument, and the question starts unanswered |
| Questions.Question.MarkAnswered | src/main/java/com/bitbybit/model/Question.java:149-151 | the flag becomes exactly the argument; restoring the old flag gives back the original question, so no other field changes |
| Questions.MarkAnsweredReversible | src/main/java/com/bitbybit/model/Question.java:149-151 | the flag is not sticky on its own: marking answered then unanswered restores a fresh question |
| Players.NewPlayer | src/main/java/com/bitbybit/model/Player.java:18-22 | a new player has the given name and score 0 |
| Players.Player.AddScore | src/main/java/com/bitbybit/model/Player.java:47-49 | the score moves by exactly the points, of either sign, and the name is kept |
| Players.Player.SubtractScore | src/main/java/com/bitbybit/model/Player.java:56-58 | the result is never negative; it is score − points, or 0 when that would be lower; the name is kept |
| Players.SubtractVersusAdd | src/main/java/com/bitbybit/model/Player.java:47-58 | subtracting equals adding the negated points exactly when the score does not cross zero |
| Players.AddAllIsSum | src/main/java/com/bitbybit/model/Player.java:47-49 | a run of additions leaves the initial score plus the sum of the deltas, and the name unchanged |
| Players.Player.ToString | src/main/java/com/bitbybit/model/Player.java:74-77 | the text is the name, then " (Score: ", the decimal score, then ")" |
| Players.ToStringScoreRoundTrip | src/main/java/com/bitbybit/model/Player.java:74-77 | the score field cut out of toString parses back to the score |
| Events.TypeNameIdentifiesKind | src/main/java/com/bitbybit/logging/GameEvent.java:13 | two events report the same type name exactly when they are the same kind of event |
| Observers.AddObserver | src/main/java/com/bitbybit/logging/ObservableGame.java:19-21 | the observer is appended after the existing list, so its registration count rises by one |
| Observers.RemoveObserver | src/main/java/com/bitbybit/logging/ObservableGame.java:29-31 | the first occurrence is removed and everything else is kept in order; an unregistered observer leaves the list unchanged; exactly one copy leaves the multiset |
| Observers.Notify | src/main/java/com/bitbybit/logging/ObservableGame.java:39-43 | there is one delivery per registration, in registration order, each carrying the event |
| Observers.NotifyReachesEachRegistration | src/main/java/com/bitbybit/logging/ObservableGame.java:39-43 | an observer receives one notification as many times as it is registered |
| Observers.SingleObserverSeesLog | src/main/java/com/bitbybit/logging/ObservableGame.java:39-43 | an observer registered once receives the whole event log, in emission order |
| Observers.RemovedObserverHearsNothing | src/main/java/com/bitbybit/logging/ObservableGame.java:29-31 | once a singly registered observer is removed, it receives no later event |
| Boards.NewBoard | src/main/java/com/bitbybit/model/QuestionBoard.java:10-12 | the board holds the caller's entries, in order |
| Boards.Categories | src/main/java/com/bitbybit/model/QuestionBoard.java:14-22 | a category is reported exactly when some non-null entry has it, answered or not |
| Boards.CategoriesIgnoreAnswered | src/main/java/com/bitbybit/model/QuestionBoard.java:14-22 | marking any entry answered does not change the category set |
| Boards.ValuesIn | src/main/java/com/bitbybit/model/QuestionBoard.java:24-32 | a value is collected exactly when an unanswered, non-null question with exactly that category has it |
| Boards.SortAsc | src/main/java/com/bitbybit/model/QuestionBoard.java:33 | the result is ascending and a permutation of the input, with duplicates kept |
| Boards.SortedAscUnique | src/main/java/com/bitbybit/model/QuestionBoard.java:33 | two ascending permutations of the same values are equal, so the sort contract pins the result down |
| Boards.AvailableValues | src/main/java/com/bitbybit/model/QuestionBoard.java:24-35 | the result is ascending, has the same multiset as the category's unanswered values, and contains v exactly when some unanswered question of the category has value v |
| Boards.AvailableValuesEmpty | src/main/java/com/bitbybit/model/QuestionBoard.java:24-35 | an unknown or exhausted category offers no values |
| Boards.GetQuestion | src/main/java/com/bitbybit/model/QuestionBoard.java:37-47 | the answer is the first entry that is non-null, has exactly the category, has the value and is unanswered; None exactly when there is no such entry |
| Boards.Lookup | src/main/java/com/bitbybit/model/QuestionBoard.java:37-47 | a returned question has the asked category and value and is unanswered |
| Boards.MarkedNeverFound | src/main/java/com/bitbybit/model/QuestionBoard.java:37-47 | a question, once marked answered, is never returned again for any category and value |
| Boards.MarkAnswered | src/main/java/com/bitbybit/model/QuestionBoard.java:49-53 | only the given question's flag becomes true; null, or a question not on the board, changes nothing |
| Boards.MarkAnsweredIdempotent | src/main/java/com/bitbybit/model/QuestionBoard.java:49-53 | marking twice is the same as marking once |
| Boards.MarkAnsweredMonotone | src/main/java/com/bitbybit/model/QuestionBoard.java:49-53 | marking never clears an answered flag |
| Boards.MarkRemovesOneValue | src/main/java/com/bitbybit/model/QuestionBoard.java:24-35 | marking a question answered removes one copy of its value from its category's available values and leaves other categories alone |
| Boards.AllAnswered | src/main/java/com/bitbybit/model/QuestionBoard.java:55-62 | true exactly when every non-null entry is answered, so an empty board counts as answered |
| Boards.ExhaustedIffNothingToFind | src/main/java/com/bitbybit/model/QuestionBoard.java:55-62 | the board is exhausted exactly when no category and value finds a question |
| Boards.NullEntriesIgnored | src/main/java/com/bitbybit/model/QuestionBoard.java:14-62 | inserting a null entry anywhere changes no query: categories, available values, lookup and the exhaustion test |
| Boards.MarkQuestionAsAnswered | src/main/java/com/bitbybit/game/PlayingState.java:117 | (reconstruction) what getQuestion finds for the pair is marked answered and nothing else changes; no match means no change |
| Boards.MarkByPairIdempotentWhenUnique | src/main/java/com/bitbybit/game/PlayingState.java:117 | when a single unanswered question carries the pair, marking by pair twice is the same as once |
| Boards.MarkByPairNotIdempotentOnDuplicates | src/main/java/com/bitbybit/game/PlayingState.java:117 | when two unanswered questions share the pair, a second mark by pair marks the other one |
| Text.TrimSpec | src/main/java/com/bitbybit/game/IntroState.java:48 | the result of trim is a contiguous slice of the input; every character cut off is at most U+0020 (space or control); the result is empty or has a non-space at both ends |
| Text.TrimIdempotent | src/main/java/com/bitbybit/game/IntroState.java:48 | trimming twice is trimming once |
| Text.EqualsIgnoreCaseIffLowerEqual | src/main/java/com/bitbybit/game/PlayingState.java:235-237 | equalsIgnoreCase holds exactly when the lower-cased strings are equal |
| Text.EqualsIgnoreCaseSymmetric | src/main/java/com/bitbybit/game/PlayingState.java:235-237 | the answer check does not depend on the order of its arguments |
| Text.ParseIntRoundTrip | src/main/java/com/bitbybit/input/CSVQuestionLoader.java:103-107 | every 32-bit integer, printed in decimal, parses back to itself |
| Text.ParseIntRejectsNonDigit | src/main/java/com/bitbybit/game/PlayingState.java:226-233 | text with a character other than an ASCII digit after the first character is not a number |
| CsvLoader.SplitCsvLine | src/main/java/com/bitbybit/input/CSVQuestionLoader.java:130-154 | there is one more field than there are commas preceded by an even number of quote characters. The field contents are stated by `CsvLoader.SplitJoinSegments` |
| CsvLoader.SplitJoinSegments | src/main/java/com/bitbybit/input/CSVQuestionLoader.java:134-151 | a line is written as fields, each a run of bare text and quoted regions, joined with commas. It splits back into the fields' texts: quotes that open or close a region are dropped, even in the middle of a field; a doubled quote inside a region is one quote; commas inside a region stay in the field |
| CsvLoader.SplitJoinMixed | src/main/java/com/bitbybit/input/CSVQuestionLoader.java:130-154 | a line mixing bare fields, which have no comma or quote, and quoted fields splits back into exactly those fields |
| CsvLoader.QuotedCommaStays | src/main/java/com/bitbybit/input/CSVQuestionLoader.java:134-151 | `a,"b,c",d` splits into `a`, `b,c` and `d` |
| CsvLoader.MidFieldQuoteDropped | src/main/java/com/bitbybit/input/CSVQuestionLoader.java:134-146 | `"x"y` is the single field `xy` |
| CsvLoader.AdjacentQuotedRegionsMerge | src/main/java/com/bitbybit/input/CSVQuestionLoader.java:138-143 | in `"a""b"`, the closing and opening quotes read as one escaped quote, giving the single field `a"b` |
| CsvLoader.SplitPlainLine | src/main/java/com/bitbybit/input/CSVQuestionLoader.java:130-154 | a line with no quotes splits at every comma: the fields contain no comma and join back to the line |
| CsvLoader.SplitJoinPlain | src/main/java/com/bitbybit/input/CSVQuestionLoader.java:130-154 | fields with no comma or quote, joined with commas, split back into the same fields |
| CsvLoader.SplitJoinQuoted | src/main/java/com/bitbybit/input/CSVQuestionLoader.java:134-151 | any fields, each written quoted with inner quotes doubled and joined with commas, split back into the same fields: a doubled quote inside quotes is one literal quote and does not end the quoting |
| CsvLoader.CollapseEscape | src/main/java/com/bitbybit/input/CSVQuestionLoader.java:170 | collapsing doubled quotes undoes doubling them |
| CsvLoader.UnquoteQuote | src/main/java/com/bitbybit/input/CSVQuestionLoader.java:163-173 | a quoted field with doubled inner quotes unquotes to its text, whatever that text is |
| CsvLoader.TracksStep | src/main/java/com/bitbybit/input/CSVQuestionLoader.java:85-113 | one row of the loop builds the question the declarative numbering gives that row. An integer category keeps its number; other categories are numbered 1, 2, … by first appearance; the id is the number followed by the row's 1-based count within that number; a value that does not parse is 0. The loop's bookkeeping keeps agreeing with the numbering |
| CsvLoader.BuildMatchesSpec | src/main/java/com/bitbybit/input/CSVQuestionLoader.java:48-114 | from any row on, the loop produces exactly the declared questions for the remaining rows |
| CsvLoader.LoadMatchesSpec | src/main/java/com/bitbybit/input/CSVQuestionLoader.java:48-114 | the line loop gives exactly one declared question per data row, in file order. Blank lines are skipped; the first non-blank line is dropped when it looks like a header; rows with fewer than eight fields are dropped |
| CsvLoader.LoadQuestions | src/main/java/com/bitbybit/input/CSVQuestionLoader.java:32-121 | a missing file gives no questions; otherwise the questions are the declared ones for the file's rows, never more than there are lines |
| Playing.ChangeState | src/main/java/com/bitbybit/game/PlayingState.java:141-146 | the game moves to Finished, publishing GameFinished last, exactly when it is inactive or its board exists and is exhausted; otherwise nothing changes |
| Playing.ReadPlayerCount | src/main/java/com/bitbybit/game/PlayingState.java:154-164 | an accepted count lies in 1..4 and is read from one of the available lines |
| Playing.ReadPlayerCountFindsFirst | src/main/java/com/bitbybit/game/PlayingState.java:154-164 | the count is the value of the first line that parses to an integer in 1..4; every earlier line was rejected; there is no count exactly when no line is acceptable |
| Playing.PlayerName | src/main/java/com/bitbybit/game/PlayingState.java:170-173 | a name is never empty. It is the trimmed input when that is non-blank, and otherwise "Player " followed by the 1-based player number |
| Playing.DefaultNameNumbersFromOne | src/main/java/com/bitbybit/game/PlayingState.java:170-173 | a default name reads back as "Player " and a number that parses to the player's position counted from 1 |
| Playing.Roster | src/main/java/com/bitbybit/game/PlayingState.java:168-176 | the players are one per name line, in input order, each with score 0 and the name setup gives that line |
| Playing.TakeNames | src/main/java/com/bitbybit/game/PlayingState.java:165-176 | with enough lines, n players scoring 0 with non-empty names are added; the count is published before one join event per player, in order; without enough lines there is no result |
| Playing.Setup | src/main/java/com/bitbybit/game/PlayingState.java:150-177 | setup consumes lines; it yields 1..4 players, each scoring 0 with a non-empty name, and publishes the count and then each join in order |
| Playing.SetupOnFirstStep | src/main/java/com/bitbybit/game/PlayingState.java:50-53 | the first step builds the board, sets the players up from the first acceptable count and the following name lines, and only then checks for the end and plays a turn |
| Playing.ScoreTurn | src/main/java/com/bitbybit/game/PlayingState.java:102-129 | a scored turn changes only the current player's score: +value on a case-insensitive match, −value otherwise. The found question is marked answered and nothing else on the board changes; the event carries the answer, the delta and the new score; the turn passes to (current+1) mod players |
| Playing.Answer | src/main/java/com/bitbybit/game/PlayingState.java:101-137 | after an answer the step stays valid, keeps the roster and only extends the log |
| Playing.Turn | src/main/java/com/bitbybit/game/PlayingState.java:63-93 | a turn keeps the session valid, keeps the roster, only extends the log and never changes the loaded questions |
| Playing.PlayStep | src/main/java/com/bitbybit/game/PlayingState.java:34-138 | a step keeps the session valid and reads only from the front of the input. While Playing, the game is active with a board and players; once Finished, GameFinished is the last event |
| Playing.NoQuestionsFinishesAtOnce | src/main/java/com/bitbybit/game/PlayingState.java:39-46 | with no board and no questions (null or empty), the step finishes the game before any setup and reads nothing |
| Playing.ExhaustedBoardFinishes | src/main/java/com/bitbybit/game/PlayingState.java:55-61 | an exhausted board ends the game without a turn and without reading input |
| Playing.QuitFinishes | src/main/java/com/bitbybit/game/PlayingState.java:71-76 | "quit", in any case after trimming, ends the game with no selection event, no scoring and no turn change |
| Playing.UnreadableValueRetries | src/main/java/com/bitbybit/game/PlayingState.java:78-84 | a value that is not an integer, or is -1, ends the step after the category event; scores, board, turn and phase are unchanged |
| Playing.MissingQuestionRetries | src/main/java/com/bitbybit/game/PlayingState.java:85-93 | a pair with no unanswered question ends the step after both selection events; scores, board, turn and phase are unchanged |
| Playing.ScoredTurn | src/main/java/com/bitbybit/game/PlayingState.java:102-137 | a found question is answered with the trimmed third line and scored. The game goes on only when the trimmed, lower-cased reply is "y"; any other reply finishes it with GameFinished |
| Game.CreateLoader | src/main/java/com/bitbybit/game/InteractiveGameRunner.java:46-56 | the lower-cased suffix ".csv", ".json" or ".xml" picks the matching loader, and any other path is rejected |
| Game.SuffixesExclusive | src/main/java/com/bitbybit/game/InteractiveGameRunner.java:48-53 | no path ends in two of the suffixes, so the order of the tests is irrelevant |
| Game.CreateLoaderIgnoresCase | src/main/java/com/bitbybit/game/InteractiveGameRunner.java:46 | the loader choice does not depend on the case of the path |
| Game.LoadWith | src/main/java/com/bitbybit/game/IntroState.java:52-55 | a path is rejected exactly when the factory has no loader for it; otherwise the chosen loader reads that path |
| Game.IntroStep | src/main/java/com/bitbybit/game/IntroState.java:43-77 | exactly one line is read, and the trimmed path goes to the loader. A rejection, a null array or an empty array changes nothing. Otherwise exactly the loaded questions are stored, LoadFile is published, and a fresh Playing phase starts |
| Game.IntroChangeState | src/main/java/com/bitbybit/game/IntroState.java:85-87 | changeState always installs a fresh PlayingState: no board, the first player's turn, active |
| Game.UnsupportedPathChangesNothing | src/main/java/com/bitbybit/game/IntroState.java:73-76 | with the runner's factory, an unsupported suffix leaves the session unchanged and only consumes the line |
| Game.SortByScore | src/main/java/com/bitbybit/game/FinishedState.java:71-72 | the standings are a permutation of the players, in descending score order |
| Game.SortIsStable | src/main/java/com/bitbybit/game/FinishedState.java:71-72 | players with equal scores keep their join order |
| Game.Standings | src/main/java/com/bitbybit/game/FinishedState.java:71-77 | the ranks run 1..n over a descending permutation of the players |
| Game.Winner | src/main/java/com/bitbybit/game/FinishedState.java:80-82 | a winner is announced exactly when there is at least one player |
| Game.WinnerJoinedFirstAmongBest | src/main/java/com/bitbybit/game/FinishedState.java:71-82 | the winner has the top score and, among the top scorers, joined first |
| Game.Finish | src/main/java/com/bitbybit/game/FinishedState.java:36-49 | a report with the event log and the players is produced exactly when a strategy is set. There is one standing per player; the winner is the first standing, when there are players; the session is left alone |
| Game.Run | src/main/java/com/bitbybit/game/InteractiveGameRunner.java:23-36 | the executed phases start with the current one and never go back (Intro, Playing, Finished). Finished is executed exactly once, at the end. The log only grows and ends with GameFinished; the summary is FinishedState's for the final session |
| Game.ContinueOk | src/main/java/com/bitbybit/game/InteractiveGameRunner.java:23-32 | one loop iteration followed by the rest of the run is again a run with those guarantees |

## Left out

- Console output (`displayState`, the `display*` helpers, `System.out`) is not modelled. Input is a sequence of lines, and a read past its end is the `OutOfInput` outcome, where the Java `Scanner` throws.
- The JSON and XML loaders and the loader factories are left out: they wrap parsers that are not part of this model. A loader is a function parameter of `Game.IntroStep`. Suffix dispatch is modelled in `Game.CreateLoader`.
- File access in `CSVQuestionLoader` (`Files.exists`, `readAllLines`) is left out. `CsvLoader.LoadQuestions` takes the file's lines, or None. All lines are read before the loop (`CSVQuestionLoader.java:41`), so a missing file and an `IOException` both give no questions, which is the `None` case.
- `CSVLoggingObserver` and the report strategies are left out: they are file and document output. Generating a report is the `report` field of `Game.Finish`.
- `Game.Run` does not model the null-state exit of the runner (`InteractiveGameRunner.java:25-28`): every state transition here installs a state, so a null state cannot arise.
- The demo runners and `Main` are left out.
- `Player.id` is left out: it comes from `System.identityHashCode` and no logic reads it.
- Java's 32-bit arithmetic is not modelled. Scores, values and points are unbounded integers, so overflow in `addScore` and in `-value` for `Integer.MIN_VALUE` is not covered. `Text.ParseInt` does enforce the 32-bit range.
- `Text.ParseInt` accepts ASCII digits only. Java's `Integer.parseInt` reads digits through `Character.digit`, so it also accepts other Unicode decimal digits, such as Arabic-Indic or full-width digits. The model rejects those. This affects the value and player-count prompts and the CSV value and category fields. `Text.ParseIntRejectsNonDigit` holds only under this restriction.
- Case folding is ASCII only. `Text.ToLower` and `Text.EqualsIgnoreCase` do not fold other Unicode letters.
- Aliasing of shared objects is not modelled:
  - Java's board shares its `Question` objects with the context's array, so marking one answered is visible through both. The model marks the board's copy only.
  - Events hold references to the player and question objects. The model's events carry their values as of emission.
- `Playing.Turn`, `Playing.Answer` and `Playing.PlayStep` state invariants (validity, roster, log growth, outcome shape). Their exact results are given by the lemmas `Playing.ScoredTurn`, `Playing.QuitFinishes`, `Playing.UnreadableValueRetries`, `Playing.MissingQuestionRetries`, `Playing.ExhaustedBoardFinishes`, `Playing.NoQuestionsFinishesAtOnce` and `Playing.SetupOnFirstStep`.
- `Playing.ReadPlayerCount`: its own contract states only the bounds. Which line supplies the count is stated by `Playing.ReadPlayerCountFindsFirst`.
