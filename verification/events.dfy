/** The events the game publishes to its observers. Each Java event class
    becomes one constructor carrying the same fields. Players and questions
    are carried as values as they stand when the event is emitted. */
module Events {
  import opened Players
  import opened Questions

  datatype Event =
    | LoadFile
    | SelectPlayerCount(count: int)
    | PlayerJoined(player: Player)
    | SelectCategory(category: string, playerName: string)
    | SelectQuestion(category: string, value: int, playerName: string)
    | QuestionAnswered(player: Player, question: Question, correct: bool,
                       answerGiven: string, pointsEarned: int, runningScore: int)
    | GameFinished
  {
    /** getType of each event class. */
    function TypeName(): string {
      match this
      case LoadFile => "FILE_LOADED"
      case SelectPlayerCount(_) => "SELECT_PLAYER_COUNT"
      case PlayerJoined(_) => "PLAYER_JOINED"
      case SelectCategory(_, _) => "SELECT_CATEGORY"
      case SelectQuestion(_, _, _) => "SELECT_QUESTION"
      case QuestionAnswered(_, _, _, _, _, _) => "QUESTION_ANSWERED"
      case GameFinished => "GAME_FINISHED"
    }
  }

  /** Distinct event kinds report distinct type names. */
  lemma TypeNameIdentifiesKind(a: Event, b: Event)
    ensures a.TypeName() == b.TypeName() <==>
      (a.LoadFile? && b.LoadFile?) || (a.SelectPlayerCount? && b.SelectPlayerCount?) ||
      (a.PlayerJoined? && b.PlayerJoined?) || (a.SelectCategory? && b.SelectCategory?) ||
      (a.SelectQuestion? && b.SelectQuestion?) || (a.QuestionAnswered? && b.QuestionAnswered?) ||
      (a.GameFinished? && b.GameFinished?)
  {
  }
}
