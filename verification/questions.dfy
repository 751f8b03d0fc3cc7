/** A trivia question: immutable text fields plus the answered flag, which
    is the only part of a question that ever changes. */
module Questions {

  datatype Question = Question(
    id: string,
    category: string,
    value: int,
    text: string,
    optionA: string,
    optionB: string,
    optionC: string,
    optionD: string,
    correctAnswer: string,
    answered: bool)
  {
    /** Question.markAnswered(b): sets the flag to b, in either direction. */
    function MarkAnswered(b: bool): (r: Question)
      ensures r.answered == b
      ensures r.(answered := answered) == this
    {
      this.(answered := b)
    }
  }

  /** The Question constructor: every getter returns its argument and the
      question starts unanswered. */
  function NewQuestion(
    id: string, category: string, value: int, text: string,
    optionA: string, optionB: string, optionC: string, optionD: string,
    correctAnswer: string): (q: Question)
    ensures q.id == id && q.category == category && q.value == value && q.text == text
    ensures q.optionA == optionA && q.optionB == optionB && q.optionC == optionC && q.optionD == optionD
    ensures q.correctAnswer == correctAnswer
    ensures !q.answered
  {
    Question(id, category, value, text, optionA, optionB, optionC, optionD, correctAnswer, false)
  }

  /** The flag is not monotone on a question by itself: marking it answered
      and then unanswered restores the fresh question. */
  lemma MarkAnsweredReversible(q: Question)
    ensures q.MarkAnswered(true).MarkAnswered(false) == q.MarkAnswered(false)
    ensures !q.answered ==> q.MarkAnswered(true).MarkAnswered(false) == q
  {
  }
}
