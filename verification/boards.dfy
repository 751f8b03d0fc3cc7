/** QuestionBoard: the questions of one game in list order, with null
    entries allowed (None). A question is referred to by its position. */
module Boards {
  import opened Wrappers
  import opened Questions

  type Board = seq<Option<Question>>

  /** A slot holding an unanswered question of exactly this category
      (String.equals, no case folding or trimming). */
  predicate Offers(slot: Option<Question>, category: string) {
    slot.Some? && slot.value.category == category && !slot.value.answered
  }

  /** A slot getQuestion accepts for (category, value). */
  predicate Matches(slot: Option<Question>, category: string, value: int) {
    Offers(slot, category) && slot.value.value == value
  }

  predicate Answered(slot: Option<Question>) {
    slot.Some? && slot.value.answered
  }

  /** The constructor copies the caller's list; with value semantics the
      copy is the list itself. */
  function NewBoard(questions: seq<Option<Question>>): (b: Board)
    ensures |b| == |questions| && forall i :: 0 <= i < |b| ==> b[i] == questions[i]
  {
    questions
  }

  // ------------------------------------------------------------ categories

  /** getCategories: the category of every non-null question, answered or not. */
  function Categories(b: Board): (r: set<string>)
    ensures forall c :: c in r <==> exists i :: 0 <= i < |b| && b[i].Some? && b[i].value.category == c
  {
    if |b| == 0 then {}
    else
      var rest := Categories(b[1..]);
      assert forall i :: 1 <= i < |b| ==> b[i] == b[1..][i - 1];
      (if b[0].Some? then {b[0].value.category} else {}) + rest
  }

  // -------------------------------------------------------- available values

  /** The values of the unanswered questions of a category, in list order. */
  function ValuesIn(b: Board, category: string): (r: seq<int>)
    ensures forall v :: v in r <==> exists i :: 0 <= i < |b| && Matches(b[i], category, v)
  {
    if |b| == 0 then []
    else
      var rest := ValuesIn(b[1..], category);
      assert forall i :: 1 <= i < |b| ==> b[i] == b[1..][i - 1];
      (if Offers(b[0], category) then [b[0].value.value] else []) + rest
  }

  predicate SortedAsc(s: seq<int>) {
    forall i, j :: 0 <= i < j < |s| ==> s[i] <= s[j]
  }

  function InsertAsc(x: int, s: seq<int>): (r: seq<int>)
    requires SortedAsc(s)
    ensures |r| == |s| + 1 && (r[0] == x || (|s| > 0 && r[0] == s[0]))
    ensures SortedAsc(r) && multiset(r) == multiset(s) + multiset{x}
  {
    if |s| == 0 || x <= s[0] then [x] + s
    else
      var rest := InsertAsc(x, s[1..]);
      assert s == [s[0]] + s[1..];
      assert s[0] <= rest[0];
      var r := [s[0]] + rest;
      assert forall j :: 0 <= j < |rest| ==> s[0] <= rest[j];
      assert forall j :: 1 <= j < |r| ==> r[j] == rest[j - 1];
      assert multiset(r) == multiset{s[0]} + multiset(rest);
      r
  }

  /** Collections.sort on a list of Integer: ascending, duplicates kept. */
  function SortAsc(s: seq<int>): (r: seq<int>)
    ensures SortedAsc(r) && multiset(r) == multiset(s)
  {
    if |s| == 0 then []
    else
      assert s == [s[0]] + s[1..];
      InsertAsc(s[0], SortAsc(s[1..]))
  }

  /** Two ascending sequences holding the same values are equal, so the
      sort's result is fully determined by its contract. */
  lemma {:induction false} SortedAscUnique(a: seq<int>, b: seq<int>)
    requires SortedAsc(a) && SortedAsc(b) && multiset(a) == multiset(b)
    ensures a == b
  {
    if |a| > 0 {
      assert |b| == |multiset(b)| == |multiset(a)| == |a|;
      assert a[0] == b[0] && a[1..] == b[1..] by {
        SameHead(a, b);
        DropHead(a);
        DropHead(b);
        SortedAscUnique(a[1..], b[1..]);
      }
      assert a == [a[0]] + a[1..] && b == [b[0]] + b[1..];
    }
  }

  /** Two sorted sequences with the same elements start with the same one: their minimum. */
  lemma SameHead(a: seq<int>, b: seq<int>)
    requires SortedAsc(a) && SortedAsc(b) && multiset(a) == multiset(b) && |a| > 0 && |b| > 0
    ensures a[0] == b[0]
  {
    assert a[0] in multiset(b) && b[0] in multiset(a);
    var i :| 0 <= i < |b| && b[i] == a[0];
    var j :| 0 <= j < |a| && a[j] == b[0];
  }

  lemma DropHead(a: seq<int>)
    requires |a| > 0
    ensures multiset(a[1..]) == multiset(a) - multiset{a[0]}
    ensures SortedAsc(a) ==> SortedAsc(a[1..])
  {
    assert a == [a[0]] + a[1..];
  }

  /** getAvailableValues: the sorted values of the category's unanswered questions. */
  function AvailableValues(b: Board, category: string): (r: seq<int>)
    ensures SortedAsc(r) && multiset(r) == multiset(ValuesIn(b, category))
    ensures forall v :: v in r <==> exists i :: 0 <= i < |b| && Matches(b[i], category, v)
  {
    var r := SortAsc(ValuesIn(b, category));
    forall v ensures v in r <==> v in ValuesIn(b, category) {
      assert v in r <==> v in multiset(r);
      assert v in ValuesIn(b, category) <==> v in multiset(ValuesIn(b, category));
    }
    r
  }

  /** An unknown or exhausted category offers no values. */
  lemma AvailableValuesEmpty(b: Board, category: string)
    requires forall i :: 0 <= i < |b| ==> !Offers(b[i], category)
    ensures AvailableValues(b, category) == []
  {
    ValuesInEmpty(b, category);
    assert |AvailableValues(b, category)| == |multiset(AvailableValues(b, category))|;
  }

  lemma {:induction false} ValuesInEmpty(b: Board, category: string)
    requires forall i :: 0 <= i < |b| ==> !Offers(b[i], category)
    ensures ValuesIn(b, category) == []
  {
    if |b| > 0 {
      assert forall i :: 0 <= i < |b| - 1 ==> b[1..][i] == b[i + 1];
      ValuesInEmpty(b[1..], category);
    }
  }

  // ---------------------------------------------------------------- lookup

  /** getQuestion: the first question in list order that is non-null, has
      the category, has the value and is unanswered. */
  function GetQuestion(b: Board, category: string, value: int): (r: Option<nat>)
    ensures r.Some? ==> r.value < |b| && Matches(b[r.value], category, value)
    ensures r.Some? ==> forall j :: 0 <= j < r.value ==> !Matches(b[j], category, value)
    ensures r.None? ==> forall j :: 0 <= j < |b| ==> !Matches(b[j], category, value)
  {
    if |b| == 0 then None
    else if Matches(b[0], category, value) then Some(0)
    else
      assert forall j :: 1 <= j < |b| ==> b[j] == b[1..][j - 1];
      match GetQuestion(b[1..], category, value)
      case None => None
      case Some(i) => Some(i + 1)
  }

  /** The question getQuestion hands back, or null. */
  function Lookup(b: Board, category: string, value: int): (r: Option<Question>)
    ensures r.Some? ==> r.value.category == category && r.value.value == value && !r.value.answered
  {
    match GetQuestion(b, category, value)
    case None => None
    case Some(i) => b[i]
  }

  // --------------------------------------------------------------- marking

  /** markAnswered(question): sets that question's flag; null (None), or a
      reference that is not a question of this board, changes nothing here. */
  function MarkAnswered(b: Board, at: Option<nat>): (r: Board)
    ensures |r| == |b|
    ensures forall j :: 0 <= j < |b| && at != Some(j) ==> r[j] == b[j]
    ensures at.Some? && at.value < |b| && b[at.value].Some? ==>
      r[at.value] == Some(b[at.value].value.MarkAnswered(true))
    ensures at.Some? && at.value < |b| && b[at.value].None? ==> r == b
  {
    if at.Some? && at.value < |b| && b[at.value].Some? then
      b[at.value := Some(b[at.value].value.MarkAnswered(true))]
    else b
  }

  lemma MarkAnsweredIdempotent(b: Board, at: Option<nat>)
    ensures MarkAnswered(MarkAnswered(b, at), at) == MarkAnswered(b, at)
  {
  }

  /** Marking never clears a flag: the board only ever gains answered questions. */
  lemma MarkAnsweredMonotone(b: Board, at: Option<nat>)
    ensures forall j :: 0 <= j < |b| && Answered(b[j]) ==> Answered(MarkAnswered(b, at)[j])
  {
  }

  /** markQuestionAsAnswered(category, value): marks whatever getQuestion
      returns for the pair (reconstructed: the board as shown only has
      markAnswered(Question)). */
  function MarkQuestionAsAnswered(b: Board, category: string, value: int): (r: Board)
    ensures |r| == |b|
    ensures GetQuestion(b, category, value).None? ==> r == b
    ensures GetQuestion(b, category, value).Some? ==>
      var i := GetQuestion(b, category, value).value;
      Answered(r[i]) && forall j :: 0 <= j < |b| && j != i ==> r[j] == b[j]
  {
    MarkAnswered(b, GetQuestion(b, category, value))
  }

  /** isBoardEmpty, reconstructed as allQuestionsAnswered: every non-null
      question is answered; vacuously true for an empty board. */
  function AllAnswered(b: Board): (r: bool)
    ensures r <==> forall i :: 0 <= i < |b| && b[i].Some? ==> b[i].value.answered
  {
    if |b| == 0 then true
    else
      assert forall i :: 1 <= i < |b| ==> b[i] == b[1..][i - 1];
      (b[0].None? || b[0].value.answered) && AllAnswered(b[1..])
  }

  // ---------------------------------------------------------------- lemmas

  /** The board is exhausted exactly when no (category, value) pair finds a question. */
  lemma ExhaustedIffNothingToFind(b: Board)
    ensures AllAnswered(b) <==> forall c, v :: GetQuestion(b, c, v).None?
  {
    if !AllAnswered(b) {
      var i :| 0 <= i < |b| && b[i].Some? && !b[i].value.answered;
      assert Matches(b[i], b[i].value.category, b[i].value.value);
      assert GetQuestion(b, b[i].value.category, b[i].value.value).Some?;
    }
  }

  /** A question, once marked, is never handed out again, whatever is asked. */
  lemma MarkedNeverFound(b: Board, i: nat, c: string, v: int)
    requires i < |b|
    ensures GetQuestion(MarkAnswered(b, Some(i)), c, v) != Some(i)
  {
  }

  /** Marking a question answered takes exactly one copy of its value out of
      its category's available values and leaves every other category alone. */
  lemma MarkRemovesOneValue(b: Board, i: nat, c: string)
    requires i < |b| && b[i].Some? && !b[i].value.answered
    ensures c == b[i].value.category ==>
      multiset(AvailableValues(MarkAnswered(b, Some(i)), c)) == multiset(AvailableValues(b, c)) - multiset{b[i].value.value}
    ensures c != b[i].value.category ==>
      AvailableValues(MarkAnswered(b, Some(i)), c) == AvailableValues(b, c)
  {
    var m := MarkAnswered(b, Some(i));
    assert b == b[..i] + [b[i]] + b[i + 1..];
    assert m == b[..i] + [m[i]] + b[i + 1..];
    ValuesInConcat(b[..i] + [b[i]], b[i + 1..], c);
    ValuesInConcat(b[..i], [b[i]], c);
    ValuesInConcat(b[..i] + [m[i]], b[i + 1..], c);
    ValuesInConcat(b[..i], [m[i]], c);
    assert ValuesIn([m[i]], c) == [] by {
      assert [m[i]][1..] == [];
    }
    assert [b[i]][1..] == [];
    if c != b[i].value.category {
      assert ValuesIn([b[i]], c) == [];
      assert ValuesIn(m, c) == ValuesIn(b, c);
    }
  }

  lemma {:induction false} ValuesInConcat(a: Board, b: Board, c: string)
    ensures ValuesIn(a + b, c) == ValuesIn(a, c) + ValuesIn(b, c)
  {
    if |a| > 0 {
      assert (a + b)[1..] == a[1..] + b;
      ValuesInConcat(a[1..], b, c);
    } else {
      assert a + b == b;
    }
  }

  /** Answered or not, a question keeps its category on the board. */
  lemma CategoriesIgnoreAnswered(b: Board, at: Option<nat>)
    ensures Categories(MarkAnswered(b, at)) == Categories(b)
  {
    var m := MarkAnswered(b, at);
    forall c | c in Categories(b) ensures c in Categories(m) {
      var i :| 0 <= i < |b| && b[i].Some? && b[i].value.category == c;
      assert m[i].Some? && m[i].value.category == c;
    }
    forall c | c in Categories(m) ensures c in Categories(b) {
      var i :| 0 <= i < |m| && m[i].Some? && m[i].value.category == c;
      assert b[i].Some? && b[i].value.category == c;
    }
  }

  /** A null entry anywhere in the list changes no query's answer. */
  lemma NullEntriesIgnored(b: Board, k: nat, c: string, v: int)
    requires k <= |b|
    ensures var b' := b[..k] + [None] + b[k..];
      && Categories(b') == Categories(b)
      && AvailableValues(b', c) == AvailableValues(b, c)
      && Lookup(b', c, v) == Lookup(b, c, v)
      && AllAnswered(b') == AllAnswered(b)
  {
    CategoriesSkipNull(b, k);
    ValuesSkipNull(b, k, c);
    LookupSkipsNull(b, k, c, v);
    AllAnsweredSkipsNull(b, k);
  }

  lemma ValuesSkipNull(b: Board, k: nat, c: string)
    requires k <= |b|
    ensures ValuesIn(b[..k] + [None] + b[k..], c) == ValuesIn(b, c)
  {
    var nul: Board := [None];
    ValuesInConcat(b[..k] + nul, b[k..], c);
    ValuesInConcat(b[..k], nul, c);
    ValuesInConcat(b[..k], b[k..], c);
    assert nul[1..] == [];
    assert ValuesIn(nul, c) == [];
    assert b[..k] + b[k..] == b;
  }

  lemma {:induction false} CategoriesSkipNull(b: Board, k: nat)
    requires k <= |b|
    ensures Categories(b[..k] + [None] + b[k..]) == Categories(b)
  {
    var b' := b[..k] + [None] + b[k..];
    if k == 0 {
      assert b'[1..] == b;
    } else {
      assert b'[0] == b[0];
      assert b'[1..] == b[1..][..k - 1] + [None] + b[1..][k - 1..];
      CategoriesSkipNull(b[1..], k - 1);
    }
  }

  lemma {:induction false} AllAnsweredSkipsNull(b: Board, k: nat)
    requires k <= |b|
    ensures AllAnswered(b[..k] + [None] + b[k..]) == AllAnswered(b)
  {
    var b' := b[..k] + [None] + b[k..];
    if k == 0 {
      assert b'[1..] == b;
    } else {
      assert b'[0] == b[0];
      assert b'[1..] == b[1..][..k - 1] + [None] + b[1..][k - 1..];
      AllAnsweredSkipsNull(b[1..], k - 1);
    }
  }

  lemma {:induction false} LookupSkipsNull(b: Board, k: nat, c: string, v: int)
    requires k <= |b|
    ensures Lookup(b[..k] + [None] + b[k..], c, v) == Lookup(b, c, v)
  {
    var b' := b[..k] + [None] + b[k..];
    if k == 0 {
      assert b' == [None] + b;
      assert b'[1..] == b;
    } else {
      assert b'[0] == b[0];
      if !Matches(b[0], c, v) {
        assert b'[1..] == b[1..][..k - 1] + [None] + b[1..][k - 1..];
        LookupSkipsNull(b[1..], k - 1, c, v);
      }
    }
  }

  /** markQuestionAsAnswered on a pair that only one unanswered question
      carries is idempotent. */
  lemma MarkByPairIdempotentWhenUnique(b: Board, c: string, v: int)
    requires forall i, j :: 0 <= i < j < |b| && Matches(b[i], c, v) ==> !Matches(b[j], c, v)
    ensures MarkQuestionAsAnswered(MarkQuestionAsAnswered(b, c, v), c, v) == MarkQuestionAsAnswered(b, c, v)
  {
    var m := MarkQuestionAsAnswered(b, c, v);
    match GetQuestion(b, c, v)
    case None =>
    case Some(i) =>
      assert forall j :: 0 <= j < |m| ==> !Matches(m[j], c, v);
      assert GetQuestion(m, c, v).None?;
  }

  /** With two unanswered questions on the same pair, a second
      markQuestionAsAnswered marks the second one. */
  lemma MarkByPairNotIdempotentOnDuplicates()
    ensures var q := NewQuestion("11", "Science", 100, "Q", "A", "B", "C", "D", "A");
      var b := [Some(q), Some(q.(id := "12"))];
      MarkQuestionAsAnswered(MarkQuestionAsAnswered(b, "Science", 100), "Science", 100)
        != MarkQuestionAsAnswered(b, "Science", 100)
  {
    var q := NewQuestion("11", "Science", 100, "Q", "A", "B", "C", "D", "A");
    var b := [Some(q), Some(q.(id := "12"))];
    assert GetQuestion(b, "Science", 100) == Some(0);
    var m := MarkQuestionAsAnswered(b, "Science", 100);
    assert GetQuestion(m, "Science", 100) == Some(1);
    assert MarkQuestionAsAnswered(m, "Science", 100)[1] != m[1];
  }
}
