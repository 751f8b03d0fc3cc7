/** A player: a name fixed at construction and an integer score. The Java
    identity number (System.identityHashCode) is not modelled. */
module Players {
  import opened Wrappers
  import opened Text

  datatype Player = Player(name: string, score: int) {

    /** addScore: adds points of either sign, with no clamping. */
    function AddScore(points: int): (r: Player)
      ensures r.name == name
      ensures r.score - score == points
    {
      this.(score := score + points)
    }

    /** subtractScore: deducts points but never goes below zero. */
    function SubtractScore(points: int): (r: Player)
      ensures r.name == name
      ensures r.score >= 0
      ensures r.score >= score - points
      ensures r.score == score - points || r.score == 0
    {
      this.(score := if score - points > 0 then score - points else 0)
    }

    /** toString: the name, then " (Score: ", the decimal score and ")". */
    function ToString(): (r: string)
      ensures |r| == |name| + |ScoreLabel| + |IntToString(score)| + 1
      ensures r[..|name|] == name
      ensures r[|name|..|name| + |ScoreLabel|] == ScoreLabel && r[|r| - 1] == ')'
    {
      name + ScoreLabel + IntToString(score) + ")"
    }
  }

  const ScoreLabel: string := " (Score: "

  /** The Player constructor: the given name and a score of zero. */
  function NewPlayer(name: string): (p: Player)
    ensures p.name == name && p.score == 0
  {
    Player(name, 0)
  }

  /** The score printed by toString reads back as the score. */
  lemma ToStringScoreRoundTrip(p: Player)
    requires InInt32(p.score)
    ensures var r := p.ToString(); ParseInt(r[|p.name| + |ScoreLabel|..|r| - 1]) == Some(p.score)
  {
    var r := p.ToString();
    assert r[|p.name| + |ScoreLabel|..|r| - 1] == IntToString(p.score);
    ParseIntRoundTrip(p.score);
  }

  /** A run of addScore calls adds up: the score is the sum of the deltas. */
  function Sum(deltas: seq<int>): int {
    if |deltas| == 0 then 0 else Sum(deltas[..|deltas| - 1]) + deltas[|deltas| - 1]
  }

  function AddAll(p: Player, deltas: seq<int>): Player {
    if |deltas| == 0 then p else AddAll(p, deltas[..|deltas| - 1]).AddScore(deltas[|deltas| - 1])
  }

  lemma {:induction false} AddAllIsSum(p: Player, deltas: seq<int>)
    ensures AddAll(p, deltas).score == p.score + Sum(deltas)
    ensures AddAll(p, deltas).name == p.name
  {
    if |deltas| > 0 {
      AddAllIsSum(p, deltas[..|deltas| - 1]);
    }
  }

  /** subtractScore agrees with addScore of the negated points exactly when
      the deduction does not cross zero; below that it clamps. */
  lemma SubtractVersusAdd(p: Player, points: int)
    ensures p.SubtractScore(points) == p.AddScore(-points) <==> p.score - points >= 0
  {
  }
}
