/** The high-score table (src/scores.rs): player name to score, where a
    name, once recorded, is never overwritten. */
module ScoreTable {

  /** Rust's `u16`, the width of a stored score. */
  type u16 = x: int | 0 <= x < 0x1_0000

  /** `Result<(), ()>`: the insertion happened, or the name was taken. */
  datatype Result = Ok | Err

  class Scores {
    var scores: map<string, u16>

    /** Records `score` under `name` unless that name already has a score. */
    method NewScore(name: string, score: u16) returns (r: Result)
      modifies this
      ensures r == Err <==> name in old(scores)
      ensures r == Err ==> scores == old(scores)
      ensures r == Ok ==> scores == old(scores)[name := score]
      ensures scores.Keys == old(scores.Keys) + {name}
      ensures forall n :: n in old(scores) ==> n in scores && scores[n] == old(scores)[n]
      ensures name in scores
    {
      if name in scores {
        r := Err;
      } else {
        scores := scores[name := score];
        r := Ok;
      }
    }

    /** Two recordings under one name: the first may succeed, the second is
        always refused and keeps the first score. */
    method NewScoreTwice(name: string, first: u16, second: u16) returns (r1: Result, r2: Result)
      modifies this
      ensures r1 == Ok <==> name !in old(scores)
      ensures r2 == Err
      ensures r1 == Ok ==> scores == old(scores)[name := first]
      ensures r1 == Err ==> scores == old(scores)
    {
      r1 := NewScore(name, first);
      r2 := NewScore(name, second);
    }
  }
}
