/** The leaderboard service of the older back-end package: an all-integer
    score formula, and saving and top-N lookup handed to the store. The
    store it is written against is not part of this model; it is taken to
    behave as the current leaderboard store. */
module LegacyScoreService {
  import opened Lang
  import opened ScoreRepository
  import Current = ScoreService

  /** `Math.max(0, 500 - timeTakenSeconds * 2)`. */
  function TimeBonus(timeTakenSeconds: int): (b: int)
    ensures b >= 0
    ensures b >= 500 - timeTakenSeconds * 2
    ensures b == 0 || b == 500 - timeTakenSeconds * 2
  {
    var raw := 500 - timeTakenSeconds * 2;
    if raw > 0 then raw else 0
  }

  /** The bonus lies in [0, 500] for any non-negative time, is 0 from 250
      seconds on, and never grows with the time. */
  lemma TimeBonusRange(t: int, t': int)
    ensures t >= 0 ==> 0 <= TimeBonus(t) <= 500
    ensures t >= 250 ==> TimeBonus(t) == 0
    ensures t <= t' ==> TimeBonus(t') <= TimeBonus(t)
  {
  }

  /** `calculateScore(timeTakenSeconds, attempts, usedHint, wordLength)`:
      the current formula with this bonus in place of the exponential one. */
  function CalculateScore(timeTakenSeconds: int, attempts: int, usedHint: bool, wordLength: int): (r: int)
    ensures r >= 0
    ensures r == Current.CalculateScore(TimeBonus(timeTakenSeconds), attempts, usedHint, wordLength)
  {
    var baseScore := wordLength * 100;
    var timeBonus := TimeBonus(timeTakenSeconds);
    var attemptsPenalty := attempts * 25;
    var hintPenalty := if usedHint then 100 else 0;
    var finalScore := baseScore + timeBonus - attemptsPenalty - hintPenalty;
    if finalScore > 0 then finalScore else 0
  }

  /** The score never grows with the time taken or the attempts used, and
      a hint never raises it. */
  lemma CalculateScoreNonIncreasing(t: int, t': int, attempts: int, attempts': int, usedHint: bool, wordLength: int)
    requires t <= t' && attempts <= attempts'
    ensures CalculateScore(t', attempts', usedHint, wordLength) <= CalculateScore(t, attempts, usedHint, wordLength)
    ensures CalculateScore(t, attempts, true, wordLength) <= CalculateScore(t, attempts, false, wordLength)
  {
    TimeBonusRange(t, t');
    Current.CalculateScoreMonotone(TimeBonus(t), TimeBonus(t'), attempts, attempts', usedHint, usedHint, wordLength, wordLength);
    Current.CalculateScoreMonotone(TimeBonus(t), TimeBonus(t), attempts, attempts, false, true, wordLength, wordLength);
  }

  class ScoreService {
    const repo: ScoreRepository

    constructor(repo: ScoreRepository)
      ensures this.repo == repo
    {
      this.repo := repo;
    }

    /** `savePlayerScore`: exactly the store's `saveScore` on the new score. */
    method SavePlayerScore(nickname: string, score: int) returns (saved: bool)
      modifies repo
      ensures (repo.scores, saved) == Save(old(repo.scores), Score(nickname, score))
    {
      saved := repo.SaveScore(Score(nickname, score));
    }

    /** `getTopScores`: exactly the store's `getTopScores`. */
    method GetTopScores(limit: int) returns (r: Result<seq<Score>>)
      ensures r == TopScores(repo.scores, limit)
    {
      r := repo.GetTopScores(limit);
    }
  }
}
