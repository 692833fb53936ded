/** The leaderboard service of the current back end: the score formula,
    rank and score lookup, and saving a player's score. */
module ScoreService {
  import opened Lang
  import opened Text
  import opened ScoreRepository

  function HintPenalty(usedHint: bool): int {
    if usedHint then 100 else 0
  }

  /** The score before clamping: 100 per letter plus the time bonus, less
      25 per attempt and 100 for a hint. */
  function RawScore(timeBonus: int, attempts: int, usedHint: bool, wordLength: int): int {
    wordLength * 100 + timeBonus - attempts * 25 - HintPenalty(usedHint)
  }

  /** `calculateScore`, with the exponentially decaying time bonus taken as
      an input: the raw score clamped at zero. */
  function CalculateScore(timeBonus: int, attempts: int, usedHint: bool, wordLength: int): (r: int)
    ensures r >= 0
    ensures r >= RawScore(timeBonus, attempts, usedHint, wordLength)
    ensures r == 0 || r == RawScore(timeBonus, attempts, usedHint, wordLength)
  {
    var finalScore := RawScore(timeBonus, attempts, usedHint, wordLength);
    if finalScore > 0 then finalScore else 0
  }

  /** More attempts, a hint or a smaller time bonus never raise the score;
      a longer word never lowers it. */
  lemma CalculateScoreMonotone(timeBonus: int, timeBonus': int, attempts: int, attempts': int,
                               usedHint: bool, usedHint': bool, wordLength: int, wordLength': int)
    requires timeBonus' <= timeBonus && attempts' >= attempts && (usedHint ==> usedHint') && wordLength' <= wordLength
    ensures CalculateScore(timeBonus', attempts', usedHint', wordLength') <= CalculateScore(timeBonus, attempts, usedHint, wordLength)
  {
    assert HintPenalty(usedHint') >= HintPenalty(usedHint);
    assert RawScore(timeBonus', attempts', usedHint', wordLength') <= RawScore(timeBonus, attempts, usedHint, wordLength);
  }

  /** The position of the first entry whose nickname is exactly `nickname`. */
  function FirstExact(scores: seq<Score>, nickname: string): (r: Option<nat>)
    ensures r.None? <==> forall k :: 0 <= k < |scores| ==> scores[k].nickname != nickname
    ensures r.Some? ==> r.value < |scores| && scores[r.value].nickname == nickname
    ensures r.Some? ==> forall k :: 0 <= k < r.value ==> scores[k].nickname != nickname
  {
    if scores == [] then None
    else if scores[0].nickname == nickname then Some(0)
    else match FirstExact(scores[1..], nickname)
      case None => None
      case Some(i) => Some(i + 1)
  }

  function NicknameNotFound(nickname: string): Exception {
    ResponseStatus(NotFound, "Nickname " + nickname + " not found")
  }

  /** The answer of `savePlayerScore` over the list stored after saving:
      whether the score at the player's (exact-nickname) rank is the
      submitted one. */
  function SaveAnswer(saved: seq<Score>, nickname: string, score: int): (r: Result<bool>)
    ensures r.Err? <==> forall k :: 0 <= k < |saved| ==> saved[k].nickname != nickname
    ensures r.Err? ==> r.error == NicknameNotFound(nickname)
    ensures r == Ok(true) ==> Score(nickname, score) in saved
    ensures r == Ok(false) ==> exists k :: 0 <= k < |saved| && saved[k].nickname == nickname && saved[k].score != score
  {
    match FirstExact(saved, nickname)
    case None => Err(NicknameNotFound(nickname))
    case Some(i) => Ok(saved[i].score == score)
  }

  /** A score the repository accepted is reported as saved, as long as the
      board had one entry per nickname. */
  lemma AcceptedIsReported(scores: seq<Score>, nickname: string, score: int)
    requires NoDupKeys(scores)
    requires Save(scores, Score(nickname, score)).1
    ensures SaveAnswer(Save(scores, Score(nickname, score)).0, nickname, score) == Ok(true)
  {
    var s := Score(nickname, score);
    var saved := Save(scores, s).0;
    SaveCorrect(scores, s);
    SaveKeepsNoDup(scores, s);
    NoDupKeysMeans(saved);
    var j :| 0 <= j < |saved| && saved[j] == s;
    var i := FirstExact(saved, nickname).value;
    assert EqualsIgnoreCase(saved[i].nickname, saved[j].nickname);
    assert i == j;
  }

  /** Resubmitting the stored score under the same nickname changes nothing
      and is still reported as saved. */
  lemma EqualScoreIsReported(scores: seq<Score>, nickname: string, score: int)
    requires NoDupKeys(scores)
    requires Score(nickname, score) in scores
    ensures Save(scores, Score(nickname, score)) == (scores, false)
    ensures SaveAnswer(scores, nickname, score) == Ok(true)
  {
    var s := Score(nickname, score);
    NoDupKeysMeans(scores);
    var j :| 0 <= j < |scores| && scores[j] == s;
    var m := FirstMatch(scores, nickname).value;
    assert EqualsIgnoreCase(scores[m].nickname, scores[j].nickname);
    assert m == j;
    var i := FirstExact(scores, nickname).value;
    assert EqualsIgnoreCase(scores[i].nickname, scores[j].nickname);
    assert i == j;
  }

  /** Saving ignores case but the rank lookup does not: a case variant of a
      stored nickname whose score is not better is rejected, and then the
      lookup finds no such nickname. */
  lemma CaseVariantNotFound(scores: seq<Score>, nickname: string, score: int)
    requires NoDupKeys(scores)
    requires FirstMatch(scores, nickname).Some?
    requires scores[FirstMatch(scores, nickname).value].nickname != nickname
    requires score <= scores[FirstMatch(scores, nickname).value].score
    ensures Save(scores, Score(nickname, score)) == (scores, false)
    ensures SaveAnswer(scores, nickname, score) == Err(NicknameNotFound(nickname))
  {
    NoDupKeysMeans(scores);
    var m := FirstMatch(scores, nickname).value;
    forall k | 0 <= k < |scores| ensures scores[k].nickname != nickname {
      if k < m {
        assert !EqualsIgnoreCase(scores[k].nickname, nickname);
      } else if k > m {
        assert !EqualsIgnoreCase(scores[m].nickname, scores[k].nickname);
        assert EqualsIgnoreCase(scores[m].nickname, nickname);
      }
    }
  }

  /** A lower score under the stored nickname is rejected and reported as
      not saved. */
  lemma LowerScoreIsRejected(scores: seq<Score>, nickname: string, score: int)
    requires NoDupKeys(scores)
    requires FirstMatch(scores, nickname).Some?
    requires scores[FirstMatch(scores, nickname).value].nickname == nickname
    requires score < scores[FirstMatch(scores, nickname).value].score
    ensures Save(scores, Score(nickname, score)) == (scores, false)
    ensures SaveAnswer(scores, nickname, score) == Ok(false)
  {
    var m := FirstMatch(scores, nickname).value;
    assert FirstExact(scores, nickname) == Some(m);
  }

  class ScoreService {
    const repo: ScoreRepository

    constructor(repo: ScoreRepository)
      ensures this.repo == repo
    {
      this.repo := repo;
    }

    /** `getPlayersRank`: one plus the position of the first entry with
        exactly that nickname; a missing nickname is a 404. */
    method GetPlayersRank(nickname: string) returns (r: Result<int>)
      ensures r == match FirstExact(repo.scores, nickname)
        case None => Err(NicknameNotFound(nickname))
        case Some(i) => Ok(i + 1)
    {
      var scores := repo.GetAllScores();
      var i := 0;
      while i < |scores|
        invariant 0 <= i <= |scores|
        invariant forall k :: 0 <= k < i ==> scores[k].nickname != nickname
      {
        if scores[i].nickname == nickname {
          assert FirstExact(scores, nickname) == Some(i);
          return Ok(i + 1);
        }
        i := i + 1;
      }
      return Err(NicknameNotFound(nickname));
    }

    /** `getPlayersScore`: a negative index is an illegal argument, one past
        the board a 404, otherwise the score there. */
    method GetPlayersScore(index: int) returns (r: Result<int>)
      ensures index < 0 ==> r == Err(IllegalArgument("Index " + IntToString(index) + " is negative"))
      ensures index >= 0 && index >= |repo.scores| ==> r == Err(ResponseStatus(NotFound, "Index " + IntToString(index) + " is out of bounds"))
      ensures 0 <= index < |repo.scores| ==> r == Ok(repo.scores[index].score)
    {
      if index < 0 {
        return Err(IllegalArgument("Index " + IntToString(index) + " is negative"));
      }
      var scores := repo.GetAllScores();
      if index >= |scores| {
        return Err(ResponseStatus(NotFound, "Index " + IntToString(index) + " is out of bounds"));
      }
      return Ok(scores[index].score);
    }

    /** `savePlayerScore`: saves, then reports whether the board shows the
        submitted score at the player's rank. */
    method SavePlayerScore(nickname: string, score: int) returns (r: Result<bool>)
      modifies repo
      ensures repo.scores == Save(old(repo.scores), Score(nickname, score)).0
      ensures r == SaveAnswer(repo.scores, nickname, score)
    {
      var _ := repo.SaveScore(Score(nickname, score));
      var rank := GetPlayersRank(nickname);
      if rank.Err? {
        return Err(rank.error);
      }
      var leaderboardScore := GetPlayersScore(rank.value - 1);
      r := match leaderboardScore
        case Ok(v) => Ok(v == score)
        case Err(e) => Err(e);
    }
  }
}
