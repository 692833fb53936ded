/** The leaderboard store of the current back end: at most one score per
    nickname (ignoring case), the better score kept, and the list sorted by
    descending score after every change. The scores file is modelled as the
    `scores` field. */
module ScoreRepository {
  import opened Lang
  import opened Text

  datatype Score = Score(nickname: string, score: int)

  /** Nicknames compare ignoring case. */
  function Key(s: Score): string {
    ToLower(s.nickname)
  }

  // ---------------------------------------------------------------------
  // `scores.sort(comparingInt(Score::getScore).reversed())`: a stable sort
  // by descending score.

  predicate SortedDesc(s: seq<Score>) {
    forall i, j :: 0 <= i < j < |s| ==> s[i].score >= s[j].score
  }

  /** Inserts `x` before the first element whose score is not above its own. */
  function Insert(x: Score, t: seq<Score>): (r: seq<Score>)
    ensures |r| == |t| + 1
  {
    if t == [] || t[0].score <= x.score then [x] + t
    else [t[0]] + Insert(x, t[1..])
  }

  function SortDesc(s: seq<Score>): (r: seq<Score>)
    ensures |r| == |s|
  {
    if s == [] then [] else Insert(s[0], SortDesc(s[1..]))
  }

  /** The entries with score `v`, in order: a stable sort keeps it. */
  function WithScore(s: seq<Score>, v: int): seq<Score> {
    if s == [] then []
    else (if s[0].score == v then [s[0]] else []) + WithScore(s[1..], v)
  }

  lemma {:induction false} InsertPermutes(x: Score, t: seq<Score>)
    ensures multiset(Insert(x, t)) == multiset(t) + multiset{x}
  {
    if t != [] && t[0].score > x.score {
      InsertPermutes(x, t[1..]);
      assert t == [t[0]] + t[1..];
    }
  }

  lemma SortedCons(a: Score, r: seq<Score>)
    requires SortedDesc(r)
    requires forall y :: y in r ==> y.score <= a.score
    ensures SortedDesc([a] + r)
  {
    forall i, j | 0 <= i < j < |[a] + r|
      ensures ([a] + r)[i].score >= ([a] + r)[j].score
    {
      if i == 0 {
        assert ([a] + r)[j] == r[j - 1];
        assert r[j - 1] in r;
      } else {
        assert ([a] + r)[i] == r[i - 1] && ([a] + r)[j] == r[j - 1];
      }
    }
  }

  lemma {:induction false} InsertSorted(x: Score, t: seq<Score>)
    requires SortedDesc(t)
    ensures SortedDesc(Insert(x, t))
  {
    if t == [] || t[0].score <= x.score {
      forall y | y in t ensures y.score <= x.score {
        var k :| 0 <= k < |t| && t[k] == y;
        assert t[0].score >= t[k].score;
      }
      SortedCons(x, t);
    } else {
      var rest := t[1..];
      assert SortedDesc(rest) by {
        forall i, j | 0 <= i < j < |rest| ensures rest[i].score >= rest[j].score {
          assert rest[i] == t[i + 1] && rest[j] == t[j + 1];
        }
      }
      InsertSorted(x, rest);
      InsertPermutes(x, rest);
      forall y | y in Insert(x, rest) ensures y.score <= t[0].score {
        assert y in multiset(Insert(x, rest));
        if y != x {
          assert y in multiset(rest);
          var k :| 0 <= k < |rest| && rest[k] == y;
          assert t[k + 1] == y;
        }
      }
      SortedCons(t[0], Insert(x, rest));
    }
  }

  lemma WithScoreCons(a: Score, r: seq<Score>, v: int)
    ensures WithScore([a] + r, v) == (if a.score == v then [a] else []) + WithScore(r, v)
  {
    assert ([a] + r)[1..] == r;
  }

  lemma {:induction false} InsertStable(x: Score, t: seq<Score>, v: int)
    ensures WithScore(Insert(x, t), v) == (if x.score == v then [x] else []) + WithScore(t, v)
  {
    if t == [] || t[0].score <= x.score {
      WithScoreCons(x, t, v);
    } else {
      var mine: seq<Score> := if x.score == v then [x] else [];
      var head: seq<Score> := if t[0].score == v then [t[0]] else [];
      InsertStable(x, t[1..], v);
      WithScoreCons(t[0], Insert(x, t[1..]), v);
      WithScoreCons(t[0], t[1..], v);
      assert t == [t[0]] + t[1..];
      assert mine == [] || head == [];
      assert head + mine == mine + head;
      calc {
        WithScore(Insert(x, t), v);
        head + WithScore(Insert(x, t[1..]), v);
        head + (mine + WithScore(t[1..], v));
        mine + (head + WithScore(t[1..], v));
        mine + WithScore(t, v);
      }
    }
  }

  /** The sort orders by descending score, permutes, and keeps the order of
      entries with equal scores. */
  lemma SortDescCorrect(s: seq<Score>)
    ensures SortedDesc(SortDesc(s))
    ensures multiset(SortDesc(s)) == multiset(s)
    ensures forall v :: WithScore(SortDesc(s), v) == WithScore(s, v)
  {
    SortDescSorted(s);
    SortDescPermutes(s);
    forall v ensures WithScore(SortDesc(s), v) == WithScore(s, v) {
      SortDescStable(s, v);
    }
  }

  lemma {:induction false} SortDescSorted(s: seq<Score>)
    ensures SortedDesc(SortDesc(s))
  {
    if s != [] {
      SortDescSorted(s[1..]);
      InsertSorted(s[0], SortDesc(s[1..]));
    }
  }

  lemma {:induction false} SortDescPermutes(s: seq<Score>)
    ensures multiset(SortDesc(s)) == multiset(s)
  {
    if s != [] {
      SortDescPermutes(s[1..]);
      InsertPermutes(s[0], SortDesc(s[1..]));
      assert s == [s[0]] + s[1..];
    }
  }

  lemma {:induction false} SortDescStable(s: seq<Score>, v: int)
    ensures WithScore(SortDesc(s), v) == WithScore(s, v)
  {
    if s != [] {
      SortDescStable(s[1..], v);
      InsertStable(s[0], SortDesc(s[1..]), v);
    }
  }

  /** Sorting an already sorted list changes nothing, so the defensive sort
      of `getTopScores` is a no-op on a list `saveScore` wrote. */
  lemma {:induction false} SortDescOfSorted(s: seq<Score>)
    requires SortedDesc(s)
    ensures SortDesc(s) == s
  {
    if s != [] {
      var rest := s[1..];
      assert SortedDesc(rest) by {
        forall i, j | 0 <= i < j < |rest| ensures rest[i].score >= rest[j].score {
          assert rest[i] == s[i + 1] && rest[j] == s[j + 1];
        }
      }
      SortDescOfSorted(rest);
      if rest != [] {
        assert rest[0] == s[1];
        assert s[1].score <= s[0].score;
      }
      assert s == [s[0]] + rest;
    }
  }

  // ---------------------------------------------------------------------
  // One score per nickname

  /** No two entries have nicknames equal ignoring case. */
  predicate NoDupKeys(s: seq<Score>)
    decreases |s|
  {
    s == [] || ((forall y :: y in s[1..] ==> Key(y) != Key(s[0])) && NoDupKeys(s[1..]))
  }

  /** The same, position by position. */
  lemma {:induction false} NoDupKeysMeans(s: seq<Score>)
    requires NoDupKeys(s)
    ensures forall i, j :: 0 <= i < j < |s| ==> !EqualsIgnoreCase(s[i].nickname, s[j].nickname)
  {
    if s != [] {
      NoDupKeysMeans(s[1..]);
      forall i, j | 0 <= i < j < |s| ensures !EqualsIgnoreCase(s[i].nickname, s[j].nickname) {
        assert s[j] == s[1..][j - 1] && s[1..][j - 1] in s[1..];
        if i > 0 {
          assert s[i] == s[1..][i - 1];
        }
      }
    }
  }

  lemma {:induction false} InsertKeepsNoDup(x: Score, t: seq<Score>)
    requires NoDupKeys(t)
    requires forall y :: y in t ==> Key(y) != Key(x)
    ensures NoDupKeys(Insert(x, t))
  {
    if t == [] || t[0].score <= x.score {
      assert ([x] + t)[1..] == t;
    } else {
      InsertKeepsNoDup(x, t[1..]);
      InsertPermutes(x, t[1..]);
      var r := [t[0]] + Insert(x, t[1..]);
      assert r[1..] == Insert(x, t[1..]);
      forall y | y in r[1..] ensures Key(y) != Key(t[0]) {
        assert y in multiset(Insert(x, t[1..]));
        if y != x {
          assert y in multiset(t[1..]);
        }
      }
    }
  }

  lemma {:induction false} SortDescKeepsNoDup(s: seq<Score>)
    requires NoDupKeys(s)
    ensures NoDupKeys(SortDesc(s))
  {
    if s != [] {
      SortDescKeepsNoDup(s[1..]);
      SortDescCorrect(s[1..]);
      forall y | y in SortDesc(s[1..]) ensures Key(y) != Key(s[0]) {
        assert y in multiset(SortDesc(s[1..]));
      }
      InsertKeepsNoDup(s[0], SortDesc(s[1..]));
    }
  }

  lemma {:induction false} ReplaceKeepsNoDup(s: seq<Score>, i: nat, x: Score)
    requires NoDupKeys(s) && i < |s| && Key(x) == Key(s[i])
    ensures NoDupKeys(s[i := x])
  {
    if i == 0 {
      assert s[i := x][1..] == s[1..];
    } else {
      ReplaceKeepsNoDup(s[1..], i - 1, x);
      assert s[i := x][1..] == s[1..][i - 1 := x];
      assert s[i] in s[1..] by {
        assert s[i] == s[1..][i - 1];
      }
      forall y | y in s[1..][i - 1 := x] ensures Key(y) != Key(s[0]) {
        var k :| 0 <= k < |s[1..][i - 1 := x]| && s[1..][i - 1 := x][k] == y;
        if k != i - 1 {
          assert y in s[1..];
        }
      }
    }
  }

  lemma {:induction false} AppendKeepsNoDup(s: seq<Score>, x: Score)
    requires NoDupKeys(s)
    requires forall k :: 0 <= k < |s| ==> !EqualsIgnoreCase(s[k].nickname, x.nickname)
    ensures NoDupKeys(s + [x])
  {
    if s == [] {
      assert s + [x] == [x];
    } else {
      assert (s + [x])[1..] == s[1..] + [x];
      forall k | 0 <= k < |s[1..]| ensures !EqualsIgnoreCase(s[1..][k].nickname, x.nickname) {
        assert s[1..][k] == s[k + 1];
      }
      AppendKeepsNoDup(s[1..], x);
      assert s[0] == s[0];
      assert !EqualsIgnoreCase(s[0].nickname, x.nickname);
    }
  }

  // ---------------------------------------------------------------------
  // `saveScore` on values

  /** The position of the first entry whose nickname equals `nickname`
      ignoring case. */
  function FirstMatch(scores: seq<Score>, nickname: string): (r: Option<nat>)
    ensures r.None? <==> forall k :: 0 <= k < |scores| ==> !EqualsIgnoreCase(scores[k].nickname, nickname)
    ensures r.Some? ==> r.value < |scores| && EqualsIgnoreCase(scores[r.value].nickname, nickname)
    ensures r.Some? ==> forall k :: 0 <= k < r.value ==> !EqualsIgnoreCase(scores[k].nickname, nickname)
  {
    if scores == [] then None
    else if EqualsIgnoreCase(scores[0].nickname, nickname) then Some(0)
    else match FirstMatch(scores[1..], nickname)
      case None => None
      case Some(i) => Some(i + 1)
  }

  /** The list `saveScore` sorts before writing it: the first match replaced
      by the new score, or the new score appended when there is no match. */
  function Updated(scores: seq<Score>, s: Score): seq<Score> {
    match FirstMatch(scores, s.nickname)
    case Some(i) => scores[i := s]
    case None => scores + [s]
  }

  /** Whether `saveScore` writes: no entry for the nickname yet, or a
      strictly better score than the stored one. */
  predicate Improves(scores: seq<Score>, s: Score) {
    match FirstMatch(scores, s.nickname)
    case Some(i) => s.score > scores[i].score
    case None => true
  }

  /** `saveScore(newScore)`: the new stored list and the answer. */
  function Save(scores: seq<Score>, s: Score): (r: (seq<Score>, bool))
    ensures r.1 <==> Improves(scores, s)
    ensures !r.1 ==> r.0 == scores
    ensures r.1 ==> |r.0| == |scores| + (if FirstMatch(scores, s.nickname).None? then 1 else 0)
  {
    if Improves(scores, s) then (SortDesc(Updated(scores, s)), true) else (scores, false)
  }

  /** What `saveScore` promises: true exactly when the score improves the
      board, in which case the stored list is the updated list sorted (a
      stable permutation of it) and holds the new score; otherwise nothing
      changes. */
  lemma SaveCorrect(scores: seq<Score>, s: Score)
    ensures var (saved, ok) := Save(scores, s);
      && (ok <==> Improves(scores, s))
      && (!ok ==> saved == scores)
      && (ok ==> SortedDesc(saved) && multiset(saved) == multiset(Updated(scores, s)) && s in saved)
      && (ok ==> forall v :: WithScore(saved, v) == WithScore(Updated(scores, s), v))
  {
    SortDescCorrect(Updated(scores, s));
    var u := Updated(scores, s);
    match FirstMatch(scores, s.nickname)
    case Some(i) =>
      assert u[i] == s;
      assert s in multiset(u);
    case None =>
      assert u[|scores|] == s;
      assert s in multiset(u);
  }

  /** A nickname already on the board (ignoring case) never gets a second
      entry: the length stays, and so does the absence of duplicates. */
  lemma SaveKeepsNoDup(scores: seq<Score>, s: Score)
    requires NoDupKeys(scores)
    ensures NoDupKeys(Save(scores, s).0)
    ensures FirstMatch(scores, s.nickname).Some? ==> |Save(scores, s).0| == |scores|
  {
    if Improves(scores, s) {
      match FirstMatch(scores, s.nickname) {
        case Some(i) => ReplaceKeepsNoDup(scores, i, s);
        case None => AppendKeepsNoDup(scores, s);
      }
      SortDescKeepsNoDup(Updated(scores, s));
    }
  }

  /** `getTopScores(limit)`: the list sorted by descending score and cut at
      `limit`; a negative limit makes `subList` throw. */
  function TopScores(scores: seq<Score>, limit: int): (r: Result<seq<Score>>)
    ensures r.Err? <==> limit < 0
    ensures r.Ok? ==> |r.value| == if |scores| <= limit then |scores| else limit
  {
    var sorted := SortDesc(scores);
    if |sorted| <= limit then Ok(sorted)
    else if limit < 0 then Err(IllegalArgument("fromIndex(0) > toIndex(" + IntToString(limit) + ")"))
    else Ok(sorted[..limit])
  }

  /** The top scores are `min(size, limit)` entries, sorted; together
      with the entries left out they are exactly the stored ones, and no entry
      left out scores above one returned. */
  lemma TopScoresCorrect(scores: seq<Score>, limit: int)
    ensures limit < 0 <==> TopScores(scores, limit).Err?
    ensures limit >= 0 ==>
      var top, rest := TopScores(scores, limit).value, SortDesc(scores)[|TopScores(scores, limit).value|..];
      && |top| == (if |scores| <= limit then |scores| else limit)
      && SortedDesc(top)
      && multiset(top) + multiset(rest) == multiset(scores)
      && forall y, z :: y in top && z in rest ==> y.score >= z.score
  {
    SortDescCorrect(scores);
    if limit >= 0 {
      var sorted := SortDesc(scores);
      var m := if |scores| <= limit then |scores| else limit;
      assert TopScores(scores, limit).value == sorted[..m];
      PrefixIsTop(sorted, m);
    }
  }

  /** A prefix of a sorted list holds the highest scores of the list. */
  lemma PrefixIsTop(sorted: seq<Score>, m: nat)
    requires SortedDesc(sorted) && m <= |sorted|
    ensures SortedDesc(sorted[..m])
    ensures multiset(sorted[..m]) + multiset(sorted[m..]) == multiset(sorted)
    ensures forall y, z :: y in sorted[..m] && z in sorted[m..] ==> y.score >= z.score
  {
    assert sorted == sorted[..m] + sorted[m..];
    forall y, z | y in sorted[..m] && z in sorted[m..] ensures y.score >= z.score {
      var i :| 0 <= i < m && sorted[..m][i] == y;
      var j :| 0 <= j < |sorted| - m && sorted[m..][j] == z;
      assert sorted[i] == y && sorted[m + j] == z;
    }
  }

  class ScoreRepository {
    var scores: seq<Score>

    /** A missing or empty scores file reads as the empty list. */
    constructor()
      ensures scores == []
    {
      scores := [];
    }

    /** `getAllScores`. */
    method GetAllScores() returns (all: seq<Score>)
      ensures all == scores
    {
      all := scores;
    }

    /** `saveScore(newScore)`: scans for the first entry with the nickname
        ignoring case, replaces it if the new score is higher, otherwise
        appends when the player is absent, and sorts what it writes. */
    method SaveScore(newScore: Score) returns (updated: bool)
      modifies this
      ensures (scores, updated) == Save(old(scores), newScore)
    {
      var list := scores;
      updated := false;
      ghost var at: Option<nat> := None;
      var i := 0;
      while i < |list|
        invariant 0 <= i <= |list|
        invariant list == scores && !updated && at == None
        invariant forall k :: 0 <= k < i ==> !EqualsIgnoreCase(scores[k].nickname, newScore.nickname)
      {
        if EqualsIgnoreCase(list[i].nickname, newScore.nickname) {
          at := Some(i);
          if newScore.score > list[i].score {
            list := list[i := newScore];
            updated := true;
          }
          break;
        }
        i := i + 1;
      }
      assert at == FirstMatch(scores, newScore.nickname);
      if !updated {
        var present := PlayerExists(list, newScore.nickname);
        if !present {
          list := list + [newScore];
          updated := true;
        }
      }
      if updated {
        scores := SortDesc(list);
      }
    }

    /** `getTopScores(limit)`; the sorted copy is not written back. */
    method GetTopScores(limit: int) returns (r: Result<seq<Score>>)
      ensures r == TopScores(scores, limit)
    {
      var all := GetAllScores();
      var sorted := SortDesc(all);
      if |sorted| <= limit {
        return Ok(sorted);
      }
      if limit < 0 {
        return Err(IllegalArgument("fromIndex(0) > toIndex(" + IntToString(limit) + ")"));
      }
      return Ok(sorted[..limit]);
    }
  }

  /** `playerExists(scores, nickname)`: some entry has the nickname,
      ignoring case. */
  method PlayerExists(scores: seq<Score>, nickname: string) returns (found: bool)
    ensures found <==> exists k :: 0 <= k < |scores| && EqualsIgnoreCase(scores[k].nickname, nickname)
  {
    var i := 0;
    while i < |scores|
      invariant 0 <= i <= |scores|
      invariant forall k :: 0 <= k < i ==> !EqualsIgnoreCase(scores[k].nickname, nickname)
    {
      if EqualsIgnoreCase(scores[i].nickname, nickname) {
        return true;
      }
      i := i + 1;
    }
    return false;
  }
}
