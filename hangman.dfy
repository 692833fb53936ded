/** The letter-guess game of the game page: the initial round state, the
    transition applied when a letter key is pressed, and the rule that
    decides whether a key is disabled and how it is coloured. */
module Hangman {
  import opened Lang
  import opened Text

  datatype Status = Playing | Won | Lost

  /** The round record the page keeps in its state. */
  datatype GameState = GameState(
    word: string,
    hiddenWord: seq<char>,
    guessedLetters: seq<char>,
    remainingAttempts: int,
    gameStatus: Status)

  const MaxAttempts: int := 6
  const Blank: char := '_'

  /** The state the page starts from; `None` is a missing word. */
  function InitialState(word: Option<string>): (r: GameState)
    ensures |r.hiddenWord| == |r.word| && IsLowerCase(r.word)
    ensures word.Some? ==> EqualsIgnoreCase(r.word, word.value)
    ensures word.None? ==> r.word == ""
    ensures forall i :: 0 <= i < |r.hiddenWord| ==> r.hiddenWord[i] == Blank
    ensures r.guessedLetters == [] && r.remainingAttempts == MaxAttempts && r.gameStatus == Playing
  {
    var w := if word.Some? then word.value else "";
    ToLowerIsLowerCase(w);
    ToLowerIdempotent(w);
    GameState(ToLower(w), seq(|w|, _ => Blank), [], MaxAttempts, Playing)
  }

  /** The hidden word after `guessed`: a position shows its character when
      that character was guessed or is a space, and keeps its old value otherwise. */
  function Reveal(word: string, hidden: seq<char>, guessed: seq<char>): (r: seq<char>)
    requires |hidden| == |word|
    ensures |r| == |word|
  {
    seq(|word|, i requires 0 <= i < |word| =>
      if word[i] in guessed || word[i] == ' ' then word[i] else hidden[i])
  }

  /** Pressing the key for `letter`. A guess while the round is over, or of a
      letter already guessed, changes nothing. */
  function HandleGuess(s: GameState, letter: char): (r: GameState)
    requires |s.hiddenWord| == |s.word|
    ensures r.word == s.word && |r.hiddenWord| == |r.word|
  {
    if s.gameStatus != Playing || letter in s.guessedLetters then s
    else
      var guessed := s.guessedLetters + [letter];
      var hidden := Reveal(s.word, s.hiddenWord, guessed);
      var remaining := if letter in s.word then s.remainingAttempts else s.remainingAttempts - 1;
      var status := if remaining == 0 then Lost else if Blank !in hidden then Won else Playing;
      s.(hiddenWord := hidden, guessedLetters := guessed,
         remainingAttempts := remaining, gameStatus := status)
  }

  /** The state after pressing the keys `letters` in order. */
  function Play(s: GameState, letters: seq<char>): (r: GameState)
    requires |s.hiddenWord| == |s.word|
    ensures r.word == s.word && |r.hiddenWord| == |r.word|
    decreases |letters|
  {
    if letters == [] then s else Play(HandleGuess(s, letters[0]), letters[1..])
  }

  // ---------------------------------------------------------------------
  // The invariant of every reachable state

  predicate NoDuplicates(g: seq<char>) {
    forall i, j :: 0 <= i < j < |g| ==> g[i] != g[j]
  }

  /** How many of the guessed letters do not occur in the word. */
  function Misses(word: string, guessed: seq<char>): nat {
    if guessed == [] then 0
    else Misses(word, guessed[..|guessed| - 1]) + (if guessed[|guessed| - 1] in word then 0 else 1)
  }

  /** What a position holding `c` shows after the guesses `guessed`: spaces
      appear with the first guess, other characters once guessed. */
  function Shown(c: char, guessed: seq<char>): char {
    if c in guessed || (c == ' ' && guessed != []) then c else Blank
  }

  /** The status a round with these attempts, guesses and hidden word has. */
  function StatusFor(remaining: int, guessed: seq<char>, hidden: seq<char>): Status {
    if remaining == 0 then Lost
    else if guessed != [] && Blank !in hidden then Won
    else Playing
  }

  ghost predicate Inv(s: GameState) {
    && |s.hiddenWord| == |s.word|
    && NoDuplicates(s.guessedLetters)
    && s.remainingAttempts == MaxAttempts - Misses(s.word, s.guessedLetters)
    && s.remainingAttempts >= 0
    && (forall i :: 0 <= i < |s.word| ==> s.hiddenWord[i] == Shown(s.word[i], s.guessedLetters))
    && s.gameStatus == StatusFor(s.remainingAttempts, s.guessedLetters, s.hiddenWord)
  }

  /** The initial state lower-cases the word, hides every position (spaces
      too) and starts with no guesses, six attempts and the round playing. */
  lemma InitialStateValid(word: Option<string>)
    ensures var s := InitialState(word);
      && Inv(s)
      && s.word == ToLower(if word.Some? then word.value else "")
      && (forall i :: 0 <= i < |s.hiddenWord| ==> s.hiddenWord[i] == Blank)
      && s.guessedLetters == [] && s.remainingAttempts == MaxAttempts && s.gameStatus == Playing
  {
  }

  lemma {:induction false} GuessPreservesInv(s: GameState, letter: char)
    requires Inv(s)
    ensures Inv(HandleGuess(s, letter))
  {
    if s.gameStatus == Playing && letter !in s.guessedLetters {
      var g := s.guessedLetters + [letter];
      var hidden := Reveal(s.word, s.hiddenWord, g);
      var remaining := if letter in s.word then s.remainingAttempts else s.remainingAttempts - 1;
      var r := HandleGuess(s, letter);
      assert r.guessedLetters == g && r.hiddenWord == hidden && r.remainingAttempts == remaining;
      assert g[..|g| - 1] == s.guessedLetters;
      assert Misses(s.word, g) == Misses(s.word, s.guessedLetters) + (if letter in s.word then 0 else 1);
      assert NoDuplicates(g) by {
        forall i, j | 0 <= i < j < |g| ensures g[i] != g[j] {
          if j == |g| - 1 { assert g[i] in s.guessedLetters; }
        }
      }
      forall i | 0 <= i < |s.word|
        ensures hidden[i] == Shown(s.word[i], g)
      {
        assert s.hiddenWord[i] == Shown(s.word[i], s.guessedLetters);
      }
      assert r.gameStatus == StatusFor(remaining, g, hidden);
    }
  }

  /** Every state reached from the initial one by pressing keys keeps the
      invariant: no letter is guessed twice, the remaining attempts are six
      minus the wrong letters guessed and never negative, each position shows
      exactly what the guesses reveal, and the status follows from those. */
  lemma {:induction false} PlayPreservesInv(s: GameState, letters: seq<char>)
    requires Inv(s)
    ensures Inv(Play(s, letters))
    decreases |letters|
  {
    if letters != [] {
      GuessPreservesInv(s, letters[0]);
      PlayPreservesInv(HandleGuess(s, letters[0]), letters[1..]);
    }
  }

  lemma ReachableStatesValid(word: Option<string>, letters: seq<char>)
    ensures Inv(Play(InitialState(word), letters))
  {
    InitialStateValid(word);
    PlayPreservesInv(InitialState(word), letters);
  }

  // ---------------------------------------------------------------------
  // One guess

  lemma GuessNoOp(s: GameState, letter: char)
    requires |s.hiddenWord| == |s.word|
    requires s.gameStatus != Playing || letter in s.guessedLetters
    ensures HandleGuess(s, letter) == s
  {
  }

  /** A fresh guess while playing appends exactly that letter, reveals the
      positions holding it (and the spaces), charges one attempt iff the
      letter is absent, and moves to 'lost' at zero attempts, else to 'won'
      when no blank is left. */
  lemma GuessStep(s: GameState, letter: char)
    requires |s.hiddenWord| == |s.word|
    requires s.gameStatus == Playing && letter !in s.guessedLetters
    ensures var r := HandleGuess(s, letter);
      && r.guessedLetters == s.guessedLetters + [letter]
      && (forall i :: 0 <= i < |s.word| ==>
            r.hiddenWord[i] == if s.word[i] in r.guessedLetters || s.word[i] == ' ' then s.word[i] else s.hiddenWord[i])
      && (r.remainingAttempts == s.remainingAttempts - 1 <==> letter !in s.word)
      && (letter in s.word ==> r.remainingAttempts == s.remainingAttempts)
      && (r.gameStatus == Lost <==> r.remainingAttempts == 0)
      && (r.gameStatus == Won <==> r.remainingAttempts != 0 && Blank !in r.hiddenWord)
  {
  }

  /** Pressing the same key twice is the same as pressing it once. */
  lemma GuessIdempotent(s: GameState, letter: char)
    requires |s.hiddenWord| == |s.word|
    ensures HandleGuess(HandleGuess(s, letter), letter) == HandleGuess(s, letter)
  {
  }

  /** In a reachable state a revealed position never goes back to the blank
      marker, and a blank position shows either the blank or its character. */
  lemma RevealMonotone(s: GameState, letter: char)
    requires Inv(s)
    ensures var r := HandleGuess(s, letter);
      forall i :: 0 <= i < |s.word| ==>
        (s.hiddenWord[i] != Blank ==> r.hiddenWord[i] == s.hiddenWord[i]) &&
        (r.hiddenWord[i] == s.hiddenWord[i] || r.hiddenWord[i] == s.word[i])
  {
    var r := HandleGuess(s, letter);
    forall i | 0 <= i < |s.word| && s.hiddenWord[i] != Blank
      ensures r.hiddenWord[i] == s.hiddenWord[i]
    {
      assert s.hiddenWord[i] == Shown(s.word[i], s.guessedLetters);
    }
  }

  /** Once the round is over no key press changes anything, so the remaining
      attempts stay where they are (never below zero). */
  lemma {:induction false} GameOverIsFinal(s: GameState, letters: seq<char>)
    requires |s.hiddenWord| == |s.word|
    requires s.gameStatus != Playing
    ensures Play(s, letters) == s
    decreases |letters|
  {
    if letters != [] {
      GameOverIsFinal(s, letters[1..]);
    }
  }

  /** Guessing "c", "a", "t" on "cat" reveals one letter at a time and wins
      with no attempt lost. */
  lemma ScenarioCat()
    ensures var s0 := InitialState(Some("cat"));
      var s1 := HandleGuess(s0, 'c');
      var s2 := HandleGuess(s1, 'a');
      var s3 := HandleGuess(s2, 't');
      && s1.hiddenWord == "c__" && s2.hiddenWord == "ca_" && s3.hiddenWord == "cat"
      && s3.remainingAttempts == MaxAttempts && s3.gameStatus == Won
  {
    assert ToLower("cat") == "cat";
    assert InitialState(Some("cat")) == GameState("cat", "___", [], MaxAttempts, Playing);
    CatFirst();
    CatSecond();
    CatThird();
  }

  lemma CatFirst()
    ensures HandleGuess(GameState("cat", "___", [], MaxAttempts, Playing), 'c')
         == GameState("cat", "c__", ['c'], MaxAttempts, Playing)
  {
    var g: seq<char> := [] + ['c'];
    assert g == ['c'];
    var h := Reveal("cat", "___", g);
    assert h[0] == 'c' && h[1] == Blank && h[2] == Blank;
    assert h == "c__";
    assert "cat"[0] == 'c';
    assert Blank in h;
  }

  lemma CatSecond()
    ensures HandleGuess(GameState("cat", "c__", ['c'], MaxAttempts, Playing), 'a')
         == GameState("cat", "ca_", ['c', 'a'], MaxAttempts, Playing)
  {
    var g := ['c'] + ['a'];
    assert g == ['c', 'a'];
    var h := Reveal("cat", "c__", g);
    assert h[0] == 'c' && h[1] == 'a' && h[2] == Blank;
    assert h == "ca_";
    assert "cat"[1] == 'a';
    assert Blank in h;
  }

  lemma CatThird()
    ensures HandleGuess(GameState("cat", "ca_", ['c', 'a'], MaxAttempts, Playing), 't')
         == GameState("cat", "cat", ['c', 'a', 't'], MaxAttempts, Won)
  {
    var g := ['c', 'a'] + ['t'];
    assert g == ['c', 'a', 't'];
    var h := Reveal("cat", "ca_", g);
    assert h[0] == 'c' && h[1] == 'a' && h[2] == 't';
    assert h == "cat";
    assert "cat"[2] == 't';
  }

  // ---------------------------------------------------------------------
  // The keyboard

  datatype KeyStyle = Success | Danger | OutlineSecondary

  /** Whether the key for `letter` is disabled: exactly when pressing it
      would change nothing. */
  function KeyDisabled(s: GameState, letter: char): (r: bool)
    ensures |s.hiddenWord| == |s.word| ==> (r <==> HandleGuess(s, letter) == s)
  {
    var r := letter in s.guessedLetters || s.gameStatus != Playing;
    assert |s.hiddenWord| == |s.word| && !r ==>
      |HandleGuess(s, letter).guessedLetters| == |s.guessedLetters| + 1;
    r
  }

  /** The key's colour: outlined until tried, then green for a letter of the
      word and red for a miss. */
  function KeyStyleOf(s: GameState, letter: char): (r: KeyStyle)
    ensures r == OutlineSecondary <==> letter !in s.guessedLetters
    ensures r == Success <==> letter in s.guessedLetters && letter in s.word
    ensures r == Danger <==> letter in s.guessedLetters && letter !in s.word
  {
    if letter in s.guessedLetters then
      if letter in s.word then Success else Danger
    else OutlineSecondary
  }

  /** After pressing an enabled key, it is green iff its letter is in the word
      and red iff the press cost an attempt. */
  lemma StyleAfterGuess(s: GameState, letter: char)
    requires |s.hiddenWord| == |s.word|
    requires !KeyDisabled(s, letter)
    ensures var r := HandleGuess(s, letter);
      && KeyDisabled(r, letter)
      && (KeyStyleOf(r, letter) == Success <==> letter in s.word)
      && (KeyStyleOf(r, letter) == Danger <==> r.remainingAttempts == s.remainingAttempts - 1)
  {
  }
}
