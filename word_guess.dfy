/** The full-word guess input of the game page: it filters what the player
    types and hands a normalised guess to the game. */
module WordGuess {
  import opened Lang
  import opened Text

  predicate Allowed(c: char) {
    IsAsciiLetter(c) || IsSpace(c)
  }

  /** `value.replace(/[^a-zA-Z\s]/g, '')`: the letters and whitespace of `s`, in order. */
  function Filter(s: string): (r: string)
    ensures |r| <= |s|
    ensures forall i :: 0 <= i < |r| ==> Allowed(r[i])
  {
    if s == [] then []
    else (if Allowed(s[0]) then [s[0]] else []) + Filter(s[1..])
  }

  /** `t` is a subsequence of `s`. */
  predicate Subsequence(t: string, s: string)
    decreases |s|
  {
    t == [] || (s != [] && (if t[0] == s[0] then Subsequence(t[1..], s[1..]) else Subsequence(t, s[1..])))
  }

  /** The filtered text keeps characters of the input in their order. */
  lemma {:induction false} FilterSubsequence(s: string)
    ensures Subsequence(Filter(s), s)
  {
    if s != [] {
      FilterSubsequence(s[1..]);
      if Allowed(s[0]) {
        assert Filter(s)[1..] == Filter(s[1..]);
      } else {
        assert Filter(s) == Filter(s[1..]);
        SubsequenceSkip(Filter(s[1..]), s);
      }
    }
  }

  /** A subsequence of a suffix is a subsequence of the whole. */
  lemma {:induction false} SubsequenceSkip(t: string, s: string)
    requires s != [] && Subsequence(t, s[1..])
    ensures Subsequence(t, s)
    decreases |t| + |s|, 1
  {
    if t != [] && t[0] == s[0] {
      SubsequenceTail(t, s[1..]);
    }
  }

  /** A subsequence's tail is a subsequence too. */
  lemma {:induction false} SubsequenceTail(t: string, s: string)
    requires t != [] && Subsequence(t, s)
    ensures Subsequence(t[1..], s)
    decreases |t| + |s|, 0
  {
    if t[0] == s[0] {
      if t[1..] != [] {
        SubsequenceSkip(t[1..], s);
      }
    } else {
      SubsequenceTail(t, s[1..]);
      if t[1..] != [] {
        SubsequenceSkip(t[1..], s);
      }
    }
  }

  /** Filtering is idempotent, and text already made of letters and
      whitespace passes through unchanged. */
  lemma {:induction false} FilterKeepsAllowed(s: string)
    requires forall i :: 0 <= i < |s| ==> Allowed(s[i])
    ensures Filter(s) == s
  {
    if s != [] {
      FilterKeepsAllowed(s[1..]);
    }
  }

  lemma FilterIdempotent(s: string)
    ensures Filter(Filter(s)) == Filter(s)
  {
    FilterKeepsAllowed(Filter(s));
  }

  /** The filter works character by character. */
  lemma {:induction false} FilterConcat(a: string, b: string)
    ensures Filter(a + b) == Filter(a) + Filter(b)
  {
    if a == [] {
      assert a + b == b;
    } else {
      assert (a + b)[1..] == a[1..] + b;
      FilterConcat(a[1..], b);
    }
  }

  /** The guess handed on: the trimmed input in lower case. */
  predicate IsNormalisedGuess(g: string) {
    g != [] && IsLowerCase(g) && !IsSpace(g[0]) && !IsSpace(g[|g| - 1])
  }

  /** The Guess button is disabled unless the game is playing, the trimmed
      input is non-empty and no guess is loading. */
  predicate SubmitDisabled(gameStatus: string, wordInput: string, isLoading: bool) {
    gameStatus != "playing" || |Trim(wordInput)| == 0 || isLoading
  }

  /** The button is enabled exactly when the game is playing, nothing is
      loading and the input holds a non-whitespace character, which is when
      submitting hands on a guess. */
  lemma SubmitEnabledIff(gameStatus: string, wordInput: string, isLoading: bool)
    ensures !SubmitDisabled(gameStatus, wordInput, isLoading) <==>
      gameStatus == "playing" && !isLoading && exists i :: 0 <= i < |wordInput| && !IsSpace(wordInput[i])
    ensures !SubmitDisabled(gameStatus, wordInput, isLoading) ==> Trim(wordInput) != []
  {
    TrimEmpty(wordInput);
  }

  class WordGuessInput {
    var wordInput: string

    /** `useState('')`. */
    constructor()
      ensures wordInput == ""
    {
      wordInput := "";
    }

    /** The input only ever holds letters and whitespace. */
    ghost predicate Valid()
      reads this
    {
      forall i :: 0 <= i < |wordInput| ==> Allowed(wordInput[i])
    }

    /** `handleInputChange`: the input becomes the typed value with every
        other character dropped. */
    method HandleInputChange(value: string)
      modifies this
      ensures wordInput == Filter(value)
      ensures Valid()
    {
      wordInput := Filter(value);
    }

    /** `handleWordSubmit`: a non-blank input is passed on trimmed and
        lower-cased and the input is cleared; a blank one changes nothing. */
    method HandleWordSubmit() returns (guess: Option<string>)
      modifies this
      ensures Trim(old(wordInput)) == [] ==> guess == None && wordInput == old(wordInput)
      ensures Trim(old(wordInput)) != [] ==> guess == Some(ToLower(Trim(old(wordInput)))) && wordInput == ""
      ensures guess.Some? ==> IsNormalisedGuess(guess.value)
      ensures old(Valid()) ==> Valid()
    {
      var trimmed := Trim(wordInput);
      if |trimmed| > 0 {
        guess := Some(ToLower(trimmed));
        ToLowerIsLowerCase(trimmed);
        wordInput := "";
      } else {
        guess := None;
      }
    }
  }

  /** A guess made from filtered input holds only lower-case letters and whitespace. */
  lemma GuessFromFilteredInput(value: string)
    ensures var g := ToLower(Trim(Filter(value)));
      forall i :: 0 <= i < |g| ==> ('a' <= g[i] <= 'z' || IsSpace(g[i]))
  {
    TrimKeepsAllowed(Filter(value));
    LowerKeepsAllowed(Trim(Filter(value)));
  }

  lemma TrimKeepsAllowed(s: string)
    requires forall i :: 0 <= i < |s| ==> Allowed(s[i])
    ensures forall i :: 0 <= i < |Trim(s)| ==> Allowed(Trim(s)[i])
  {
    TrimPositions(s);
  }

  lemma LowerKeepsAllowed(s: string)
    requires forall i :: 0 <= i < |s| ==> Allowed(s[i])
    ensures forall i :: 0 <= i < |s| ==> ('a' <= ToLower(s)[i] <= 'z' || IsSpace(ToLower(s)[i]))
  {
  }
}
