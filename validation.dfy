/** The static argument checks of the current back end: each returns
    normally or throws an IllegalArgumentException with a fixed message. */
module Validation {
  import opened Lang
  import opened Text

  const EmptyArgument := "Empty argument"
  const NotAlphabetic := "String must contain only alphabetic characters (a–z or A–Z)"

  /** Throws iff the string is null or empty; whitespace passes. */
  function CheckNotEmpty(s: JString): (o: Outcome)
    ensures o.Fail? <==> s == None || s == Some("")
    ensures o.Fail? ==> o.error == IllegalArgument(EmptyArgument)
  {
    if s.None? || s.value == "" then Fail(IllegalArgument(EmptyArgument)) else Pass
  }

  /** Throws iff the string is not made only of ASCII letters, so the empty
      string throws too; a null string fails with a NullPointerException. */
  function CheckIsAlphabetic(s: JString): (o: Outcome)
    ensures s.None? ==> o == Fail(NullPointer)
    ensures s.Some? ==> (o.Fail? <==> !IsAlphabetic(s.value))
    ensures s.Some? && o.Fail? ==> o.error == IllegalArgument(NotAlphabetic)
  {
    if s.None? then Fail(NullPointer)
    else if !IsAlphabetic(s.value) then Fail(IllegalArgument(NotAlphabetic))
    else Pass
  }

  /** Throws iff the score is negative. */
  function CheckIsValidScore(score: int): (o: Outcome)
    ensures o.Fail? <==> score < 0
    ensures o.Fail? ==> o.error == IllegalArgument("Score cannot be negative")
  {
    if score < 0 then Fail(IllegalArgument("Score cannot be negative")) else Pass
  }

  /** Throws iff the time is negative. */
  function CheckIsValidTime(time: int): (o: Outcome)
    ensures o.Fail? <==> time < 0
    ensures o.Fail? ==> o.error == IllegalArgument("Time cannot be negative")
  {
    if time < 0 then Fail(IllegalArgument("Time cannot be negative")) else Pass
  }

  /** Throws iff the attempts count is not positive. */
  function CheckIsValidAttempts(attempts: int): (o: Outcome)
    ensures o.Fail? <==> attempts <= 0
    ensures o.Fail? ==> o.error == IllegalArgument("Attempts must be positive")
  {
    if attempts <= 0 then Fail(IllegalArgument("Attempts must be positive")) else Pass
  }

  /** Throws iff the word length is not positive. */
  function CheckIsValidWordLength(length: int): (o: Outcome)
    ensures o.Fail? <==> length <= 0
    ensures o.Fail? ==> o.error == IllegalArgument("Word length must be positive")
  {
    if length <= 0 then Fail(IllegalArgument("Word length must be positive")) else Pass
  }

  /** A string that passes the alphabetic check passes the emptiness check;
      the converse fails for whitespace. */
  lemma AlphabeticImpliesNotEmpty(s: JString)
    ensures CheckIsAlphabetic(s).Pass? ==> CheckNotEmpty(s).Pass?
    ensures CheckNotEmpty(Some(" ")).Pass? && CheckIsAlphabetic(Some(" ")).Fail?
  {
    assert !IsAsciiLetter(" "[0]);
  }

  /** The boundaries: zero is a valid score and time, but not a valid
      attempts count or word length. */
  lemma ZeroBoundaries()
    ensures CheckIsValidScore(0).Pass? && CheckIsValidTime(0).Pass?
    ensures CheckIsValidAttempts(0).Fail? && CheckIsValidWordLength(0).Fail?
  {
  }
}
