/** The argument checks of the older back-end package, used by its
    validating word entry. */
module LegacyValidation {
  import opened Lang
  import opened Text
  import Validation

  /** Throws iff the string is null or empty. */
  function CheckNotEmpty(s: JString): (o: Outcome)
    ensures o.Fail? <==> s == None || s == Some("")
    ensures o.Fail? ==> o.error == IllegalArgument(Validation.EmptyArgument)
  {
    if s.None? || s.value == "" then Fail(IllegalArgument("Empty argument")) else Pass
  }

  /** Throws iff some character is not an ASCII letter, and on the empty
      string; a null string fails with a NullPointerException. */
  function CheckIsAlphabetic(s: JString): (o: Outcome)
    ensures s.None? ==> o == Fail(NullPointer)
    ensures s.Some? ==> (o.Fail? <==> s.value == "" || exists i :: 0 <= i < |s.value| && !IsAsciiLetter(s.value[i]))
    ensures s.Some? && o.Fail? ==> o.error == IllegalArgument(Validation.NotAlphabetic)
  {
    if s.None? then Fail(NullPointer)
    else if !IsAlphabetic(s.value) then Fail(IllegalArgument("String must contain only alphabetic characters (a–z or A–Z)"))
    else Pass
  }

  /** Throws iff the score is negative. */
  function CheckIsValidScore(score: int): (o: Outcome)
    ensures o.Fail? <==> score < 0
    ensures o.Fail? ==> o.error == IllegalArgument("Score must be non-negative")
  {
    if score < 0 then Fail(IllegalArgument("Score must be non-negative")) else Pass
  }

  /** The older checks decide exactly as the current ones, with the same
      messages except for the score check's wording. */
  lemma AgreesWithCurrent(s: JString, score: int)
    ensures CheckNotEmpty(s) == Validation.CheckNotEmpty(s)
    ensures CheckIsAlphabetic(s) == Validation.CheckIsAlphabetic(s)
    ensures CheckIsValidScore(score).Fail? <==> Validation.CheckIsValidScore(score).Fail?
    ensures score < 0 ==> CheckIsValidScore(score) != Validation.CheckIsValidScore(score)
  {
  }
}
