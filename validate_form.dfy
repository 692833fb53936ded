/** The client's field validators for the word, category and hint inputs. */
module ValidateForm {
  import opened Lang
  import opened Text

  /** `validateWord(value, words, currentWord)`: in edit mode an unchanged
      value is valid; otherwise the value must be letters and whitespace and
      differ, ignoring case, from every listed word. */
  function ValidateWord(value: string, words: seq<string>, currentWord: Option<string>): (r: bool)
    ensures currentWord.Some? && currentWord.value != "" && value == currentWord.value ==> r
    ensures !(currentWord.Some? && currentWord.value != "" && value == currentWord.value) ==>
      (r <==> IsLettersOrSpaces(value) && forall i :: 0 <= i < |words| ==> !EqualsIgnoreCase(words[i], value))
  {
    if currentWord.Some? && currentWord.value != "" && value == currentWord.value then true
    else if value == "" || !IsLettersOrSpaces(value) then false
    else !Exists(words, value)
  }

  /** `words.some(w => w.toLowerCase() === value.toLowerCase())`. */
  function Exists(words: seq<string>, value: string): (b: bool)
    ensures b <==> exists i :: 0 <= i < |words| && EqualsIgnoreCase(words[i], value)
  {
    if words == [] then false
    else EqualsIgnoreCase(words[0], value) || Exists(words[1..], value)
  }

  /** `validateCategory(value)` returns false or nothing (`None`, JavaScript's
      `undefined`); it never returns true. */
  function ValidateCategory(value: string): (r: Option<bool>)
    ensures r != Some(true)
    ensures r == Some(false) <==> !IsLettersOrSpaces(value)
  {
    if value == "" || !IsLettersOrSpaces(value) then Some(false) else None
  }

  /** `validateHint(value)`: true iff the trimmed value is non-empty. */
  function ValidateHint(value: string): (r: bool)
    ensures r <==> exists i :: 0 <= i < |value| && !IsSpace(value[i])
  {
    TrimEmpty(value);
    Trim(value) != ""
  }
}
