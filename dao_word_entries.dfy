/** The word entry of the data-access package: its constructor validates
    and lower-cases, its setters assign without checks. */
module DaoWordEntries {
  import opened Lang
  import opened Text
  import Validation

  datatype EntryData = EntryData(category: string, word: string, hint: string)

  /** `checkNotEmpty`: throws iff the string is null or empty. */
  function CheckNotEmpty(s: JString): (o: Outcome)
    ensures o == Validation.CheckNotEmpty(s)
  {
    if s.None? || s.value == "" then Fail(IllegalArgument("Empty argument")) else Pass
  }

  /** `checkIsAlphabetic`: throws iff the string is not a non-empty run of
      ASCII letters; null fails with a NullPointerException. */
  function CheckIsAlphabetic(s: JString): (o: Outcome)
    ensures o == Validation.CheckIsAlphabetic(s)
  {
    if s.None? then Fail(NullPointer)
    else if !IsAlphabetic(s.value) then Fail(IllegalArgument("String must contain only alphabetic characters (a–z or A–Z)"))
    else Pass
  }

  function Then(o1: Outcome, o2: Outcome): Outcome {
    if o1.Fail? then o1 else o2
  }

  /** The constructor's checks, in order: non-empty category, word and
      hint, then alphabetic category and word. */
  function CreateCheck(category: JString, word: JString, hint: JString): (o: Outcome)
    ensures o.Pass? <==> (category.Some? && word.Some? && hint.Some? &&
                          IsAlphabetic(category.value) && IsAlphabetic(word.value) && hint.value != "")
  {
    Then(CheckNotEmpty(category), Then(CheckNotEmpty(word), Then(CheckNotEmpty(hint),
      Then(CheckIsAlphabetic(category), CheckIsAlphabetic(word)))))
  }

  /** An empty argument always reports "Empty argument", even when another
      argument is not alphabetic: the emptiness checks run first. */
  lemma EmptinessCheckedFirst(category: string, word: string)
    requires category == "" || word == ""
    ensures CreateCheck(Some(category), Some(word), Some("h")).Fail?
    ensures CreateCheck(Some(category), Some(word), Some("h")).error == IllegalArgument("Empty argument")
  {
  }

  /** What a constructed entry holds: category and word lower-cased, both
      non-empty runs of lower-case letters; the hint as given. */
  predicate Normalised(d: EntryData) {
    IsAlphabetic(d.category) && IsLowerCase(d.category) &&
    IsAlphabetic(d.word) && IsLowerCase(d.word) && d.hint != ""
  }

  class WordEntry {
    var category: string
    var word: string
    var hint: string

    function Data(): EntryData
      reads this
    {
      EntryData(category, word, hint)
    }

    constructor Make(category: string, word: string, hint: string)
      ensures Data() == EntryData(category, word, hint)
    {
      this.category, this.word, this.hint := category, word, hint;
    }

    /** `new WordEntry(category, word, hint)`. */
    static method Create(category: JString, word: JString, hint: JString) returns (r: Result<WordEntry>)
      ensures r.Err? <==> CreateCheck(category, word, hint).Fail?
      ensures r.Err? ==> r.error == CreateCheck(category, word, hint).error
      ensures r.Ok? ==> fresh(r.value)
      ensures r.Ok? ==> r.value.Data() == EntryData(ToLower(category.value), ToLower(word.value), hint.value)
      ensures r.Ok? ==> Normalised(r.value.Data())
    {
      var o := CreateCheck(category, word, hint);
      if o.Fail? {
        return Err(o.error);
      }
      ToLowerKeepsAlphabetic(category.value);
      ToLowerKeepsAlphabetic(word.value);
      ToLowerIsLowerCase(category.value);
      ToLowerIsLowerCase(word.value);
      var e := new WordEntry.Make(ToLower(category.value), ToLower(word.value), hint.value);
      r := Ok(e);
    }

    /** The setters assign without checks, so a constructed entry's
        guarantees hold only until one is used. */
    method SetCategory(category: string)
      modifies this
      ensures Data() == old(Data()).(category := category)
    {
      this.category := category;
    }

    method SetWord(word: string)
      modifies this
      ensures Data() == old(Data()).(word := word)
    {
      this.word := word;
    }

    method SetHint(hint: string)
      modifies this
      ensures Data() == old(Data()).(hint := hint)
    {
      this.hint := hint;
    }
  }

  /** Creating from the fields of a normalised entry gives an equal entry. */
  lemma CreateFromNormalised(d: EntryData)
    requires Normalised(d)
    ensures CreateCheck(Some(d.category), Some(d.word), Some(d.hint)).Pass?
    ensures EntryData(ToLower(d.category), ToLower(d.word), d.hint) == d
  {
    ToLowerIsLowerCase(d.category);
    ToLowerIsLowerCase(d.word);
  }

  /** The entries' fields, in list order. Each entry generation is its own
      class, so each has its own copy of this projection. */
  function DataOf(entries: seq<WordEntry>): (ds: seq<EntryData>)
    reads entries
    ensures |ds| == |entries|
    ensures forall i :: 0 <= i < |entries| ==> ds[i] == entries[i].Data()
  {
    if entries == [] then [] else [entries[0].Data()] + DataOf(entries[1..])
  }
}
