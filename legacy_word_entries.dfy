/** The word entry of the older back-end package: its setters validate
    their argument and throw before assigning, and its constructor and
    `updateWord` run the setters one after another. */
module LegacyWordEntries {
  import opened Lang
  import opened Text
  import LegacyValidation

  datatype EntryData = EntryData(category: string, word: string, hint: string)

  /** The check `setWord` runs: non-empty, then alphabetic. */
  function WordCheck(word: JString): (o: Outcome)
    ensures o.Pass? <==> word.Some? && IsAlphabetic(word.value)
  {
    var e := LegacyValidation.CheckNotEmpty(word);
    if e.Fail? then e else LegacyValidation.CheckIsAlphabetic(word)
  }

  /** `o1` unless it passed, then `o2`. */
  function Then(o1: Outcome, o2: Outcome): Outcome {
    if o1.Fail? then o1 else o2
  }

  /** The outcome of the validating constructor: word, then category, then hint. */
  function CreateCheck(category: JString, word: JString, hint: JString): (o: Outcome)
    ensures o.Pass? <==> (word.Some? && IsAlphabetic(word.value) &&
                          category.Some? && category.value != "" && hint.Some? && hint.value != "")
  {
    Then(WordCheck(word), Then(LegacyValidation.CheckNotEmpty(category), LegacyValidation.CheckNotEmpty(hint)))
  }

  /** `updateWord(other)` on field values: the three setters in the order
      word, hint, category, each assigning only if its check passes and the
      later ones not running once one throws. */
  function ApplyUpdate(d: EntryData, other: EntryData): (r: (EntryData, Outcome))
    ensures r.0.word == if IsAlphabetic(other.word) then other.word else d.word
    ensures r.0.hint == if IsAlphabetic(other.word) && other.hint != "" then other.hint else d.hint
    ensures r.0.category == if r.1.Pass? then other.category else d.category
    ensures r.1.Fail? ==> r.1.error.IllegalArgument?
  {
    var w := WordCheck(Some(other.word));
    if w.Fail? then (d, w)
    else
      var h := LegacyValidation.CheckNotEmpty(Some(other.hint));
      if h.Fail? then (d.(word := other.word), h)
      else
        var c := LegacyValidation.CheckNotEmpty(Some(other.category));
        if c.Fail? then (d.(word := other.word, hint := other.hint), c)
        else (other, Pass)
  }

  /** A successful update makes all three fields equal `other`'s, and it
      succeeds exactly when `other` holds a valid word, hint and category. */
  lemma UpdateSucceeds(d: EntryData, other: EntryData)
    ensures ApplyUpdate(d, other).1.Pass? <==>
      IsAlphabetic(other.word) && other.hint != "" && other.category != ""
    ensures ApplyUpdate(d, other).1.Pass? ==> ApplyUpdate(d, other).0 == other
  {
  }

  /** An update that stops at the hint has already overwritten the word. */
  lemma UpdateIsPartial(d: EntryData, other: EntryData)
    requires IsAlphabetic(other.word) && other.hint == ""
    ensures ApplyUpdate(d, other).0 == d.(word := other.word)
    ensures ApplyUpdate(d, other).1 == Fail(IllegalArgument("Empty argument"))
  {
  }

  /** The constructor checks the word before the category: a bad word and an
      empty category report the word's problem. */
  lemma CreateChecksWordFirst(word: string, hint: JString)
    requires word != "" && !IsAlphabetic(word)
    ensures CreateCheck(Some(""), Some(word), hint) ==
      Fail(IllegalArgument("String must contain only alphabetic characters (a–z or A–Z)"))
  {
  }

  class WordEntry {
    var category: string
    var word: string
    var hint: string

    function Data(): EntryData
      reads this
    {
      EntryData(category, word, hint)
    }

    /** The no-argument constructor (empty strings for its null fields). */
    constructor Empty()
      ensures Data() == EntryData("", "", "")
    {
      category, word, hint := "", "", "";
    }

    /** `new WordEntry(category, word, hint)`: `Err` is the exception the
        first failing setter throws. */
    static method Create(category: JString, word: JString, hint: JString) returns (r: Result<WordEntry>)
      ensures r.Err? <==> CreateCheck(category, word, hint).Fail?
      ensures r.Err? ==> r.error == CreateCheck(category, word, hint).error
      ensures r.Ok? ==> fresh(r.value) && r.value.Data() == EntryData(category.value, word.value, hint.value)
    {
      var e := new WordEntry.Empty();
      var o := e.SetWord(word);
      if o.Fail? { return Err(o.error); }
      o := e.SetCategory(category);
      if o.Fail? { return Err(o.error); }
      o := e.SetHint(hint);
      if o.Fail? { return Err(o.error); }
      r := Ok(e);
    }

    /** `setCategory`: rejects only a null or empty value. */
    method SetCategory(category: JString) returns (o: Outcome)
      modifies this
      ensures o == LegacyValidation.CheckNotEmpty(category)
      ensures Data() == if o.Pass? then old(Data()).(category := category.value) else old(Data())
    {
      o := LegacyValidation.CheckNotEmpty(category);
      if o.Pass? {
        this.category := category.value;
      }
    }

    /** `setWord`: rejects a null, empty or non-alphabetic value. */
    method SetWord(word: JString) returns (o: Outcome)
      modifies this
      ensures o == WordCheck(word)
      ensures Data() == if o.Pass? then old(Data()).(word := word.value) else old(Data())
    {
      o := WordCheck(word);
      if o.Pass? {
        this.word := word.value;
      }
    }

    /** `setHint`: rejects only a null or empty value. */
    method SetHint(hint: JString) returns (o: Outcome)
      modifies this
      ensures o == LegacyValidation.CheckNotEmpty(hint)
      ensures Data() == if o.Pass? then old(Data()).(hint := hint.value) else old(Data())
    {
      o := LegacyValidation.CheckNotEmpty(hint);
      if o.Pass? {
        this.hint := hint.value;
      }
    }

    /** `updateWord(other)`: the setters for word, hint and category in turn. */
    method UpdateWord(other: WordEntry) returns (o: Outcome)
      modifies this
      ensures (Data(), o) == ApplyUpdate(old(Data()), old(other.Data()))
    {
      var w, h, c := other.word, other.hint, other.category;
      o := SetWord(Some(w));
      if o.Fail? { return; }
      o := SetHint(Some(h));
      if o.Fail? { return; }
      o := SetCategory(Some(c));
    }
  }

  /** The entries' fields, in list order. Each entry generation is its own
      class, so each has its own copy of this projection. */
  function DataOf(entries: seq<WordEntry>): (ds: seq<EntryData>)
    reads entries
    ensures |ds| == |entries|
    ensures forall i :: 0 <= i < |entries| ==> ds[i] == entries[i].Data()
  {
    if entries == [] then [] else [entries[0].Data()] + DataOf(entries[1..])
  }
}
