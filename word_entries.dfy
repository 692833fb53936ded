/** The word entry of the current back end: a mutable record whose setters
    assign without checks; its field constraints are only declared, for the
    request validation that runs before a controller is entered. Matching by
    id needs an `id` field, which this model adds. */
module WordEntries {
  import opened Lang
  import opened Text
  import Validation

  /** An entry's fields as a value. */
  datatype EntryData = EntryData(id: string, category: string, word: string, hint: string)

  /** What `updateWord(other)` leaves: `other`'s word, hint and category, and the entry's own id. */
  function Updated(d: EntryData, other: EntryData): (r: EntryData)
    ensures r == other.(id := d.id)
  {
    d.(word := other.word, hint := other.hint, category := other.category)
  }

  /** The declared constraints: category and word non-empty runs of ASCII
      letters, hint non-empty. */
  predicate DeclaredValid(d: EntryData) {
    IsAlphabetic(d.category) && IsAlphabetic(d.word) && d.hint != ""
  }

  /** The declared constraints accept exactly what the argument checks accept. */
  lemma DeclaredValidIffChecksPass(d: EntryData)
    ensures DeclaredValid(d) <==>
      && Validation.CheckNotEmpty(Some(d.category)).Pass? && Validation.CheckIsAlphabetic(Some(d.category)).Pass?
      && Validation.CheckNotEmpty(Some(d.word)).Pass? && Validation.CheckIsAlphabetic(Some(d.word)).Pass?
      && Validation.CheckNotEmpty(Some(d.hint)).Pass?
  {
  }

  /** Updating from a valid entry gives a valid entry; updating twice from
      the same entry is updating once; the id never changes. */
  lemma UpdatedProperties(d: EntryData, other: EntryData)
    ensures DeclaredValid(other) ==> DeclaredValid(Updated(d, other))
    ensures Updated(Updated(d, other), other) == Updated(d, other)
    ensures Updated(d, other).id == d.id
  {
  }

  class WordEntry {
    var id: string
    var category: string
    var word: string
    var hint: string

    function Data(): EntryData
      reads this
    {
      EntryData(id, category, word, hint)
    }

    /** The constructor stores its arguments verbatim: no checks, no lower-casing. */
    constructor(id: string, category: string, word: string, hint: string)
      ensures Data() == EntryData(id, category, word, hint)
    {
      this.id := id;
      this.category := category;
      this.word := word;
      this.hint := hint;
    }

    method SetCategory(category: string)
      modifies this
      ensures Data() == old(Data()).(category := category)
    {
      this.category := category;
    }

    method SetWord(word: string)
      modifies this
      ensures Data() == old(Data()).(word := word)
    {
      this.word := word;
    }

    method SetHint(hint: string)
      modifies this
      ensures Data() == old(Data()).(hint := hint)
    {
      this.hint := hint;
    }

    /** `updateWord(other)`: copies word, hint and category; `other` may be this entry. */
    method UpdateWord(other: WordEntry)
      modifies this
      ensures Data() == Updated(old(Data()), old(other.Data()))
    {
      var w, h, c := other.word, other.hint, other.category;
      SetWord(w);
      SetHint(h);
      SetCategory(c);
    }
  }

  /** The entries' fields, in list order. */
  function DataOf(entries: seq<WordEntry>): (ds: seq<EntryData>)
    reads entries
    ensures |ds| == |entries|
    ensures forall i :: 0 <= i < |entries| ==> ds[i] == entries[i].Data()
  {
    if entries == [] then [] else [entries[0].Data()] + DataOf(entries[1..])
  }
}
