/** The word store of the data-access package: lookups hand out fresh
    copies, updates change the stored entry in place. Loading from a file is
    outside the model. */
module DaoWordRepository {
  import opened Lang
  import opened Text
  import opened DaoWordEntries

  function FirstWordIndex(ds: seq<EntryData>, word: string): (r: Option<nat>)
    ensures r.None? <==> forall k :: 0 <= k < |ds| ==> ds[k].word != word
    ensures r.Some? ==> r.value < |ds| && ds[r.value].word == word
    ensures r.Some? ==> forall k :: 0 <= k < r.value ==> ds[k].word != word
  {
    if ds == [] then None
    else if ds[0].word == word then Some(0)
    else match FirstWordIndex(ds[1..], word)
      case None => None
      case Some(i) => Some(i + 1)
  }

  /** A match with none before it is the first. */
  lemma FirstWordIndexAt(ds: seq<EntryData>, word: string, i: nat)
    requires i < |ds| && ds[i].word == word
    requires forall k :: 0 <= k < i ==> ds[k].word != word
    ensures FirstWordIndex(ds, word) == Some(i)
  {
  }

  class WordRepository {
    var words: seq<WordEntry>

    constructor()
      ensures words == []
    {
      words := [];
    }

    /** `getWord(word)`: a new entry built by the validating constructor from
        the first entry with exactly that word, or null. The copy is not in
        the store, so changing it leaves the stored entry as it is; the
        constructor throws if the stored fields no longer pass its checks. */
    method GetWord(word: string) returns (r: Result<Option<WordEntry>>)
      ensures FirstWordIndex(DataOf(words), word).None? ==> r == Ok(None)
      ensures FirstWordIndex(DataOf(words), word).Some? ==>
        var d := words[FirstWordIndex(DataOf(words), word).value].Data();
        var check := CreateCheck(Some(d.category), Some(d.word), Some(d.hint));
        && (check.Fail? ==> r == Err(check.error))
        && (check.Pass? ==> (r.Ok? && r.value.Some? &&
                             r.value.value.Data() == EntryData(ToLower(d.category), ToLower(d.word), d.hint)))
      ensures r.Ok? && r.value.Some? ==> fresh(r.value.value) && r.value.value !in words
    {
      ghost var before := DataOf(words);
      var i := 0;
      while i < |words| && words[i].word != word
        invariant 0 <= i <= |words|
        invariant forall k :: 0 <= k < i ==> before[k].word != word
      {
        i := i + 1;
      }
      if i == |words| {
        return Ok(None);
      }
      FirstWordIndexAt(before, word, i);
      r := CopyOf(words[i]);
      assert DataOf(words) == before;
    }

    /** A fresh entry built by the validating constructor from `entry`'s
        fields. */
    method CopyOf(entry: WordEntry) returns (r: Result<Option<WordEntry>>)
      ensures var d := entry.Data();
        var check := CreateCheck(Some(d.category), Some(d.word), Some(d.hint));
        && (check.Fail? ==> r == Err(check.error))
        && (check.Pass? ==> (r.Ok? && r.value.Some? &&
                             r.value.value.Data() == EntryData(ToLower(d.category), ToLower(d.word), d.hint)))
      ensures r.Ok? && r.value.Some? ==> fresh(r.value.value)
    {
      var copy := WordEntry.Create(Some(entry.category), Some(entry.word), Some(entry.hint));
      r := match copy
        case Err(e) => Err(e)
        case Ok(c) => Ok(Some(c));
    }

    /** `updateWord(wordEntry, oldWord)`: sets category, hint and word of
        the first entry with word `oldWord`, then stops; returns its argument
        whether or not an entry matched. */
    method UpdateWord(wordEntry: WordEntry, oldWord: string) returns (r: WordEntry)
      modifies words
      ensures r == wordEntry && words == old(words)
      ensures old(FirstWordIndex(DataOf(words), oldWord)).None? ==>
        forall k :: 0 <= k < |words| ==> words[k].Data() == old(words[k].Data())
      ensures old(FirstWordIndex(DataOf(words), oldWord)).Some? ==>
        var i := old(FirstWordIndex(DataOf(words), oldWord)).value;
        forall k :: 0 <= k < |words| ==>
          (words[k].Data() == if words[k] == words[i] then old(wordEntry.Data()) else old(words[k].Data()))
    {
      ghost var before := DataOf(words);
      var i := 0;
      while i < |words| && words[i].word != oldWord
        invariant 0 <= i <= |words|
        invariant forall k :: 0 <= k < i ==> before[k].word != oldWord
      {
        i := i + 1;
      }
      if i == |words| {
        return wordEntry;
      }
      FirstWordIndexAt(before, oldWord, i);
      var entry := words[i];
      ghost var d := wordEntry.Data();
      var c, h, w := wordEntry.category, wordEntry.hint, wordEntry.word;
      entry.SetCategory(c);
      entry.SetHint(h);
      entry.SetWord(w);
      assert entry.Data() == d;
      return wordEntry;
    }
  }
}
