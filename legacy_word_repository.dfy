/** The in-memory word store of the older back-end package, over its
    validating word entries. Storage to a file is outside the model. */
module LegacyWordRepository {
  import opened Lang
  import opened LegacyWordEntries

  /** The position of the first entry with exactly that word. */
  function FirstWordIndex(ds: seq<EntryData>, word: string): (r: Option<nat>)
    ensures r.None? <==> forall k :: 0 <= k < |ds| ==> ds[k].word != word
    ensures r.Some? ==> r.value < |ds| && ds[r.value].word == word
    ensures r.Some? ==> forall k :: 0 <= k < r.value ==> ds[k].word != word
  {
    if ds == [] then None
    else if ds[0].word == word then Some(0)
    else match FirstWordIndex(ds[1..], word)
      case None => None
      case Some(i) => Some(i + 1)
  }

  /** The entries whose word differs from `word`, in list order. */
  function WithoutWord(ws: seq<WordEntry>, word: string): (r: seq<WordEntry>)
    reads ws
    ensures |r| <= |ws|
    ensures forall k :: 0 <= k < |r| ==> r[k] in ws && r[k].word != word
    ensures forall k :: 0 <= k < |ws| && ws[k].word != word ==> ws[k] in r
  {
    if ws == [] then []
    else (if ws[0].word != word then [ws[0]] else []) + WithoutWord(ws[1..], word)
  }

  /** Deleting an absent word leaves the list as it was. */
  lemma {:induction false} WithoutAbsent(ws: seq<WordEntry>, word: string)
    requires forall k :: 0 <= k < |ws| ==> ws[k].word != word
    ensures WithoutWord(ws, word) == ws
  {
    if ws != [] {
      WithoutAbsent(ws[1..], word);
    }
  }

  /** A match with none before it is the first. */
  lemma FirstWordIndexAt(ds: seq<EntryData>, word: string, i: nat)
    requires i < |ds| && ds[i].word == word
    requires forall k :: 0 <= k < i ==> ds[k].word != word
    ensures FirstWordIndex(ds, word) == Some(i)
  {
  }

  class WordRepository {
    var words: seq<WordEntry>

    constructor()
      ensures words == []
    {
      words := [];
    }

    /** `findByWord`: the first entry with exactly that word, or null. */
    method FindByWord(word: string) returns (r: Option<WordEntry>)
      ensures r == match FirstWordIndex(DataOf(words), word)
        case None => None
        case Some(i) => Some(words[i])
    {
      var i := 0;
      while i < |words|
        invariant 0 <= i <= |words|
        invariant forall k :: 0 <= k < i ==> words[k].word != word
      {
        if words[i].word == word {
          return Some(words[i]);
        }
        i := i + 1;
      }
      return None;
    }

    /** `update(oldWord, updatedEntry)`: `updateWord` on the first entry with
        that word; its setters may throw part way, after the earlier fields
        are already overwritten. False, with no change, when there is none. */
    method Update(oldWord: string, updatedEntry: WordEntry) returns (r: Result<bool>)
      modifies words
      ensures words == old(words)
      ensures old(FirstWordIndex(DataOf(words), oldWord)).None? ==>
        r == Ok(false) && forall k :: 0 <= k < |words| ==> words[k].Data() == old(words[k].Data())
      ensures old(FirstWordIndex(DataOf(words), oldWord)).Some? ==>
        var i := old(FirstWordIndex(DataOf(words), oldWord)).value;
        var (d, o) := ApplyUpdate(old(words[i].Data()), old(updatedEntry.Data()));
        && r == (if o.Pass? then Ok(true) else Err(o.error))
        && forall k :: 0 <= k < |words| ==> (words[k].Data() == if words[k] == words[i] then d else old(words[k].Data()))
    {
      ghost var before := DataOf(words);
      var i := 0;
      while i < |words| && words[i].word != oldWord
        invariant 0 <= i <= |words|
        invariant forall k :: 0 <= k < i ==> before[k].word != oldWord
      {
        i := i + 1;
      }
      if i == |words| {
        return Ok(false);
      }
      FirstWordIndexAt(before, oldWord, i);
      var target := words[i];
      var o := target.UpdateWord(updatedEntry);
      r := if o.Pass? then Ok(true) else Err(o.error);
    }

    /** `getWords`: the list as a value. */
    method GetWords() returns (copy: seq<WordEntry>)
      ensures copy == words
    {
      copy := words;
    }

    /** `delete(word)`: removes every entry with that word. */
    method Delete(word: string)
      modifies this
      ensures words == WithoutWord(old(words), word)
    {
      words := WithoutWord(words, word);
    }

    /** `addWord`: appends, with no uniqueness check. */
    method AddWord(wordEntry: WordEntry)
      modifies this
      ensures words == old(words) + [wordEntry]
    {
      words := words + [wordEntry];
    }
  }
}
