/** The word service of the older back-end package: the same guards as the
    current service, but a missing word reads as null, only the word is
    lower-cased on insertion, and a failed or conflicting update returns
    null instead of throwing. */
module LegacyWordService {
  import opened Lang
  import opened Text
  import opened LegacyWordEntries
  import opened LegacyWordRepository

  // The store invariant and its lemmas repeat the current service's: they
  // range over this package's own entry class, which is a different type.

  /** The stored words are lower-case and pairwise distinct. */
  ghost predicate StoreValid(words: seq<WordEntry>)
    reads words
    decreases |words|
  {
    words == [] ||
    (IsLowerCase(words[0].word) && (forall k :: 1 <= k < |words| ==> words[k].word != words[0].word) &&
     StoreValid(words[1..]))
  }

  /** A valid store, position by position. */
  lemma {:induction false} StoreValidMeans(words: seq<WordEntry>)
    requires StoreValid(words)
    ensures forall k :: 0 <= k < |words| ==> IsLowerCase(words[k].word)
    ensures forall j, k :: 0 <= j < k < |words| ==> words[j].word != words[k].word
    decreases |words|
  {
    if words != [] {
      StoreValidMeans(words[1..]);
      assert forall k :: 1 <= k < |words| ==> words[k] == words[1..][k - 1];
    }
  }

  /** Appending a lower-case word not yet stored keeps the store valid. */
  lemma {:induction false} StoreValidSnoc(words: seq<WordEntry>, e: WordEntry)
    requires StoreValid(words) && IsLowerCase(e.word)
    requires forall k :: 0 <= k < |words| ==> words[k].word != e.word
    ensures StoreValid(words + [e])
    decreases |words|
  {
    if words == [] {
      assert words + [e] == [e];
    } else {
      assert (words + [e])[1..] == words[1..] + [e];
      StoreValidSnoc(words[1..], e);
    }
  }

  /** A lower-case word not in a valid store can go in front of it. */
  lemma ConsValid(e: WordEntry, rest: seq<WordEntry>)
    requires StoreValid(rest) && IsLowerCase(e.word)
    requires forall k :: 0 <= k < |rest| ==> rest[k].word != e.word
    ensures StoreValid([e] + rest)
  {
    var r := [e] + rest;
    assert r[1..] == rest;
    forall k | 1 <= k < |r| ensures r[k].word != r[0].word {
      assert r[k] == rest[k - 1];
    }
  }

  /** In a valid store no later entry has the first entry's word. */
  lemma NotInTail(words: seq<WordEntry>, e: WordEntry)
    requires StoreValid(words) && words != [] && e in words[1..]
    ensures e.word != words[0].word
  {
    var j :| 0 <= j < |words[1..]| && words[1..][j] == e;
    assert words[j + 1] == e;
  }

  /** Deleting keeps a valid store valid. */
  lemma {:induction false} WithoutKeepsValid(words: seq<WordEntry>, word: string)
    requires StoreValid(words)
    ensures StoreValid(WithoutWord(words, word))
    decreases |words|
  {
    if words != [] {
      WithoutKeepsValid(words[1..], word);
      var rest := WithoutWord(words[1..], word);
      if words[0].word != word {
        forall k | 0 <= k < |rest| ensures rest[k].word != words[0].word {
          NotInTail(words, rest[k]);
        }
        ConsValid(words[0], rest);
        assert WithoutWord(words, word) == [words[0]] + rest;
      } else {
        assert WithoutWord(words, word) == rest;
      }
    }
  }

  /** When the store is valid and has no entry with the lower-cased word of
      `entry`, `entry` itself is not stored. */
  lemma NotStoredWhenAbsent(words: seq<WordEntry>, entry: WordEntry)
    requires StoreValid(words)
    requires FirstWordIndex(DataOf(words), ToLower(entry.word)).None?
    ensures entry !in words
    ensures forall k :: 0 <= k < |words| ==> words[k].word != ToLower(entry.word)
  {
    assert forall k :: 0 <= k < |words| ==> DataOf(words)[k].word == words[k].word;
    StoreValidMeans(words);
    forall k | 0 <= k < |words| ensures words[k] != entry {
      ToLowerIsLowerCase(words[k].word);
    }
  }

  /** Java's `s == null || s.isEmpty()`. */
  predicate NullOrEmpty(s: JString) {
    s.None? || s.value == ""
  }

  class WordService {
    const repo: WordRepository

    constructor(repo: WordRepository)
      ensures this.repo == repo
    {
      this.repo := repo;
    }

    /** `getWord`: null for a null or empty word, otherwise the first entry
        with the lower-cased word, or null. */
    method GetWord(word: JString) returns (r: Option<WordEntry>)
      ensures NullOrEmpty(word) ==> r == None
      ensures !NullOrEmpty(word) ==> r == match FirstWordIndex(DataOf(repo.words), ToLower(word.value))
        case None => None
        case Some(i) => Some(repo.words[i])
    {
      if word.None? || word.value == "" {
        return None;
      }
      r := repo.FindByWord(ToLower(word.value));
    }

    /** `addWord`: a null entry or a word already stored (after
        lower-casing) is rejected; otherwise the word alone is lower-cased
        through the validating `setWord`, whose exception passes through,
        and the entry is appended. */
    method AddWord(entry: WordEntry?) returns (r: Result<bool>)
      modifies repo, entry
      ensures entry == null ==> r == Err(IllegalArgument("Invalid Word entry")) && repo.words == old(repo.words)
      ensures entry != null && old(FirstWordIndex(DataOf(repo.words), ToLower(entry.word))).Some? ==>
        r == Err(IllegalArgument("Word already exists")) && repo.words == old(repo.words) && entry.Data() == old(entry.Data())
      ensures entry != null && old(FirstWordIndex(DataOf(repo.words), ToLower(entry.word))).None? ==>
        var o := WordCheck(Some(ToLower(old(entry.word))));
        && (o.Fail? ==> r == Err(o.error) && repo.words == old(repo.words) && entry.Data() == old(entry.Data()))
        && (o.Pass? ==> r == Ok(true) && repo.words == old(repo.words) + [entry] &&
                        entry.Data() == old(entry.Data()).(word := ToLower(old(entry.word))))
      ensures old(StoreValid(repo.words)) ==> StoreValid(repo.words)
    {
      if entry == null {
        return Err(IllegalArgument("Invalid Word entry"));
      }
      var lower := ToLower(entry.word);
      var found := repo.FindByWord(lower);
      if found.Some? {
        return Err(IllegalArgument("Word already exists"));
      }
      r := StoreNew(entry, lower);
    }

    /** Lower-cases a new entry's word through the validating setter and
        appends it, keeping a valid store valid; the setter's exception
        leaves everything as it was. */
    method StoreNew(entry: WordEntry, lower: string) returns (r: Result<bool>)
      requires lower == ToLower(entry.word)
      requires FirstWordIndex(DataOf(repo.words), lower).None?
      modifies repo, entry
      ensures var o := WordCheck(Some(lower));
        && (o.Fail? ==> r == Err(o.error) && repo.words == old(repo.words) && entry.Data() == old(entry.Data()))
        && (o.Pass? ==> r == Ok(true) && repo.words == old(repo.words) + [entry] &&
                        entry.Data() == old(entry.Data()).(word := lower))
      ensures old(StoreValid(repo.words)) ==> StoreValid(repo.words)
    {
      ghost var before := repo.words;
      ghost var valid := StoreValid(before);
      if valid {
        NotStoredWhenAbsent(before, entry);
      }
      var o := entry.SetWord(Some(lower));
      if o.Fail? {
        return Err(o.error);
      }
      ToLowerIsLowerCase(old(entry.word));
      if valid {
        assert StoreValid(before);
        StoreValidSnoc(before, entry);
      }
      repo.AddWord(entry);
      r := Ok(true);
    }

    /** `updateWord(updatedWord, oldWord)`: null arguments or an empty old
        word are rejected; a new word (ignoring case) that another entry
        already has gives null; otherwise the repository update on the
        lower-cased old word decides: `updatedWord` when it succeeded, null
        when no entry had that word, and the setter's exception when the
        update stopped part way. */
    method UpdateWord(updatedWord: WordEntry?, oldWord: JString) returns (r: Result<Option<WordEntry>>)
      modifies repo.words
      ensures repo.words == old(repo.words)
      ensures updatedWord == null || NullOrEmpty(oldWord) ==>
        r == Err(IllegalArgument("Invalid arguments")) && Unchanged(old(DataOf(repo.words)))
      ensures updatedWord != null && !NullOrEmpty(oldWord) ==>
        var norm := ToLower(oldWord.value);
        var newWord := old(ToLower(updatedWord.word));
        var conflict := norm != newWord && old(FirstWordIndex(DataOf(repo.words), newWord)).Some?;
        var target := old(FirstWordIndex(DataOf(repo.words), norm));
        && (conflict ==> r == Ok(None) && Unchanged(old(DataOf(repo.words))))
        && (!conflict && target.None? ==> r == Ok(None) && Unchanged(old(DataOf(repo.words))))
        && (!conflict && target.Some? ==>
              var (d, o) := ApplyUpdate(old(repo.words[target.value].Data()), old(updatedWord.Data()));
              r == (if o.Pass? then Ok(Some(updatedWord)) else Err(o.error)) &&
              UpdatedTo(old(DataOf(repo.words)), target.value, d))
    {
      if updatedWord == null || oldWord.None? || oldWord.value == "" {
        return Err(IllegalArgument("Invalid arguments"));
      }
      var norm := ToLower(oldWord.value);
      var newWord := ToLower(updatedWord.word);
      var conflict := Conflicts(norm, newWord);
      if conflict {
        return Ok(None);
      }
      r := UpdateStored(norm, updatedWord);
    }

    /** The stored entries still hold `before`. */
    ghost predicate Unchanged(before: seq<EntryData>)
      reads repo, repo.words
    {
      |before| == |repo.words| && forall k :: 0 <= k < |repo.words| ==> repo.words[k].Data() == before[k]
    }

    /** The entry at position `i` now holds `d`, and every other entry still
        holds its data from `before`; an entry listed twice changed at both
        places. */
    ghost predicate UpdatedTo(before: seq<EntryData>, i: nat, d: EntryData)
      reads repo, repo.words
    {
      && |before| == |repo.words| && i < |before|
      && forall k :: 0 <= k < |repo.words| ==>
           repo.words[k].Data() == if repo.words[k] == repo.words[i] then d else before[k]
    }

    /** Whether the new word differs from the old one and is already stored. */
    method Conflicts(norm: string, newWord: string) returns (c: bool)
      ensures c == (norm != newWord && FirstWordIndex(DataOf(repo.words), newWord).Some?)
    {
      c := false;
      if norm != newWord {
        var existing := repo.FindByWord(newWord);
        c := existing.Some?;
      }
    }

    /** The repository update and the answer `updateWord` makes of it. */
    method UpdateStored(norm: string, updatedWord: WordEntry) returns (r: Result<Option<WordEntry>>)
      modifies repo.words
      ensures repo.words == old(repo.words)
      ensures old(FirstWordIndex(DataOf(repo.words), norm)).None? ==>
        r == Ok(None) && Unchanged(old(DataOf(repo.words)))
      ensures old(FirstWordIndex(DataOf(repo.words), norm)).Some? ==>
        var i := old(FirstWordIndex(DataOf(repo.words), norm)).value;
        var (d, o) := ApplyUpdate(old(repo.words[i].Data()), old(updatedWord.Data()));
        r == (if o.Pass? then Ok(Some(updatedWord)) else Err(o.error)) && UpdatedTo(old(DataOf(repo.words)), i, d)
    {
      var success := repo.Update(norm, updatedWord);
      r := match success
        case Err(e) => Err(e)
        case Ok(true) => Ok(Some(updatedWord))
        case Ok(false) => Ok(None);
    }

    /** `removeWord`: a null or empty word is rejected; an absent
        (lower-cased) word gives false with no change; otherwise every entry
        with it is deleted and the answer is true. */
    method RemoveWord(word: JString) returns (r: Result<bool>)
      modifies repo
      ensures NullOrEmpty(word) ==> r == Err(IllegalArgument("Word cannot be null or empty")) && repo.words == old(repo.words)
      ensures !NullOrEmpty(word) && old(FirstWordIndex(DataOf(repo.words), ToLower(word.value))).None? ==>
        r == Ok(false) && repo.words == old(repo.words)
      ensures !NullOrEmpty(word) && old(FirstWordIndex(DataOf(repo.words), ToLower(word.value))).Some? ==>
        r == Ok(true) && repo.words == WithoutWord(old(repo.words), ToLower(word.value))
      ensures old(StoreValid(repo.words)) ==> StoreValid(repo.words)
    {
      if word.None? || word.value == "" {
        return Err(IllegalArgument("Word cannot be null or empty"));
      }
      var found := repo.FindByWord(ToLower(word.value));
      if found.None? {
        return Ok(false);
      }
      DeleteWord(ToLower(word.value));
      return Ok(true);
    }

    /** The repository's delete, which keeps a valid store valid. */
    method DeleteWord(word: string)
      modifies repo
      ensures repo.words == WithoutWord(old(repo.words), word)
      ensures old(StoreValid(repo.words)) ==> StoreValid(repo.words)
    {
      ghost var before := repo.words;
      ghost var valid := StoreValid(before);
      if valid {
        WithoutKeepsValid(before, word);
      }
      repo.Delete(word);
      assert repo.words == WithoutWord(before, word);
    }
  }
}
