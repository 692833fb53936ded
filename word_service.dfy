/** The word service of the current back end: argument checks, case
    normalisation and duplicate rejection in front of the word repository. */
module WordService {
  import opened Lang
  import opened Text
  import opened WordEntries
  import opened WordRepository

  /** The stored words are lower-case and pairwise distinct. */
  ghost predicate StoreValid(words: seq<WordEntry>)
    reads words
    decreases |words|
  {
    words == [] ||
    (IsLowerCase(words[0].word) && (forall k :: 1 <= k < |words| ==> words[k].word != words[0].word) &&
     StoreValid(words[1..]))
  }

  /** A valid store, position by position. */
  lemma {:induction false} StoreValidMeans(words: seq<WordEntry>)
    requires StoreValid(words)
    ensures forall k :: 0 <= k < |words| ==> IsLowerCase(words[k].word)
    ensures forall j, k :: 0 <= j < k < |words| ==> words[j].word != words[k].word
    decreases |words|
  {
    if words != [] {
      StoreValidMeans(words[1..]);
      assert forall k :: 1 <= k < |words| ==> words[k] == words[1..][k - 1];
    }
  }

  /** Appending a lower-case word not yet stored keeps the store valid. */
  lemma {:induction false} StoreValidSnoc(words: seq<WordEntry>, e: WordEntry)
    requires StoreValid(words) && IsLowerCase(e.word)
    requires forall k :: 0 <= k < |words| ==> words[k].word != e.word
    ensures StoreValid(words + [e])
    decreases |words|
  {
    if words == [] {
      assert words + [e] == [e];
    } else {
      assert (words + [e])[1..] == words[1..] + [e];
      StoreValidSnoc(words[1..], e);
    }
  }

  /** A lower-case word not in a valid store can go in front of it. */
  lemma ConsValid(e: WordEntry, rest: seq<WordEntry>)
    requires StoreValid(rest) && IsLowerCase(e.word)
    requires forall k :: 0 <= k < |rest| ==> rest[k].word != e.word
    ensures StoreValid([e] + rest)
  {
    var r := [e] + rest;
    assert r[1..] == rest;
    forall k | 1 <= k < |r| ensures r[k].word != r[0].word {
      assert r[k] == rest[k - 1];
    }
  }

  /** In a valid store no later entry has the first entry's word. */
  lemma NotInTail(words: seq<WordEntry>, e: WordEntry)
    requires StoreValid(words) && words != [] && e in words[1..]
    ensures e.word != words[0].word
  {
    var j :| 0 <= j < |words[1..]| && words[1..][j] == e;
    assert words[j + 1] == e;
  }

  /** Deleting keeps a valid store valid. */
  lemma {:induction false} WithoutKeepsValid(words: seq<WordEntry>, word: string)
    requires StoreValid(words)
    ensures StoreValid(Without(words, ByWord, word))
    decreases |words|
  {
    if words != [] {
      WithoutKeepsValid(words[1..], word);
      var rest := Without(words[1..], ByWord, word);
      if words[0].word != word {
        forall k | 0 <= k < |rest| ensures rest[k].word != words[0].word {
          NotInTail(words, rest[k]);
        }
        ConsValid(words[0], rest);
        assert Without(words, ByWord, word) == [words[0]] + rest;
      } else {
        assert Without(words, ByWord, word) == rest;
      }
    }
  }

  /** Java's `s == null || s.isEmpty()`. */
  predicate NullOrEmpty(s: JString) {
    s.None? || s.value == ""
  }

  class WordService {
    const repo: WordRepository

    constructor(repo: WordRepository)
      ensures this.repo == repo
    {
      this.repo := repo;
    }

    /** `getRandomWordByCategory`: a null or empty category is rejected;
        otherwise some entry of the lower-cased category (the random pick is
        a free choice), or null when it has none. */
    method GetRandomWordByCategory(category: JString) returns (r: Result<Option<WordEntry>>)
      ensures NullOrEmpty(category) ==> r == Err(IllegalArgument("Invalid category"))
      ensures !NullOrEmpty(category) ==>
        var m := Matching(repo.words, ByCategory, ToLower(category.value));
        && (m == [] ==> r == Ok(None))
        && (m != [] ==> r.Ok? && r.value.Some? && r.value.value in m)
    {
      if category.None? || category.value == "" {
        return Err(IllegalArgument("Invalid category"));
      }
      var list := repo.FindByCategory(ToLower(category.value));
      if |list| == 0 {
        return Ok(None);
      }
      var i :| 0 <= i < |list|;
      return Ok(Some(list[i]));
    }

    /** `getWord`: a null or empty word is rejected; otherwise the first
        entry with the lower-cased word, or null. */
    method GetWord(word: JString) returns (r: Result<Option<WordEntry>>)
      ensures NullOrEmpty(word) ==> r == Err(IllegalArgument("Invalid word"))
      ensures !NullOrEmpty(word) ==> r == Ok(match FirstIndex(DataOf(repo.words), ByWord, ToLower(word.value))
        case None => None
        case Some(i) => Some(repo.words[i]))
    {
      if word.None? || word.value == "" {
        return Err(IllegalArgument("Invalid word"));
      }
      var found := repo.FindByWord(ToLower(word.value));
      return Ok(found);
    }

    /** `addWord`: a null entry or a word already stored (after
        lower-casing) is rejected; otherwise the entry's word and category
        are lower-cased and it is appended. */
    method AddWord(entry: WordEntry?) returns (r: Result<bool>)
      modifies repo, entry
      ensures entry == null ==> r == Err(IllegalArgument("Invalid Word entry")) && repo.words == old(repo.words)
      ensures entry != null && old(FirstIndex(DataOf(repo.words), ByWord, ToLower(entry.word))).Some? ==>
        r == Err(IllegalArgument("Word already exists")) && repo.words == old(repo.words) && entry.Data() == old(entry.Data())
      ensures entry != null && old(FirstIndex(DataOf(repo.words), ByWord, ToLower(entry.word))).None? ==>
        && r == Ok(true)
        && repo.words == old(repo.words) + [entry]
        && entry.Data() == old(entry.Data()).(word := ToLower(old(entry.word)), category := ToLower(old(entry.category)))
      ensures old(StoreValid(repo.words)) ==> StoreValid(repo.words)
    {
      if entry == null {
        return Err(IllegalArgument("Invalid Word entry"));
      }
      var lower := ToLower(entry.word);
      var found := repo.FindByWord(lower);
      if found.Some? {
        return Err(IllegalArgument("Word already exists"));
      }
      StoreNew(entry, lower);
      r := Ok(true);
    }

    /** Lower-cases a new entry's word and category and appends it, keeping
        a valid store valid. */
    method StoreNew(entry: WordEntry, lower: string)
      requires lower == ToLower(entry.word)
      requires FirstIndex(DataOf(repo.words), ByWord, lower).None?
      modifies repo, entry
      ensures repo.words == old(repo.words) + [entry]
      ensures entry.Data() == old(entry.Data()).(word := lower, category := ToLower(old(entry.category)))
      ensures old(StoreValid(repo.words)) ==> StoreValid(repo.words)
    {
      ghost var before := repo.words;
      ghost var valid := StoreValid(before);
      if valid {
        NotStoredWhenAbsent(before, entry);
      }
      entry.SetWord(lower);
      entry.SetCategory(ToLower(entry.category));
      ToLowerIsLowerCase(old(entry.word));
      if valid {
        assert StoreValid(before);
        StoreValidSnoc(before, entry);
      }
      repo.AddWord(entry);
    }

    /** `updateWord(updatedWord, oldWord)`: null arguments or an empty old
        word are rejected; a new word (ignoring case) that another entry
        already has is a conflict (409); otherwise the first entry with the
        lower-cased old word takes the updated fields, and a missing one is a
        server error (500). */
    method UpdateWord(updatedWord: WordEntry?, oldWord: JString) returns (r: Result<WordEntry>)
      modifies repo.words
      ensures repo.words == old(repo.words)
      ensures updatedWord == null || NullOrEmpty(oldWord) ==>
        r == Err(IllegalArgument("Invalid arguments")) && Unchanged(old(DataOf(repo.words)))
      ensures updatedWord != null && !NullOrEmpty(oldWord) ==>
        var norm := ToLower(oldWord.value);
        var newWord := old(ToLower(updatedWord.word));
        var conflict := norm != newWord && old(FirstIndex(DataOf(repo.words), ByWord, newWord)).Some?;
        var target := old(FirstIndex(DataOf(repo.words), ByWord, norm));
        && (conflict ==> r == Err(ResponseStatus(Conflict, "Word already exists")) && Unchanged(old(DataOf(repo.words))))
        && (!conflict && target.None? ==>
              r == Err(ResponseStatus(InternalServerError, "Failed to update word")) && Unchanged(old(DataOf(repo.words))))
        && (!conflict && target.Some? ==>
              r == Ok(updatedWord) && UpdatedAt(old(DataOf(repo.words)), target.value, old(updatedWord.Data())))
    {
      if updatedWord == null || oldWord.None? || oldWord.value == "" {
        return Err(IllegalArgument("Invalid arguments"));
      }
      var norm := ToLower(oldWord.value);
      var newWord := ToLower(updatedWord.word);
      var conflict := Conflicts(norm, newWord);
      if conflict {
        return Err(ResponseStatus(Conflict, "Word already exists"));
      }
      r := UpdateStored(norm, updatedWord);
    }

    /** The repository update and the answer `updateWord` makes of it. */
    method UpdateStored(norm: string, updatedWord: WordEntry) returns (r: Result<WordEntry>)
      modifies repo.words
      ensures repo.words == old(repo.words)
      ensures old(FirstIndex(DataOf(repo.words), ByWord, norm)).None? ==>
        r == Err(ResponseStatus(InternalServerError, "Failed to update word")) && Unchanged(old(DataOf(repo.words)))
      ensures old(FirstIndex(DataOf(repo.words), ByWord, norm)).Some? ==>
        r == Ok(updatedWord) &&
        UpdatedAt(old(DataOf(repo.words)), old(FirstIndex(DataOf(repo.words), ByWord, norm)).value, old(updatedWord.Data()))
    {
      var ok := repo.Update(norm, updatedWord);
      r := if ok then Ok(updatedWord) else Err(ResponseStatus(InternalServerError, "Failed to update word"));
    }

    /** The stored entries still hold `before`. */
    ghost predicate Unchanged(before: seq<EntryData>)
      reads repo, repo.words
    {
      |before| == |repo.words| && forall k :: 0 <= k < |repo.words| ==> repo.words[k].Data() == before[k]
    }

    /** The entry at position `i` took `upd`'s word, hint and category over
        the data it had in `before`, and every other entry still holds its
        data from `before`; an entry listed twice changed at both places. */
    ghost predicate UpdatedAt(before: seq<EntryData>, i: nat, upd: EntryData)
      reads repo, repo.words
    {
      && |before| == |repo.words| && i < |before|
      && forall k :: 0 <= k < |repo.words| ==>
           repo.words[k].Data() == if repo.words[k] == repo.words[i] then Updated(before[k], upd) else before[k]
    }

    /** Whether the new word differs from the old one and is already stored. */
    method Conflicts(norm: string, newWord: string) returns (c: bool)
      ensures c == (norm != newWord && FirstIndex(DataOf(repo.words), ByWord, newWord).Some?)
    {
      c := false;
      if norm != newWord {
        var existing := repo.FindByWord(newWord);
        c := existing.Some?;
      }
    }

    /** `removeWord`: a null or empty word is rejected; an absent
        (lower-cased) word gives false with no change; otherwise every entry
        with it is deleted and the answer is true. */
    method RemoveWord(word: JString) returns (r: Result<bool>)
      modifies repo
      ensures NullOrEmpty(word) ==> r == Err(IllegalArgument("Word cannot be null or empty")) && repo.words == old(repo.words)
      ensures !NullOrEmpty(word) && old(FirstIndex(DataOf(repo.words), ByWord, ToLower(word.value))).None? ==>
        r == Ok(false) && repo.words == old(repo.words)
      ensures !NullOrEmpty(word) && old(FirstIndex(DataOf(repo.words), ByWord, ToLower(word.value))).Some? ==>
        r == Ok(true) && repo.words == Without(old(repo.words), ByWord, ToLower(word.value))
      ensures old(StoreValid(repo.words)) ==> StoreValid(repo.words)
    {
      if word.None? || word.value == "" {
        return Err(IllegalArgument("Word cannot be null or empty"));
      }
      var found := repo.FindByWord(ToLower(word.value));
      if found.None? {
        return Ok(false);
      }
      DeleteWord(ToLower(word.value));
      return Ok(true);
    }

    /** The repository's delete, which keeps a valid store valid. */
    method DeleteWord(word: string)
      modifies repo
      ensures repo.words == Without(old(repo.words), ByWord, word)
      ensures old(StoreValid(repo.words)) ==> StoreValid(repo.words)
    {
      ghost var before := repo.words;
      ghost var valid := StoreValid(before);
      if valid {
        WithoutKeepsValid(before, word);
      }
      repo.Delete(word);
      assert repo.words == Without(before, ByWord, word);
    }

    /** `getCategories`: every stored category exactly once, in no
        particular order. */
    method GetCategories() returns (categories: seq<string>)
      ensures forall c :: c in categories <==> exists k :: 0 <= k < |repo.words| && repo.words[k].category == c
      ensures forall i, j :: 0 <= i < j < |categories| ==> categories[i] != categories[j]
    {
      var all := repo.GetWords();
      var seen: set<string> := {};
      var k := 0;
      while k < |all|
        invariant 0 <= k <= |all|
        invariant forall c :: c in seen <==> exists i :: 0 <= i < k && all[i].category == c
      {
        seen := seen + {all[k].category};
        k := k + 1;
      }
      categories := [];
      var rest := seen;
      while rest != {}
        invariant forall c :: c in seen <==> c in rest || c in categories
        invariant forall c :: c in categories ==> c !in rest
        invariant forall i, j :: 0 <= i < j < |categories| ==> categories[i] != categories[j]
        decreases |rest|
      {
        var c :| c in rest;
        categories := categories + [c];
        rest := rest - {c};
      }
    }
  }

  /** When the store is valid and has no entry with the lower-cased word of
      `entry`, `entry` itself is not stored. */
  lemma NotStoredWhenAbsent(words: seq<WordEntry>, entry: WordEntry)
    requires StoreValid(words)
    requires FirstIndex(DataOf(words), ByWord, ToLower(entry.word)).None?
    ensures entry !in words
    ensures forall k :: 0 <= k < |words| ==> words[k].word != ToLower(entry.word)
  {
    assert forall k :: 0 <= k < |words| ==> DataOf(words)[k].word == words[k].word;
    StoreValidMeans(words);
    forall k | 0 <= k < |words| ensures words[k] != entry {
      ToLowerIsLowerCase(words[k].word);
    }
  }
}
