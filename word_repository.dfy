/** The in-memory word store of the current back end: a list of word
    entries searched front to back, changed in place. Storage to a file is
    outside the model. */
module WordRepository {
  import opened Lang
  import opened WordEntries

  /** The field an entry is looked up by. */
  datatype Key = ByWord | ById | ByCategory

  function KeyOf(d: EntryData, key: Key): string {
    match key
    case ByWord => d.word
    case ById => d.id
    case ByCategory => d.category
  }

  /** The position of the first entry whose `key` field equals `value`. */
  function FirstIndex(ds: seq<EntryData>, key: Key, value: string): (r: Option<nat>)
    ensures r.None? <==> forall k :: 0 <= k < |ds| ==> KeyOf(ds[k], key) != value
    ensures r.Some? ==> r.value < |ds| && KeyOf(ds[r.value], key) == value
    ensures r.Some? ==> forall k :: 0 <= k < r.value ==> KeyOf(ds[k], key) != value
  {
    if ds == [] then None
    else if KeyOf(ds[0], key) == value then Some(0)
    else match FirstIndex(ds[1..], key, value)
      case None => None
      case Some(i) => Some(i + 1)
  }

  /** A match with none before it is the first. */
  lemma FirstIndexAt(ds: seq<EntryData>, key: Key, value: string, i: nat)
    requires i < |ds| && KeyOf(ds[i], key) == value
    requires forall k :: 0 <= k < i ==> KeyOf(ds[k], key) != value
    ensures FirstIndex(ds, key, value) == Some(i)
  {
  }

  /** The entries whose `key` field equals `value`, in list order. */
  function Matching(ws: seq<WordEntry>, key: Key, value: string): (r: seq<WordEntry>)
    reads ws
    ensures forall k :: 0 <= k < |r| ==> r[k] in ws && KeyOf(r[k].Data(), key) == value
    ensures forall k :: 0 <= k < |ws| && KeyOf(ws[k].Data(), key) == value ==> ws[k] in r
  {
    if ws == [] then []
    else (if KeyOf(ws[0].Data(), key) == value then [ws[0]] else []) + Matching(ws[1..], key, value)
  }

  /** The entries whose `key` field differs from `value`, in list order. */
  function Without(ws: seq<WordEntry>, key: Key, value: string): (r: seq<WordEntry>)
    reads ws
    ensures |r| <= |ws|
    ensures forall k :: 0 <= k < |r| ==> r[k] in ws && KeyOf(r[k].Data(), key) != value
    ensures forall k :: 0 <= k < |ws| && KeyOf(ws[k].Data(), key) != value ==> ws[k] in r
  {
    if ws == [] then []
    else (if KeyOf(ws[0].Data(), key) != value then [ws[0]] else []) + Without(ws[1..], key, value)
  }

  lemma {:induction false} MatchingSnoc(ws: seq<WordEntry>, e: WordEntry, key: Key, value: string)
    ensures Matching(ws + [e], key, value) ==
      Matching(ws, key, value) + (if KeyOf(e.Data(), key) == value then [e] else [])
  {
    if ws == [] {
      assert ws + [e] == [e];
    } else {
      assert (ws + [e])[1..] == ws[1..] + [e];
      MatchingSnoc(ws[1..], e, key, value);
    }
  }

  /** Removing shortens the list exactly when some entry matches. */
  lemma {:induction false} WithoutShorter(ws: seq<WordEntry>, key: Key, value: string)
    ensures |Without(ws, key, value)| < |ws| <==> exists k :: 0 <= k < |ws| && KeyOf(ws[k].Data(), key) == value
  {
    if ws != [] {
      WithoutShorter(ws[1..], key, value);
      if KeyOf(ws[0].Data(), key) != value {
        forall k | 1 <= k < |ws| && KeyOf(ws[k].Data(), key) == value
          ensures exists j :: 0 <= j < |ws[1..]| && KeyOf(ws[1..][j].Data(), key) == value
        {
          assert ws[1..][k - 1] == ws[k];
        }
      }
    }
  }

  /** Removing works piece by piece, so the kept entries stay in list order. */
  lemma {:induction false} WithoutConcat(a: seq<WordEntry>, b: seq<WordEntry>, key: Key, value: string)
    ensures Without(a + b, key, value) == Without(a, key, value) + Without(b, key, value)
  {
    if a == [] {
      assert a + b == b;
    } else {
      assert (a + b)[1..] == a[1..] + b;
      WithoutConcat(a[1..], b, key, value);
    }
  }

  /** Removing keeps the other entries in their order and removes nothing else. */
  lemma {:induction false} WithoutKeepsOthers(ws: seq<WordEntry>, key: Key, value: string)
    requires forall k :: 0 <= k < |ws| ==> KeyOf(ws[k].Data(), key) != value
    ensures Without(ws, key, value) == ws
  {
    if ws != [] {
      WithoutKeepsOthers(ws[1..], key, value);
    }
  }

  class WordRepository {
    var words: seq<WordEntry>

    /** A repository with no stored file starts empty. */
    constructor()
      ensures words == []
    {
      words := [];
    }

    /** The position of the first entry whose `key` field equals `value`. */
    method IndexOf(key: Key, value: string) returns (r: Option<nat>)
      ensures r == FirstIndex(DataOf(words), key, value)
    {
      ghost var before := DataOf(words);
      var i := 0;
      while i < |words| && KeyOf(words[i].Data(), key) != value
        invariant 0 <= i <= |words|
        invariant forall k :: 0 <= k < i ==> KeyOf(before[k], key) != value
      {
        i := i + 1;
      }
      if i == |words| {
        return None;
      }
      FirstIndexAt(before, key, value, i);
      return Some(i);
    }

    /** The first entry whose `key` field equals `value`, or null. */
    method FindFirst(key: Key, value: string) returns (r: Option<WordEntry>)
      ensures r == match FirstIndex(DataOf(words), key, value)
        case None => None
        case Some(i) => Some(words[i])
    {
      var at := IndexOf(key, value);
      r := match at
        case None => None
        case Some(i) => Some(words[i]);
    }

    /** `findByWord`: the first entry with exactly that word, or null. */
    method FindByWord(word: string) returns (r: Option<WordEntry>)
      ensures r == match FirstIndex(DataOf(words), ByWord, word)
        case None => None
        case Some(i) => Some(words[i])
    {
      r := FindFirst(ByWord, word);
    }

    /** `findById`: the first entry with exactly that id, or null. */
    method FindById(id: string) returns (r: Option<WordEntry>)
      ensures r == match FirstIndex(DataOf(words), ById, id)
        case None => None
        case Some(i) => Some(words[i])
    {
      r := FindFirst(ById, id);
    }

    /** `findByCategory`: the entries with exactly that category, in list order. */
    method FindByCategory(category: string) returns (found: seq<WordEntry>)
      ensures found == Matching(words, ByCategory, category)
    {
      found := [];
      var i := 0;
      while i < |words|
        invariant 0 <= i <= |words|
        invariant found == Matching(words[..i], ByCategory, category)
      {
        MatchingSnoc(words[..i], words[i], ByCategory, category);
        assert words[..i + 1] == words[..i] + [words[i]];
        if words[i].category == category {
          found := found + [words[i]];
        }
        i := i + 1;
      }
      assert words[..i] == words;
    }

    /** Copies `updatedEntry`'s word, hint and category onto the first entry
        whose `key` field equals `value`; false, with nothing changed, when
        there is none. An entry listed twice changes at both places. */
    method UpdateFirst(key: Key, value: string, updatedEntry: WordEntry) returns (ok: bool)
      modifies words
      ensures words == old(words)
      ensures ok <==> old(FirstIndex(DataOf(words), key, value)).Some?
      ensures !ok ==> forall k :: 0 <= k < |words| ==> words[k].Data() == old(words[k].Data())
      ensures ok ==> var i := old(FirstIndex(DataOf(words), key, value)).value;
        forall k :: 0 <= k < |words| ==>
          (words[k].Data() == if words[k] == words[i] then Updated(old(words[k].Data()), old(updatedEntry.Data())) else old(words[k].Data()))
    {
      var at := IndexOf(key, value);
      if at.None? {
        return false;
      }
      var target := words[at.value];
      target.UpdateWord(updatedEntry);
      ok := true;
    }

    /** `updateById`. */
    method UpdateById(id: string, updatedEntry: WordEntry) returns (ok: bool)
      modifies words
      ensures words == old(words)
      ensures ok <==> old(FirstIndex(DataOf(words), ById, id)).Some?
      ensures !ok ==> forall k :: 0 <= k < |words| ==> words[k].Data() == old(words[k].Data())
      ensures ok ==> var i := old(FirstIndex(DataOf(words), ById, id)).value;
        forall k :: 0 <= k < |words| ==>
          (words[k].Data() == if words[k] == words[i] then Updated(old(words[k].Data()), old(updatedEntry.Data())) else old(words[k].Data()))
    {
      ok := UpdateFirst(ById, id, updatedEntry);
    }

    /** `update(oldWord, updatedEntry)`, present only as a draft in this
        repository and called by the word service. */
    method Update(oldWord: string, updatedEntry: WordEntry) returns (ok: bool)
      modifies words
      ensures words == old(words)
      ensures ok <==> old(FirstIndex(DataOf(words), ByWord, oldWord)).Some?
      ensures !ok ==> forall k :: 0 <= k < |words| ==> words[k].Data() == old(words[k].Data())
      ensures ok ==> var i := old(FirstIndex(DataOf(words), ByWord, oldWord)).value;
        forall k :: 0 <= k < |words| ==>
          (words[k].Data() == if words[k] == words[i] then Updated(old(words[k].Data()), old(updatedEntry.Data())) else old(words[k].Data()))
    {
      ok := UpdateFirst(ByWord, oldWord, updatedEntry);
    }

    /** `getWords`: the list as a value, so changing the copy leaves the store. */
    method GetWords() returns (copy: seq<WordEntry>)
      ensures copy == words
    {
      copy := words;
    }

    /** `deleteById`: removes every entry with that id; true iff one was removed. */
    method DeleteById(id: string) returns (removed: bool)
      modifies this
      ensures words == Without(old(words), ById, id)
      ensures removed <==> exists k :: 0 <= k < |old(words)| && old(words)[k].id == id
    {
      var kept := Without(words, ById, id);
      WithoutShorter(words, ById, id);
      removed := |kept| < |words|;
      words := kept;
    }

    /** `delete(word)`, present only as a draft in this repository and called
        by the word service: removes every entry with that word. */
    method Delete(word: string)
      modifies this
      ensures words == Without(old(words), ByWord, word)
    {
      words := Without(words, ByWord, word);
    }

    /** `addWord`: appends, with no uniqueness check. */
    method AddWord(wordEntry: WordEntry)
      modifies this
      ensures words == old(words) + [wordEntry]
    {
      words := words + [wordEntry];
    }
  }
}
