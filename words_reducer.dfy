/** The reducer that keeps the client's list of word entries. */
module WordsReducer {

  /** A word entry as the client holds it; entries are matched by `id`. */
  datatype Word = Word(id: string, word: string, category: string, hint: string)

  /** The four action types and any other. */
  datatype Action =
    | InitWords(words: seq<Word>)
    | AddWord(entry: Word)
    | UpdateWord(entry: Word)
    | DeleteWord(id: string)
    | Unrecognized(kind: string)

  /** `wordsReducer`: what each action does to the list. */
  function Reduce(state: seq<Word>, action: Action): (r: seq<Word>)
    ensures action.InitWords? ==> r == action.words
    ensures action.AddWord? ==> |r| == |state| + 1 && r[..|state|] == state && r[|state|] == action.entry
    ensures action.UpdateWord? ==> |r| == |state|
    ensures action.DeleteWord? ==> |r| <= |state| && forall i :: 0 <= i < |r| ==> r[i].id != action.id
    ensures action.Unrecognized? ==> r == state
  {
    match action
    case InitWords(ws) => ws
    case AddWord(w) => state + [w]
    case UpdateWord(w) => Replace(state, w)
    case DeleteWord(id) => Remove(state, id)
    case Unrecognized(_) => state
  }

  /** `state.map(...)`: every entry with the payload's id becomes the payload. */
  function Replace(state: seq<Word>, w: Word): (r: seq<Word>)
    ensures |r| == |state|
  {
    if state == [] then []
    else [if state[0].id == w.id then w else state[0]] + Replace(state[1..], w)
  }

  /** `state.filter(...)`: the entries whose id differs from `id`. */
  function Remove(state: seq<Word>, id: string): (r: seq<Word>)
    ensures |r| <= |state|
    ensures forall i :: 0 <= i < |r| ==> r[i].id != id
  {
    if state == [] then []
    else (if state[0].id != id then [state[0]] else []) + Remove(state[1..], id)
  }

  /** INIT_WORDS replaces the list; an unknown action leaves it. */
  lemma InitAndUnknown(state: seq<Word>, ws: seq<Word>, kind: string)
    ensures Reduce(state, InitWords(ws)) == ws
    ensures Reduce(state, Unrecognized(kind)) == state
  {
  }

  /** ADD_WORD appends at the end and keeps the earlier entries. */
  lemma AddAppends(state: seq<Word>, w: Word)
    ensures var r := Reduce(state, AddWord(w));
      |r| == |state| + 1 && r[..|state|] == state && r[|state|] == w
  {
  }

  /** UPDATE_WORD keeps the length and replaces exactly the entries with the payload's id. */
  lemma {:induction false} ReplaceAt(state: seq<Word>, w: Word)
    ensures var r := Reduce(state, UpdateWord(w));
      |r| == |state| &&
      forall i :: 0 <= i < |state| ==> r[i] == if state[i].id == w.id then w else state[i]
  {
    if state != [] {
      ReplaceAt(state[1..], w);
    }
  }

  /** UPDATE_WORD with an id not in the list gives an equal list. */
  lemma ReplaceAbsent(state: seq<Word>, w: Word)
    requires forall i :: 0 <= i < |state| ==> state[i].id != w.id
    ensures Reduce(state, UpdateWord(w)) == state
  {
    ReplaceAt(state, w);
  }

  /** DELETE_WORD keeps exactly the entries with another id. */
  lemma {:induction false} RemoveMembers(state: seq<Word>, id: string)
    ensures forall x :: x in Reduce(state, DeleteWord(id)) <==> x in state && x.id != id
  {
    if state != [] {
      RemoveMembers(state[1..], id);
      assert state == [state[0]] + state[1..];
    }
  }

  /** DELETE_WORD keeps the order of the rest: it works piece by piece. */
  lemma {:induction false} RemoveConcat(a: seq<Word>, b: seq<Word>, id: string)
    ensures Remove(a + b, id) == Remove(a, id) + Remove(b, id)
  {
    if a != [] {
      assert (a + b)[1..] == a[1..] + b;
      RemoveConcat(a[1..], b, id);
    } else {
      assert a + b == b;
    }
  }

  /** DELETE_WORD with an id not in the list gives an equal list. */
  lemma {:induction false} RemoveAbsent(state: seq<Word>, id: string)
    requires forall i :: 0 <= i < |state| ==> state[i].id != id
    ensures Remove(state, id) == state
  {
    if state != [] {
      RemoveAbsent(state[1..], id);
    }
  }

  /** Deleting twice is deleting once. */
  lemma RemoveIdempotent(state: seq<Word>, id: string)
    ensures Reduce(Reduce(state, DeleteWord(id)), DeleteWord(id)) == Reduce(state, DeleteWord(id))
  {
    var r := Remove(state, id);
    RemoveMembers(state, id);
    forall i | 0 <= i < |r| ensures r[i].id != id {
      assert r[i] in r;
    }
    RemoveAbsent(r, id);
  }
}
