# Hangman: a verified model of the game logic and the word and score back end

This project models, in Dafny, the deterministic core of a Hangman web
application: a React client and a Spring back end that keeps a word list
and a leaderboard.

**The client**
- The game page's letter-guess transition (`Hangman`): the initial round
  state, `handleGuess`, and the keyboard's disabled and colour rule.
- The request-state reducer of the data-fetching hook (`FetchState`): its
  `reset` helper, and the actions one request dispatches.
- The reducer of the managed word list (`WordsReducer`).
- The full-word guess input and its filter (`WordGuess`).
- The stopwatch tick and its `mm:ss.cc` display (`Stopwatch`).
- The field validators (`ValidateForm`) and the add/edit word form
  (`WordForm`).

**The back end** comes in three generations of word entry and word store
and two generations of services:
- The current package: word entries with declared constraints
  (`WordEntries`), the word store (`WordRepository`), the word service
  (`WordService`), the leaderboard store (`ScoreRepository`), the
  leaderboard service (`ScoreService`), the argument checks (`Validation`)
  and the application-wide exception handler (`ExceptionHandler`).
- The older package: validating word entries (`LegacyWordEntries`), their
  store (`LegacyWordRepository`) and service (`LegacyWordService`), the
  integer score formula (`LegacyScoreService`) and its checks
  (`LegacyValidation`).
- The data-access package: a lower-casing validating entry
  (`DaoWordEntries`) and a store that hands out copies (`DaoWordRepository`).

**How the model is built**
- Objects whose fields the source updates in place are classes with
  `modifies` clauses: word entries, stores, services, the stopwatch, the
  guess input and the form component.
- Pure logic is functions with lemmas about them.
- Java `null` strings are `Option<string>`.
- A thrown exception is the `Err` or `Fail` case of a `Result` or
  `Outcome`.
- Case folding, `trim` and the regular-expression classes are ASCII.
  `Text` holds these shared string helpers, and `Lang` holds the shared
  datatypes.

**Equivalences the model relies on**
- The leaderboard sort is Java's stable `List.sort` by descending score. It
  is written as an insertion sort. It is proved sorted, a permutation, and
  order-keeping among equal scores. A stable sort by one key has exactly
  one result, so the model's result is the source's.
- The store behind the older score service is not part of this model. It
  is taken to be the current leaderboard store.
- The current word service calls `update` and `delete` by word. The
  current store has those only as commented-out drafts. They are modelled
  from those drafts, which match the older store's versions.
- The current store looks entries up by `getId()`, but the current word
  entry declares no id. The model adds an `id` field.

## Model

| member | source | states |
|---|---|---|
| Hangman.InitialState | frontend-ex3/src/components/gamePage/GamePage.js:18-24 | the round starts with the word lower-cased (equal to the given one ignoring case, empty when missing), every position hidden, no guesses, six attempts, playing |
| Hangman.HandleGuess | frontend-ex3/src/components/gamePage/GamePage.js:27-71 | a guess never changes the word and keeps the hidden word exactly as long as the word |
| Hangman.Reveal | frontend-ex3/src/components/gamePage/GamePage.js:40-45 | the revealed hidden word has the word's length |
| Hangman.Play | frontend-ex3/src/components/gamePage/GamePage.js:27-71 | a run of key presses keeps the word and the hidden word's length |
| Hangman.InitialStateValid | frontend-ex3/src/components/gamePage/GamePage.js:18-24 | the initial state lower-cases the word, hides every position (spaces included), has no guesses, six attempts and status playing, and satisfies the game invariant |
| Hangman.GuessPreservesInv | frontend-ex3/src/components/gamePage/GamePage.js:27-71 | one guess keeps the invariant: no letter guessed twice, attempts = 6 − wrong letters and never negative, each position shows exactly what the guesses reveal, status follows from attempts and blanks |
| Hangman.PlayPreservesInv | frontend-ex3/src/components/gamePage/GamePage.js:27-71 | any sequence of guesses keeps that invariant |
| Hangman.ReachableStatesValid | frontend-ex3/src/components/gamePage/GamePage.js:18-71 | every state reached from the initial state by key presses satisfies the invariant |
| Hangman.GuessNoOp | frontend-ex3/src/components/gamePage/GamePage.js:29-31 | a guess when the round is over, or of a letter already guessed, leaves the state unchanged |
| Hangman.GuessStep | frontend-ex3/src/components/gamePage/GamePage.js:33-61 | a fresh guess appends exactly that letter, reveals the positions holding a guessed letter or a space, costs one attempt iff the letter is absent, gives lost iff attempts reach zero, and won iff attempts remain and no blank is left |
| Hangman.GuessIdempotent | frontend-ex3/src/components/gamePage/GamePage.js:29-34 | pressing the same key twice is the same as pressing it once |
| Hangman.RevealMonotone | frontend-ex3/src/components/gamePage/GamePage.js:40-45 | in a reachable state a revealed position never reverts, and a position only ever changes to its own character |
| Hangman.GameOverIsFinal | frontend-ex3/src/components/gamePage/GamePage.js:29-31 | once won or lost, every further key press sequence is a no-op |
| Hangman.ScenarioCat | frontend-ex3/src/components/gamePage/GamePage.js:18-71 | guessing c, a, t on "cat" shows c__, ca_, cat and wins with six attempts left |
| Hangman.KeyDisabled | frontend-ex3/src/components/gamePage/GamePage.js:83-86 | a key is disabled exactly when pressing it would change nothing |
| Hangman.KeyStyleOf | frontend-ex3/src/components/gamePage/GamePage.js:87-93 | an untried key is outlined; a tried key is green iff its letter is in the word and red iff it is not |
| Hangman.StyleAfterGuess | frontend-ex3/src/components/gamePage/GamePage.js:87-93 | after an enabled key is pressed it is disabled, green iff its letter is in the word, red iff the press cost an attempt |
| FetchState.Initial | frontend-ex3/src/customHooks/useDataApi.js:66-74 | the hook starts not loading, with no error, and with the initial data, an omitted one defaulting to null so the data is never undefined; the state is consistent |
| FetchState.ResetAction | frontend-ex3/src/customHooks/useDataApi.js:76-82 | `reset` dispatches RESET with the given data, an omitted one defaulting to null |
| FetchState.Run | frontend-ex3/src/customHooks/useDataApi.js:13-49 | dispatching a sequence of actions throws iff one of them has an unknown type |
| FetchState.Reduce | frontend-ex3/src/customHooks/useDataApi.js:13-49 | the reducer throws exactly for an action type other than the four known ones |
| FetchState.ReduceEffects | frontend-ex3/src/customHooks/useDataApi.js:15-38 | FETCH_INIT starts loading and clears error and data; FETCH_SUCCESS stores the payload as data; FETCH_FAILURE stores the payload as error and clears data |
| FetchState.ResetClears | frontend-ex3/src/customHooks/useDataApi.js:39-45 | RESET clears loading and error and sets data to a truthy payload, or null |
| FetchState.ReduceConsistent | frontend-ex3/src/customHooks/useDataApi.js:13-49 | every state the reducer produces is never both loading and error, and an error carries no data |
| FetchState.RunConsistent | frontend-ex3/src/customHooks/useDataApi.js:13-49 | a consistent state stays consistent over any sequence of dispatched actions |
| FetchState.InitialConsistent | frontend-ex3/src/customHooks/useDataApi.js:69-74 | from the hook's initial state, every reachable state is consistent |
| FetchState.FetchActions | frontend-ex3/src/customHooks/useDataApi.js:93-118 | a request dispatches nothing exactly when the url is empty |
| FetchState.FetchSettles | frontend-ex3/src/customHooks/useDataApi.js:95-115 | after a request the state is settled: success holds the body; failure holds the response body if there was a response, else the message, and no data; an empty url changes nothing |
| WordsReducer.Reduce | frontend-ex3/src/customHooks/WordsReducer.js:24-47 | INIT_WORDS gives the payload; ADD_WORD adds the payload last and keeps the rest; UPDATE_WORD keeps the length; DELETE_WORD leaves no entry with the id and never grows the list; anything else leaves the list |
| WordsReducer.InitAndUnknown | frontend-ex3/src/customHooks/WordsReducer.js:24-47 | INIT_WORDS yields the payload; an unrecognised action leaves the list unchanged |
| WordsReducer.AddAppends | frontend-ex3/src/customHooks/WordsReducer.js:29-30 | ADD_WORD grows the list by one, keeps the earlier entries and puts the payload last |
| WordsReducer.ReplaceAt | frontend-ex3/src/customHooks/WordsReducer.js:32-37 | UPDATE_WORD keeps the length and replaces exactly the entries with the payload's id |
| WordsReducer.ReplaceAbsent | frontend-ex3/src/customHooks/WordsReducer.js:32-37 | UPDATE_WORD with an id not in the list gives an equal list |
| WordsReducer.RemoveMembers | frontend-ex3/src/customHooks/WordsReducer.js:39-41 | DELETE_WORD keeps exactly the entries with another id |
| WordsReducer.RemoveConcat | frontend-ex3/src/customHooks/WordsReducer.js:39-41 | DELETE_WORD distributes over concatenation, so the kept entries stay in order |
| WordsReducer.RemoveAbsent | frontend-ex3/src/customHooks/WordsReducer.js:39-41 | DELETE_WORD of an absent id gives an equal list |
| WordsReducer.RemoveIdempotent | frontend-ex3/src/customHooks/WordsReducer.js:39-41 | deleting twice equals deleting once |
| WordGuess.Filter | frontend-ex3/src/components/gamePage/WordGuess.js:42 | the filtered input is no longer than the input and holds only ASCII letters and whitespace |
| WordGuess.FilterSubsequence | frontend-ex3/src/components/gamePage/WordGuess.js:42 | the filtered input is a subsequence of the input |
| WordGuess.FilterKeepsAllowed | frontend-ex3/src/components/gamePage/WordGuess.js:42 | input made only of letters and whitespace passes the filter unchanged |
| WordGuess.FilterIdempotent | frontend-ex3/src/components/gamePage/WordGuess.js:42 | filtering twice equals filtering once |
| WordGuess.FilterConcat | frontend-ex3/src/components/gamePage/WordGuess.js:42 | the filter works character by character: it distributes over concatenation |
| WordGuess.SubmitEnabledIff | frontend-ex3/src/components/gamePage/WordGuess.js:68-72 | the button is enabled iff the game is playing, nothing is loading and the input has a non-whitespace character; then the trimmed input is non-empty |
| WordGuess.WordGuessInput.constructor | frontend-ex3/src/components/gamePage/WordGuess.js:18 | the input starts empty |
| WordGuess.WordGuessInput.HandleInputChange | frontend-ex3/src/components/gamePage/WordGuess.js:40-44 | the input becomes the filtered value and holds only letters and whitespace |
| WordGuess.WordGuessInput.HandleWordSubmit | frontend-ex3/src/components/gamePage/WordGuess.js:26-32 | a blank input submits nothing and stays; otherwise the trimmed, lower-cased input is handed on (non-empty, lower-case, no outer whitespace) and the input is cleared |
| WordGuess.GuessFromFilteredInput | frontend-ex3/src/components/gamePage/WordGuess.js:26-44 | a guess made from filtered input holds only lower-case letters and whitespace |
| Stopwatch.GameStopwatch.constructor | frontend-ex3/src/components/gamePage/GameStopwatch.js:14 | the time starts at 0, a multiple of the tick |
| Stopwatch.GameStopwatch.Tick | frontend-ex3/src/components/gamePage/GameStopwatch.js:40-50 | while playing a tick adds 10 and reports the new time iff a callback is given; otherwise nothing changes; the time stays a non-negative multiple of 10 |
| Stopwatch.GameStopwatch.Run | frontend-ex3/src/components/gamePage/GameStopwatch.js:40-53 | a run of ticks adds 10 per tick that saw "playing", and keeps the time a non-negative multiple of 10 |
| Stopwatch.FrozenWhenOver | frontend-ex3/src/components/gamePage/GameStopwatch.js:51-53 | ticks under any status other than playing add nothing |
| Stopwatch.Pad2 | frontend-ex3/src/components/gamePage/GameStopwatch.js:71-73 | padding gives at least two decimal digits |
| Stopwatch.Pad2Value | frontend-ex3/src/components/gamePage/GameStopwatch.js:71-73 | the padded digits read back as the number; below 100 exactly two digits; from 100 on the plain decimal rendering, never truncated |
| Stopwatch.Display | frontend-ex3/src/components/gamePage/GameStopwatch.js:71-73 | the template puts minutes, ':', two-digit seconds, '.', two-digit hundredths at fixed places |
| Stopwatch.FormatTime | frontend-ex3/src/components/gamePage/GameStopwatch.js:66-74 | the display has at least eight characters, with ':' six and '.' three places from the end |
| Stopwatch.FieldsInRange | frontend-ex3/src/components/gamePage/GameStopwatch.js:67-69 | seconds < 60, hundredths < 100, and 60000·m + 1000·s + 10·c ≤ t < that + 10, with equality for a multiple of 10 |
| Stopwatch.FormatTimeRoundTrip | frontend-ex3/src/components/gamePage/GameStopwatch.js:66-74 | reading the display back gives the minutes, seconds and hundredths; under 100 minutes it is exactly mm:ss.cc, from 100 on the minutes print in full |
| ValidateForm.ValidateWord | frontend-ex3/src/components/validateForm.js:10-24 | an unchanged value in edit mode is valid; otherwise valid iff a non-empty run of letters and whitespace that equals no listed word ignoring case |
| ValidateForm.Exists | frontend-ex3/src/components/validateForm.js:20-22 | true iff some listed word equals the value ignoring case |
| ValidateForm.ValidateCategory | frontend-ex3/src/components/validateForm.js:32-37 | never true; false exactly for input that is not a non-empty run of letters and whitespace, nothing otherwise |
| ValidateForm.ValidateHint | frontend-ex3/src/components/validateForm.js:41-43 | true iff the value has a non-whitespace character |
| WordForm.Set | frontend-ex3/src/components/managePage/addWordForm/WordFormComponent.js:56-59 | setting a field gives it the value and leaves the other fields |
| WordForm.LetterFieldError | frontend-ex3/src/components/managePage/addWordForm/WordFormComponent.js:30-40 | a word or category field has no message iff it is a non-empty run of ASCII letters; an all-whitespace value gets the required message, any other rejected value the alphabetic one |
| WordForm.HintError | frontend-ex3/src/components/managePage/addWordForm/WordFormComponent.js:42-44 | the hint has no message iff it has a non-whitespace character, and otherwise the required message |
| WordForm.Validate | frontend-ex3/src/components/managePage/addWordForm/WordFormComponent.js:27-45 | at most one message per field, and a field has one exactly when its rule fails |
| WordForm.ValidIff | frontend-ex3/src/components/managePage/addWordForm/WordFormComponent.js:27-47 | the form is valid iff word and category are non-empty runs of ASCII letters and the hint is not blank |
| WordForm.Messages | frontend-ex3/src/components/managePage/addWordForm/WordFormComponent.js:30-44 | blank after trimming gives the "required" message; a word or category with any non-letter, checked untrimmed, gives the alphabetic message |
| WordForm.FieldsIndependent | frontend-ex3/src/components/managePage/addWordForm/WordFormComponent.js:30-44 | each field's verdict and message depend on that field alone |
| WordForm.FormStricterThanValidateWord | frontend-ex3/src/components/managePage/addWordForm/WordFormComponent.js:30-34 | a word the form accepts also passes the client's letters-and-whitespace word validator |
| WordForm.WordFormComponent.constructor | frontend-ex3/src/components/managePage/addWordForm/WordFormComponent.js:20-21 | the form starts from the initial data with no errors |
| WordForm.WordFormComponent.ValidateFormData | frontend-ex3/src/components/managePage/addWordForm/WordFormComponent.js:27-48 | publishes the freshly built error map, leaves the data, and answers whether it is empty |
| WordForm.WordFormComponent.HandleChange | frontend-ex3/src/components/managePage/addWordForm/WordFormComponent.js:54-68 | only the edited field changes, and only its shown error is cleared |
| WordForm.WordFormComponent.HandleSubmit | frontend-ex3/src/components/managePage/addWordForm/WordFormComponent.js:74-79 | the form data is handed on exactly when validation passes |
| WordForm.EditClearsOnlyThatField | frontend-ex3/src/components/managePage/addWordForm/WordFormComponent.js:61-67 | after an edit the edited field shows no error and every other field shows an error iff it did before |
| Text.ToLower | src/main/java/com/example/backendex3/services/WordService.java:78-79 | lower-casing keeps the length and maps each character on its own (ASCII folding) |
| Text.ToLowerIsLowerCase | src/main/java/com/example/backendex3/services/WordService.java:78-79 | lower-casing yields lower-case text, and leaves lower-case text unchanged |
| Text.TrimEmpty | frontend-ex3/src/components/validateForm.js:42 | trimming gives the empty string iff every character is whitespace |
| Text.NatToStringRoundTrip | frontend-ex3/src/components/gamePage/GameStopwatch.js:71-73 | the decimal rendering of a number reads back as that number |
| Validation.CheckNotEmpty | src/main/java/com/example/backendex3/utils/ValidationUtil.java:8-12 | throws "Empty argument" iff the string is null or empty; whitespace passes |
| Validation.CheckIsAlphabetic | src/main/java/com/example/backendex3/utils/ValidationUtil.java:14-18 | throws iff the string is not a non-empty run of ASCII letters; null gives a NullPointerException |
| Validation.CheckIsValidScore | src/main/java/com/example/backendex3/utils/ValidationUtil.java:20-24 | throws iff the score is negative |
| Validation.CheckIsValidTime | src/main/java/com/example/backendex3/utils/ValidationUtil.java:33-37 | throws iff the time is negative |
| Validation.CheckIsValidAttempts | src/main/java/com/example/backendex3/utils/ValidationUtil.java:45-49 | throws iff the attempts count is not positive |
| Validation.CheckIsValidWordLength | src/main/java/com/example/backendex3/utils/ValidationUtil.java:57-61 | throws iff the length is not positive |
| Validation.AlphabeticImpliesNotEmpty | src/main/java/com/example/backendex3/utils/ValidationUtil.java:8-18 | passing the alphabetic check implies passing the emptiness check, but " " passes only the latter |
| Validation.ZeroBoundaries | src/main/java/com/example/backendex3/utils/ValidationUtil.java:20-61 | zero is a valid score and time, but not a valid attempts count or word length |
| LegacyValidation.CheckNotEmpty | src/main/java/utils/ValidationUtil.java:8-12 | throws iff the string is null or empty |
| LegacyValidation.CheckIsAlphabetic | src/main/java/utils/ValidationUtil.java:14-18 | throws iff the string is empty or has a non-letter character; null gives a NullPointerException |
| LegacyValidation.CheckIsValidScore | src/main/java/utils/ValidationUtil.java:20-24 | throws iff the score is negative |
| LegacyValidation.AgreesWithCurrent | src/main/java/utils/ValidationUtil.java:8-24 | the older checks decide exactly like the current ones; only the negative-score message differs |
| WordEntries.Updated | src/main/java/com/example/backendex3/repositories/WordEntry.java:71-75 | after an update the entry equals the other entry except for keeping its own id |
| WordEntries.DeclaredValidIffChecksPass | src/main/java/com/example/backendex3/repositories/WordEntry.java:15-24 | the declared field constraints accept exactly what the emptiness and alphabetic checks accept |
| WordEntries.UpdatedProperties | src/main/java/com/example/backendex3/repositories/WordEntry.java:71-75 | updating from a valid entry gives a valid entry, updating is idempotent, and the id is kept |
| WordEntries.WordEntry.constructor | src/main/java/com/example/backendex3/repositories/WordEntry.java:36-40 | fields stored verbatim, no checks, no lower-casing |
| WordEntries.WordEntry.SetCategory | src/main/java/com/example/backendex3/repositories/WordEntry.java:46-48 | assigns the category without validation, nothing else changes |
| WordEntries.WordEntry.SetWord | src/main/java/com/example/backendex3/repositories/WordEntry.java:54-56 | assigns the word without validation, nothing else changes |
| WordEntries.WordEntry.SetHint | src/main/java/com/example/backendex3/repositories/WordEntry.java:62-64 | assigns the hint without validation, nothing else changes |
| WordEntries.WordEntry.UpdateWord | src/main/java/com/example/backendex3/repositories/WordEntry.java:71-75 | word, hint and category become the other entry's, even when the other entry is this one |
| LegacyWordEntries.WordCheck | src/main/java/repositories/WordEntry.java:45-49 | a word passes iff it is a non-empty run of ASCII letters |
| LegacyWordEntries.CreateCheck | src/main/java/repositories/WordEntry.java:26-30 | construction succeeds iff the word is alphabetic and category and hint are non-empty |
| LegacyWordEntries.ApplyUpdate | src/main/java/repositories/WordEntry.java:65-69 | the word is taken iff it is alphabetic, the hint iff the word was and the hint is non-empty, the category only when the whole update succeeds; a failure is an IllegalArgumentException |
| LegacyWordEntries.UpdateSucceeds | src/main/java/repositories/WordEntry.java:65-69 | an update succeeds iff the other entry's word is alphabetic and its hint and category are non-empty, and then all three fields equal the other's |
| LegacyWordEntries.UpdateIsPartial | src/main/java/repositories/WordEntry.java:65-69 | an update that fails at the hint has already overwritten the word |
| LegacyWordEntries.CreateChecksWordFirst | src/main/java/repositories/WordEntry.java:26-30 | a bad word with an empty category reports the word's error: the word is checked first |
| LegacyWordEntries.WordEntry.Create | src/main/java/repositories/WordEntry.java:26-30 | the constructor fails with the first failing setter's exception, otherwise stores the three values |
| LegacyWordEntries.WordEntry.SetCategory | src/main/java/repositories/WordEntry.java:36-40 | rejects a null or empty category and leaves the field; otherwise assigns it |
| LegacyWordEntries.WordEntry.SetWord | src/main/java/repositories/WordEntry.java:45-49 | rejects a null, empty or non-alphabetic word and leaves the field; otherwise assigns it |
| LegacyWordEntries.WordEntry.SetHint | src/main/java/repositories/WordEntry.java:55-58 | rejects a null or empty hint and leaves the field; otherwise assigns it |
| LegacyWordEntries.WordEntry.UpdateWord | src/main/java/repositories/WordEntry.java:65-69 | runs the word, hint and category setters in turn and stops at the first that throws, with the earlier fields already overwritten |
| DaoWordEntries.CheckNotEmpty | src/main/java/dao/WordEntry.java:26-30 | decides and reports exactly as the shared emptiness check |
| DaoWordEntries.CheckIsAlphabetic | src/main/java/dao/WordEntry.java:32-36 | decides and reports exactly as the shared alphabetic check, so the empty string fails |
| DaoWordEntries.CreateCheck | src/main/java/dao/WordEntry.java:15-19 | construction succeeds iff no argument is null, hint is non-empty, and category and word are non-empty runs of letters |
| DaoWordEntries.EmptinessCheckedFirst | src/main/java/dao/WordEntry.java:15-19 | an empty category or word reports "Empty argument" before any alphabetic check |
| DaoWordEntries.WordEntry.Create | src/main/java/dao/WordEntry.java:13-23 | the constructor throws the first failing check's exception, otherwise stores category and word lower-cased and the hint as given |
| DaoWordEntries.WordEntry.SetCategory | src/main/java/dao/WordEntry.java:44-47 | assigns without validation, so the constructor's guarantee can be broken |
| DaoWordEntries.WordEntry.SetWord | src/main/java/dao/WordEntry.java:54-57 | assigns without validation |
| DaoWordEntries.WordEntry.SetHint | src/main/java/dao/WordEntry.java:63-65 | assigns without validation |
| DaoWordEntries.CreateFromNormalised | src/main/java/dao/WordEntry.java:13-23 | rebuilding from a constructed entry's fields passes the checks and gives the same fields |
| WordRepository.FirstIndex | src/main/java/com/example/backendex3/repositories/WordRepository.java:51-77 | the first position whose word (or id, or category) equals the value, or none exactly when no entry matches |
| WordRepository.Matching | src/main/java/com/example/backendex3/repositories/WordRepository.java:79-92 | holds only matching stored entries and every matching stored entry |
| WordRepository.Without | src/main/java/com/example/backendex3/repositories/WordRepository.java:152-160 | holds only non-matching stored entries and every non-matching stored entry |
| WordRepository.WithoutShorter | src/main/java/com/example/backendex3/repositories/WordRepository.java:152-160 | removal shortens the list iff some entry matches |
| WordRepository.WithoutConcat | src/main/java/com/example/backendex3/repositories/WordRepository.java:152-160 | removal distributes over concatenation, so kept entries keep their order |
| WordRepository.WithoutKeepsOthers | src/main/java/com/example/backendex3/repositories/WordRepository.java:152-160 | with no match, removal leaves the list as it is |
| WordRepository.WordRepository.IndexOf | src/main/java/com/example/backendex3/repositories/WordRepository.java:51-77 | the front-to-back scan finds the first matching position |
| WordRepository.WordRepository.FindFirst | src/main/java/com/example/backendex3/repositories/WordRepository.java:51-77 | the first matching entry, or null |
| WordRepository.WordRepository.FindByWord | src/main/java/com/example/backendex3/repositories/WordRepository.java:51-60 | the first entry with exactly that word, or null |
| WordRepository.WordRepository.FindById | src/main/java/com/example/backendex3/repositories/WordRepository.java:68-77 | the first entry with exactly that id, or null |
| WordRepository.WordRepository.FindByCategory | src/main/java/com/example/backendex3/repositories/WordRepository.java:79-92 | exactly the entries with an equal category, in list order |
| WordRepository.WordRepository.UpdateFirst | src/main/java/com/example/backendex3/repositories/WordRepository.java:101-112 | true iff some entry matches, and then the first match takes the update's word, hint and category while every other entry keeps its data; with no match nothing changes |
| WordRepository.WordRepository.UpdateById | src/main/java/com/example/backendex3/repositories/WordRepository.java:101-112 | the same, matching by id |
| WordRepository.WordRepository.Update | src/main/java/com/example/backendex3/repositories/WordRepository.java:121-133 | the same, matching by word |
| WordRepository.WordRepository.GetWords | src/main/java/com/example/backendex3/repositories/WordRepository.java:140-144 | a copy of the list as a value |
| WordRepository.WordRepository.DeleteById | src/main/java/com/example/backendex3/repositories/WordRepository.java:152-160 | removes every entry with the id, keeping the rest in order; true iff one was there |
| WordRepository.WordRepository.Delete | src/main/java/com/example/backendex3/repositories/WordRepository.java:167-173 | removes every entry with the word, keeping the rest in order |
| WordRepository.WordRepository.AddWord | src/main/java/com/example/backendex3/repositories/WordRepository.java:195-200 | appends with no uniqueness check |
| LegacyWordRepository.FirstWordIndex | src/main/java/repositories/WordRepository.java:47-56 | the first position with exactly that word, or none exactly when absent |
| LegacyWordRepository.WithoutWord | src/main/java/repositories/WordRepository.java:92-98 | holds exactly the stored entries with another word |
| LegacyWordRepository.WithoutAbsent | src/main/java/repositories/WordRepository.java:92-98 | deleting an absent word leaves the list unchanged |
| LegacyWordRepository.WordRepository.FindByWord | src/main/java/repositories/WordRepository.java:47-56 | the first entry with exactly that word, or null |
| LegacyWordRepository.WordRepository.Update | src/main/java/repositories/WordRepository.java:64-76 | false with no change when no entry has the word; otherwise the first match runs the validating update, and the answer is true or that update's exception, with every other entry unchanged |
| LegacyWordRepository.WordRepository.GetWords | src/main/java/repositories/WordRepository.java:82-86 | a copy of the list as a value |
| LegacyWordRepository.WordRepository.Delete | src/main/java/repositories/WordRepository.java:92-98 | removes every entry with that word |
| LegacyWordRepository.WordRepository.AddWord | src/main/java/repositories/WordRepository.java:119-124 | appends with no uniqueness check |
| DaoWordRepository.FirstWordIndex | src/main/java/dao/WordRepository.java:43-57 | the first position with exactly that word, or none exactly when absent |
| DaoWordRepository.WordRepository.GetWord | src/main/java/dao/WordRepository.java:43-57 | null when absent; otherwise a fresh entry, not in the store, built by the validating constructor from the first match (lower-cased), or that constructor's exception |
| DaoWordRepository.WordRepository.CopyOf | src/main/java/dao/WordRepository.java:50 | a fresh entry with the source entry's fields lower-cased, or the constructor's exception |
| DaoWordRepository.WordRepository.UpdateWord | src/main/java/dao/WordRepository.java:61-79 | returns its argument; the first entry with the old word takes its fields and no other entry changes; with no match nothing changes |
| WordService.StoreValidMeans | src/main/java/com/example/backendex3/services/WordService.java:74-80 | a valid store has lower-case, pairwise distinct words |
| WordService.StoreValidSnoc | src/main/java/com/example/backendex3/services/WordService.java:74-80 | appending a lower-case word not yet stored keeps the store valid |
| WordService.WithoutKeepsValid | src/main/java/com/example/backendex3/services/WordService.java:131 | deleting keeps a valid store valid |
| WordService.NotStoredWhenAbsent | src/main/java/com/example/backendex3/services/WordService.java:74-80 | in a valid store without the entry's lower-cased word, the entry itself is not stored |
| WordService.WordService.GetRandomWordByCategory | src/main/java/com/example/backendex3/services/WordService.java:28-38 | null or empty category is an illegal argument; no entry of the lower-cased category gives null; otherwise some entry of that category |
| WordService.WordService.GetWord | src/main/java/com/example/backendex3/services/WordService.java:53-59 | null or empty word is an illegal argument; otherwise the first entry with the lower-cased word, or null |
| WordService.WordService.AddWord | src/main/java/com/example/backendex3/services/WordService.java:68-82 | a null entry or an already stored lower-cased word is rejected with nothing changed; otherwise word and category are lower-cased, the entry is appended and true returned; a lower-case distinct store stays so |
| WordService.WordService.StoreNew | src/main/java/com/example/backendex3/services/WordService.java:78-80 | lower-cases word and category, appends, and keeps a valid store valid |
| WordService.WordService.UpdateWord | src/main/java/com/example/backendex3/services/WordService.java:93-114 | bad arguments are an illegal argument; a new word (ignoring case) another entry has is a 409; no entry with the lower-cased old word is a 500; otherwise the first such entry takes the updated fields and the updated entry is returned; failures change nothing |
| WordService.WordService.UpdateStored | src/main/java/com/example/backendex3/services/WordService.java:108-113 | a failed repository update is a 500 with nothing changed; success returns the updated entry |
| WordService.WordService.Conflicts | src/main/java/com/example/backendex3/services/WordService.java:102-106 | a conflict iff the new word differs from the old and is stored |
| WordService.WordService.RemoveWord | src/main/java/com/example/backendex3/services/WordService.java:122-133 | null or empty word is rejected; an absent lower-cased word gives false with no change; otherwise every entry with it is deleted and true returned; the store invariant is kept |
| WordService.WordService.DeleteWord | src/main/java/com/example/backendex3/services/WordService.java:131 | the repository delete, keeping a valid store valid |
| WordService.WordService.GetCategories | src/main/java/com/example/backendex3/services/WordService.java:147-155 | each stored category exactly once, and nothing else |
| LegacyWordService.StoreValidMeans | src/main/java/services/WordService.java:52-57 | a valid store has lower-case, pairwise distinct words |
| LegacyWordService.StoreValidSnoc | src/main/java/services/WordService.java:52-57 | appending a lower-case word not yet stored keeps the store valid |
| LegacyWordService.WithoutKeepsValid | src/main/java/services/WordService.java:96 | deleting keeps a valid store valid |
| LegacyWordService.NotStoredWhenAbsent | src/main/java/services/WordService.java:52-57 | in a valid store without the entry's lower-cased word, the entry itself is not stored |
| LegacyWordService.WordService.GetWord | src/main/java/services/WordService.java:26-30 | null for a null or empty word instead of throwing; otherwise the first entry with the lower-cased word, or null |
| LegacyWordService.WordService.AddWord | src/main/java/services/WordService.java:46-59 | a null entry or stored lower-cased word is rejected; otherwise only the word is lower-cased, through the validating setter, whose exception passes through with nothing changed; on success the entry is appended; the store invariant is kept |
| LegacyWordService.WordService.StoreNew | src/main/java/services/WordService.java:56-57 | lower-cases the word through the setter and appends, or fails with nothing changed |
| LegacyWordService.WordService.UpdateWord | src/main/java/services/WordService.java:62-79 | bad arguments are an illegal argument; a conflicting new word or a missing old word gives null with no change; otherwise the first entry with the old word runs the validating update and the answer is the updated entry or the setter's exception |
| LegacyWordService.WordService.Conflicts | src/main/java/services/WordService.java:71-75 | a conflict iff the new word differs from the old and is stored |
| LegacyWordService.WordService.UpdateStored | src/main/java/services/WordService.java:77-78 | the updated entry when the repository update succeeded, null when no entry matched |
| LegacyWordService.WordService.RemoveWord | src/main/java/services/WordService.java:87-98 | null or empty word is rejected; an absent word gives false with no change; otherwise every entry with it is deleted and true returned |
| LegacyWordService.WordService.DeleteWord | src/main/java/services/WordService.java:96 | the repository delete, keeping a valid store valid |
| ScoreRepository.SortDescCorrect | src/main/java/com/example/backendex3/repositories/ScoreRepository.java:78 | the sort orders by non-increasing score, is a permutation, and keeps the order of equal scores |
| ScoreRepository.SortDescOfSorted | src/main/java/com/example/backendex3/repositories/ScoreRepository.java:117-118 | sorting an already sorted list changes nothing |
| ScoreRepository.FirstMatch | src/main/java/com/example/backendex3/repositories/ScoreRepository.java:60-69 | the first position whose nickname equals the given one ignoring case, or none exactly when absent |
| ScoreRepository.Save | src/main/java/com/example/backendex3/repositories/ScoreRepository.java:54-87 | the save answers true iff the score improves the board; a refused save leaves the list; an accepted one keeps the length for a known player and adds one entry for a new one |
| ScoreRepository.SaveCorrect | src/main/java/com/example/backendex3/repositories/ScoreRepository.java:54-87 | true iff there is no match or the new score is strictly higher; then the stored list is the updated list sorted, a stable permutation holding the new score; otherwise nothing changes |
| ScoreRepository.SaveKeepsNoDup | src/main/java/com/example/backendex3/repositories/ScoreRepository.java:60-74 | saving never gives a nickname (ignoring case) a second entry, and a known player keeps the length |
| ScoreRepository.TopScoresCorrect | src/main/java/com/example/backendex3/repositories/ScoreRepository.java:114-122 | a negative limit throws; otherwise min(size, limit) entries, sorted, which with the rest are exactly the stored ones, none left out scoring above one returned |
| ScoreRepository.TopScores | src/main/java/com/example/backendex3/repositories/ScoreRepository.java:114-122 | the lookup throws iff the limit is negative, and otherwise returns min(size, limit) entries |
| ScoreRepository.PrefixIsTop | src/main/java/com/example/backendex3/repositories/ScoreRepository.java:121 | a prefix of a sorted list is sorted and holds its highest scores |
| ScoreRepository.ScoreRepository.constructor | src/main/java/com/example/backendex3/repositories/ScoreRepository.java:27-30 | a missing scores file reads as the empty list |
| ScoreRepository.ScoreRepository.GetAllScores | src/main/java/com/example/backendex3/repositories/ScoreRepository.java:23-42 | the stored list |
| ScoreRepository.ScoreRepository.SaveScore | src/main/java/com/example/backendex3/repositories/ScoreRepository.java:54-87 | the scan, replace-or-append and sort give exactly the new list and answer of the save specification |
| ScoreRepository.ScoreRepository.GetTopScores | src/main/java/com/example/backendex3/repositories/ScoreRepository.java:114-122 | exactly the top-scores specification, without changing the store |
| ScoreRepository.PlayerExists | src/main/java/com/example/backendex3/repositories/ScoreRepository.java:97-104 | true iff some entry has the nickname ignoring case |
| ScoreService.CalculateScore | src/main/java/com/example/backendex3/services/ScoreService.java:41-69 | never negative; the raw score 100·length + bonus − 25·attempts − hint penalty clamped at zero |
| ScoreService.CalculateScoreMonotone | src/main/java/com/example/backendex3/services/ScoreService.java:59-68 | more attempts, a hint, a smaller bonus or a shorter word never raise the score |
| ScoreService.FirstExact | src/main/java/com/example/backendex3/services/ScoreService.java:113-117 | the first position with exactly that nickname, or none exactly when absent |
| ScoreService.SaveAnswer | src/main/java/com/example/backendex3/services/ScoreService.java:85-89 | a 404 iff no entry has exactly the nickname; true only if the board holds the submitted score under that nickname; false only if the player's entry has another score |
| ScoreService.AcceptedIsReported | src/main/java/com/example/backendex3/services/ScoreService.java:80-91 | a score the store accepted is reported as saved, on a board with one entry per nickname |
| ScoreService.EqualScoreIsReported | src/main/java/com/example/backendex3/services/ScoreService.java:80-91 | resubmitting the stored score changes nothing yet is reported as saved |
| ScoreService.CaseVariantNotFound | src/main/java/com/example/backendex3/services/ScoreService.java:114-118 | a case variant of a stored nickname whose score is not better is rejected, and the exact lookup then reports not found |
| ScoreService.LowerScoreIsRejected | src/main/java/com/example/backendex3/services/ScoreService.java:80-91 | a lower score under the stored nickname changes nothing and is reported as not saved |
| ScoreService.ScoreService.GetPlayersRank | src/main/java/com/example/backendex3/services/ScoreService.java:111-119 | one plus the first position with exactly that nickname; a 404 when none |
| ScoreService.ScoreService.GetPlayersScore | src/main/java/com/example/backendex3/services/ScoreService.java:130-141 | a negative index is an illegal argument, an index past the board a 404, otherwise the score there |
| ScoreService.ScoreService.SavePlayerScore | src/main/java/com/example/backendex3/services/ScoreService.java:80-91 | the store saves, and the answer is whether the board shows the submitted score at the player's exact-nickname rank |
| LegacyScoreService.TimeBonus | src/main/java/services/ScoreService.java:39 | never negative, at least 500 − 2t, and equal to it or zero |
| LegacyScoreService.TimeBonusRange | src/main/java/services/ScoreService.java:39 | the bonus is in [0, 500] for t ≥ 0, zero from 250 seconds on, and non-increasing in time |
| LegacyScoreService.CalculateScore | src/main/java/services/ScoreService.java:34-52 | never negative, and the current formula with this bonus in place of the exponential one |
| LegacyScoreService.CalculateScoreNonIncreasing | src/main/java/services/ScoreService.java:39-51 | the score never grows with time or attempts, and a hint never raises it |
| LegacyScoreService.ScoreService.SavePlayerScore | src/main/java/services/ScoreService.java:63-66 | exactly the store's save of the new score |
| LegacyScoreService.ScoreService.GetTopScores | src/main/java/services/ScoreService.java:85-87 | exactly the store's top scores |
| ExceptionHandler.HandleValidationExceptions | src/main/java/com/example/backendex3/controllers/GlobalExceptionHandler.java:30-41 | 400 with one entry per failing field, each holding that field's last message |
| ExceptionHandler.PutKeepsLast | src/main/java/com/example/backendex3/controllers/GlobalExceptionHandler.java:35-39 | adding one more field error keeps the map at "last message per field so far" |
| ExceptionHandler.HandleIllegalArgument | src/main/java/com/example/backendex3/controllers/GlobalExceptionHandler.java:50-51 | 400 with the exception's message |
| ExceptionHandler.HandleStatus | src/main/java/com/example/backendex3/controllers/GlobalExceptionHandler.java:61-64 | the exception's own status and reason |
| ExceptionHandler.HandleRuntime | src/main/java/com/example/backendex3/controllers/GlobalExceptionHandler.java:75-88 | always 500; a non-null message containing file, save, load or deserializ is passed on as is, any other gets the "Server error: " prefix |
| ExceptionHandler.HandleAll | src/main/java/com/example/backendex3/controllers/GlobalExceptionHandler.java:96-98 | 500 with the fixed generic body |
| ExceptionHandler.Dispatch | src/main/java/com/example/backendex3/controllers/GlobalExceptionHandler.java:30-98 | each exception reaches the handler of its most specific type; a validation failure gets the 400 map with one key per failing field holding its last message |
| ExceptionHandler.SaveFailurePassesThrough | src/main/java/com/example/backendex3/repositories/WordRepository.java:186 | the word store's save failure reaches the client verbatim |
| ExceptionHandler.LoadFailurePassesThrough | src/main/java/com/example/backendex3/repositories/WordRepository.java:38 | the word store's load failure reaches the client verbatim |
| ExceptionHandler.DeserializeFailurePassesThrough | src/main/java/com/example/backendex3/repositories/WordRepository.java:41 | the word store's deserialisation failure reaches the client verbatim |
| ExceptionHandler.NullMessage | src/main/java/com/example/backendex3/controllers/GlobalExceptionHandler.java:77-87 | a null message is never a storage failure and shows as "Server error: null" |

## Left out

- File persistence: the object streams that load and save the word lists and the scores file, and the seeding programs, are not modelled. Each store is an in-memory sequence field. A missing file reads as empty.
- Concurrency: the `synchronized` blocks are not modelled, and the static shared lists are per-instance fields. The model is single-threaded.
- ScoreService.CalculateScore: takes the exponentially decaying time bonus as an input, because `Math.exp` and floating point are outside the model.
- WordService.WordService.GetRandomWordByCategory: states only that some entry of the category is returned, because the `java.util.Random` pick is modelled as a free choice.
- LegacyScoreService.CalculateScore: uses unbounded integers, so it does not model Java's 32-bit wrap-around for extreme inputs. ScoreService.CalculateScore does the same.
- Text.ToLower: ASCII only. `toLowerCase`, `equalsIgnoreCase`, `trim` and `\s` are modelled over ASCII letters and whitespace, with no Unicode case folding.
- The client's axios call, the effect lifecycle and the `didCancel` race are not modelled. Only the actions a finished request dispatches are kept.
- The stopwatch's `setInterval` scheduling and cleanup are not modelled. Only the tick step is kept.
- React rendering, routing, modals and the other presentation components are not modelled: they hold no algorithmic content. The key rule that `Keyboard.js` repeats is modelled once, from the game page.
- The thin fetch hooks `useFetchCategories` and `useFetchLeaderboard` are not modelled.
- The Spring controllers and DTOs are not modelled. `Score` is the `(nickname, score)` datatype.
- The services' `getAllWords` and `getLeaderboard` are not modelled separately: each only returns the store's list, already modelled by the stores' `GetWords` and `GetAllScores`.
- The no-argument entry constructors' null fields are not modelled: entry fields are strings and never null. Null is modelled for string arguments, not for the fields of an entry.
- WordService.WordService.AddWord and LegacyWordService.WordService.AddWord: do not model the rejection of an entry whose word is null (an IllegalArgumentException "Invalid Word entry"), because an entry's word is a non-null string in this model. Only a null entry is rejected.
- `repositories.ScoreRepository`, used by the older score service, is not part of this model. The current leaderboard store stands in for it.
- Null receivers the source does not check are not modelled: a stored word, category or nickname is never null. So the NullPointerException of `getWord().toLowerCase()` or `getCategory().toLowerCase()` on an entry with a null field does not arise.
- WordService.WordService.UpdateWord: states no store invariant. The source stores the updated word exactly as given, not lower-cased, so the "lower-case and distinct" invariant that `addWord` and `removeWord` keep does not survive an update. LegacyWordService.WordService.UpdateWord is the same.
- The class cast in the validation handler is not modelled: the exception's field errors are given as a list.
- ScoreRepository.ScoreRepository.SaveScore: the sort is modelled as a pure stable insertion sort. Sorting in place is not modelled.
