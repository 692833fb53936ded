/** The application-wide exception handler of the current back end: each
    handler maps an exception to an HTTP status and a response body, and an
    exception reaches the handler of its most specific type. */
module ExceptionHandler {
  import opened Lang
  import opened Text

  /** A response body: text (possibly null) or the field-to-message map of a
      failed request validation. */
  datatype Body = Text(text: JString) | Fields(fields: map<string, string>)

  datatype Response = Response(status: int, body: Body)

  /** The field validated last among `errors` at positions `i < j < k` differs from `errors[i].field`. */
  ghost predicate LastUpTo(errors: seq<FieldError>, i: int, k: int)
    requires 0 <= i < k <= |errors|
  {
    forall j :: i < j < k ==> errors[j].field != errors[i].field
  }

  /** The fields named by the first `k` errors. */
  ghost function FieldsUpTo(errors: seq<FieldError>, k: int): set<string>
    requires 0 <= k <= |errors|
  {
    set i | 0 <= i < k :: errors[i].field
  }

  /** `handleValidationExceptions`: one entry per failing field; when a
      field fails more than once its last message wins. Answered with 400. */
  method HandleValidationExceptions(errors: seq<FieldError>) returns (r: Response)
    ensures r.status == BadRequest && r.body.Fields?
    ensures r.body.fields.Keys == FieldsUpTo(errors, |errors|)
    ensures forall i :: 0 <= i < |errors| && LastUpTo(errors, i, |errors|) ==>
      r.body.fields[errors[i].field] == errors[i].message
  {
    var m: map<string, string> := map[];
    var k := 0;
    while k < |errors|
      invariant 0 <= k <= |errors|
      invariant m.Keys == FieldsUpTo(errors, k)
      invariant forall i :: 0 <= i < k && LastUpTo(errors, i, k) ==> m[errors[i].field] == errors[i].message
    {
      PutKeepsLast(errors, k, m);
      m, k := m[errors[k].field := errors[k].message], k + 1;
    }
    r := Response(BadRequest, Fields(m));
  }

  /** Putting the `k`-th error into a map that holds the last message of
      each field among the first `k` gives the same for the first `k + 1`. */
  lemma PutKeepsLast(errors: seq<FieldError>, k: int, m: map<string, string>)
    requires 0 <= k < |errors|
    requires m.Keys == FieldsUpTo(errors, k)
    requires forall i :: 0 <= i < k && LastUpTo(errors, i, k) ==> m[errors[i].field] == errors[i].message
    ensures var m' := m[errors[k].field := errors[k].message];
      && m'.Keys == FieldsUpTo(errors, k + 1)
      && forall i :: 0 <= i < k + 1 && LastUpTo(errors, i, k + 1) ==> m'[errors[i].field] == errors[i].message
  {
    LastStep(errors, k);
    FieldsStep(errors, k);
    var m' := m[errors[k].field := errors[k].message];
    forall i | 0 <= i < k + 1 && LastUpTo(errors, i, k + 1)
      ensures m'[errors[i].field] == errors[i].message
    {
      if i < k {
        assert m'[errors[i].field] == m[errors[i].field];
      }
    }
  }

  /** One more error adds its field. */
  lemma FieldsStep(errors: seq<FieldError>, k: int)
    requires 0 <= k < |errors|
    ensures FieldsUpTo(errors, k + 1) == FieldsUpTo(errors, k) + {errors[k].field}
  {
  }

  /** An error last up to `k + 1` other than the `k`-th is last up to `k`
      and names another field than the `k`-th. */
  lemma LastStep(errors: seq<FieldError>, k: int)
    requires 0 <= k < |errors|
    ensures forall i :: 0 <= i < k && LastUpTo(errors, i, k + 1) ==>
      LastUpTo(errors, i, k) && errors[k].field != errors[i].field
  {
  }

  /** `handleIllegalArgumentException`: 400 with the exception's message. */
  function HandleIllegalArgument(message: string): (r: Response)
    ensures r.status == BadRequest && r.body == Text(Some(message))
  {
    Response(BadRequest, Text(Some(message)))
  }

  /** `handleStatusException`: the exception's own status and reason. */
  function HandleStatus(status: int, reason: string): (r: Response)
    ensures r.status == status && r.body == Text(Some(reason))
  {
    Response(status, Text(Some(reason)))
  }

  /** The message marks a storage failure of a repository. */
  predicate IsRepositoryMessage(message: JString) {
    message.Some? &&
    (Contains(message.value, "file") || Contains(message.value, "save") ||
     Contains(message.value, "load") || Contains(message.value, "deserializ"))
  }

  /** Java's `"" + s` for a possibly null string. */
  function Show(s: JString): string {
    if s.None? then "null" else s.value
  }

  /** `handleRuntimeException`: always 500; a repository storage message is
      passed on as it is, any other is prefixed with "Server error: ". */
  function HandleRuntime(message: JString): (r: Response)
    ensures r.status == InternalServerError
    ensures IsRepositoryMessage(message) ==> r.body == Text(message)
    ensures !IsRepositoryMessage(message) ==> r.body == Text(Some("Server error: " + Show(message)))
  {
    if IsRepositoryMessage(message) then Response(InternalServerError, Text(message))
    else Response(InternalServerError, Text(Some("Server error: " + Show(message))))
  }

  const GenericError := "Internal server error, try again later"

  /** `handleAllExceptions`: 500 with a fixed body. */
  function HandleAll(): (r: Response)
    ensures r.status == InternalServerError && r.body == Text(Some(GenericError))
  {
    Response(InternalServerError, Text(Some(GenericError)))
  }

  /** The handler Spring picks: the one for the most specific type. An
      IllegalArgumentException and a ResponseStatusException are runtime
      exceptions but have handlers of their own; checked exceptions other
      than a validation failure reach the catch-all. */
  method Dispatch(e: Exception) returns (r: Response)
    ensures e.ArgumentNotValid? ==> r.status == BadRequest && r.body.Fields?
    ensures e.ArgumentNotValid? ==> r.body.Fields? && r.body.fields.Keys == FieldsUpTo(e.errors, |e.errors|)
    ensures e.ArgumentNotValid? ==> r.body.Fields? && forall i :: 0 <= i < |e.errors| && LastUpTo(e.errors, i, |e.errors|) ==>
      r.body.fields[e.errors[i].field] == e.errors[i].message
    ensures e.IllegalArgument? ==> r == HandleIllegalArgument(e.message)
    ensures e.ResponseStatus? ==> r == HandleStatus(e.status, e.reason)
    ensures e.Runtime? ==> r == HandleRuntime(e.detail)
    ensures e.Checked? ==> r == HandleAll()
  {
    match e
    case ArgumentNotValid(errors) => r := HandleValidationExceptions(errors);
    case IllegalArgument(message) => r := HandleIllegalArgument(message);
    case ResponseStatus(status, reason) => r := HandleStatus(status, reason);
    case Runtime(detail) => r := HandleRuntime(detail);
    case Checked(_) => r := HandleAll();
  }

  // One lemma per message the word store throws (the save, load and
  // deserialisation failures); each is an instance of StorageFailure.

  /** A repository's failed save reaches the client verbatim. */
  lemma SaveFailurePassesThrough(cause: string)
    ensures HandleRuntime(Some("Failed to save words to file: " + cause)).body == Text(Some("Failed to save words to file: " + cause))
  {
    StorageFailure("Failed to save words to file: ", "Failed to ", "save", " words to file: ", cause);
  }

  /** A repository's failed load reaches the client verbatim. */
  lemma LoadFailurePassesThrough(cause: string)
    ensures HandleRuntime(Some("Error loading words from file: " + cause)).body == Text(Some("Error loading words from file: " + cause))
  {
    StorageFailure("Error loading words from file: ", "Error ", "load", "ing words from file: ", cause);
  }

  /** A repository's failed deserialisation reaches the client verbatim. */
  lemma DeserializeFailurePassesThrough(cause: string)
    ensures HandleRuntime(Some("Error deserializing word data: " + cause)).body == Text(Some("Error deserializing word data: " + cause))
  {
    StorageFailure("Error deserializing word data: ", "Error ", "deserializ", "ing word data: ", cause);
  }

  /** A message with a storage marker in it is passed on verbatim. */
  lemma StorageFailure(message: string, prefix: string, key: string, middle: string, cause: string)
    requires message == prefix + key + middle
    requires key == "file" || key == "save" || key == "load" || key == "deserializ"
    ensures HandleRuntime(Some(message + cause)).body == Text(Some(message + cause))
  {
    Marked(message, prefix, key, middle, cause);
  }

  /** A message made of `prefix + key + middle` and a cause contains `key`. */
  lemma Marked(message: string, prefix: string, key: string, middle: string, cause: string)
    requires message == prefix + key + middle
    ensures Contains(message + cause, key)
  {
    assert message + cause == prefix + key + (middle + cause);
    ContainsInfix(prefix, key, middle + cause);
  }

  /** A null message is never a storage failure: it is shown as "Server error: null". */
  lemma NullMessage()
    ensures HandleRuntime(None) == Response(InternalServerError, Text(Some("Server error: null")))
  {
    assert "Server error: " + "null" == "Server error: null";
  }

}
