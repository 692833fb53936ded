/** The reusable add/edit form for a word entry: its form data, its error
    map, and the rules that validate it before the entry is submitted. */
module WordForm {
  import opened Lang
  import opened Text
  import ValidateForm

  datatype Field = WordField | CategoryField | HintField

  datatype FormData = FormData(word: string, category: string, hint: string)

  function Get(d: FormData, f: Field): string {
    match f
    case WordField => d.word
    case CategoryField => d.category
    case HintField => d.hint
  }

  /** `{...formData, [name]: value}`. */
  function Set(d: FormData, f: Field, value: string): (r: FormData)
    ensures Get(r, f) == value
    ensures forall g :: g != f ==> Get(r, g) == Get(d, g)
  {
    match f
    case WordField => d.(word := value)
    case CategoryField => d.(category := value)
    case HintField => d.(hint := value)
  }

  const WordRequired := "Word is required"
  const WordNotAlphabetic := "Word must contain only alphabetic characters"
  const CategoryRequired := "Category is required"
  const CategoryNotAlphabetic := "Category must contain only alphabetic characters"
  const HintRequired := "Hint is required"

  /** The message for a word or category field: required when blank after
      trimming, otherwise rejected unless the untrimmed value is all letters. */
  function LetterFieldError(value: string, required: string, notAlphabetic: string): (r: Option<string>)
    ensures r.None? <==> IsAlphabetic(value)
    ensures (forall i :: 0 <= i < |value| ==> IsSpace(value[i])) ==> r == Some(required)
    ensures (exists i :: 0 <= i < |value| && !IsSpace(value[i])) && !IsAlphabetic(value) ==> r == Some(notAlphabetic)
  {
    TrimEmpty(value);
    assert IsAlphabetic(value) ==> !IsSpace(value[0]);
    if Trim(value) == "" then Some(required)
    else if !IsAlphabetic(value) then Some(notAlphabetic)
    else None
  }

  /** The message for the hint: required unless it has a non-whitespace character. */
  function HintError(value: string): (r: Option<string>)
    ensures r.None? <==> exists i :: 0 <= i < |value| && !IsSpace(value[i])
    ensures r.Some? ==> r == Some(HintRequired)
  {
    TrimEmpty(value);
    if Trim(value) == "" then Some(HintRequired) else None
  }

  function FieldError(d: FormData, f: Field): Option<string> {
    match f
    case WordField => LetterFieldError(d.word, WordRequired, WordNotAlphabetic)
    case CategoryField => LetterFieldError(d.category, CategoryRequired, CategoryNotAlphabetic)
    case HintField => HintError(d.hint)
  }

  /** The `newErrors` object `validateForm` builds: at most one message per
      field, and a field has a message exactly when its rule fails. */
  function Validate(d: FormData): (errors: map<Field, string>)
    ensures forall f :: f in errors <==> FieldError(d, f).Some?
    ensures forall f :: f in errors ==> errors[f] == FieldError(d, f).value
  {
    map f | f in {WordField, CategoryField, HintField} && FieldError(d, f).Some? :: FieldError(d, f).value
  }

  /** The form is valid exactly when the word and the category are
      non-empty runs of ASCII letters and the hint is not blank. */
  lemma ValidIff(d: FormData)
    ensures Validate(d) == map[] <==>
      IsAlphabetic(d.word) && IsAlphabetic(d.category) && exists i :: 0 <= i < |d.hint| && !IsSpace(d.hint[i])
  {
    TrimEmpty(d.word);
    TrimEmpty(d.category);
    TrimEmpty(d.hint);
    if IsAlphabetic(d.word) {
      assert !IsSpace(d.word[0]);
    }
    if IsAlphabetic(d.category) {
      assert !IsSpace(d.category[0]);
    }
    if Validate(d) == map[] {
      assert WordField !in Validate(d) && CategoryField !in Validate(d) && HintField !in Validate(d);
    } else {
      var f :| f in Validate(d);
    }
  }

  /** The messages: a blank field is "required"; a word or category with any
      non-letter (a space inside included) is "must contain only alphabetic
      characters". */
  lemma Messages(d: FormData)
    ensures Trim(d.word) == "" ==> Validate(d)[WordField] == WordRequired
    ensures Trim(d.word) != "" && !IsAlphabetic(d.word) ==> Validate(d)[WordField] == WordNotAlphabetic
    ensures Trim(d.category) == "" ==> Validate(d)[CategoryField] == CategoryRequired
    ensures Trim(d.category) != "" && !IsAlphabetic(d.category) ==> Validate(d)[CategoryField] == CategoryNotAlphabetic
    ensures Trim(d.hint) == "" ==> Validate(d)[HintField] == HintRequired
  {
  }

  /** Each field's verdict depends on that field alone. */
  lemma FieldsIndependent(d: FormData, f: Field, value: string, g: Field)
    requires g != f
    ensures g in Validate(Set(d, f, value)) <==> g in Validate(d)
    ensures g in Validate(d) ==> Validate(Set(d, f, value))[g] == Validate(d)[g]
  {
  }

  /** A word the form accepts also passes the client's `validateWord`
      letters-and-whitespace rule: the form's rule is the stricter one. */
  lemma FormStricterThanValidateWord(d: FormData, words: seq<string>)
    requires WordField !in Validate(d)
    requires forall i :: 0 <= i < |words| ==> !EqualsIgnoreCase(words[i], d.word)
    ensures ValidateForm.ValidateWord(d.word, words, None)
  {
  }

  /** An error entry of the component's `errors` state: a message, or null
      once the user has edited the field. */
  predicate Shows(errors: map<Field, Option<string>>, f: Field) {
    f in errors && errors[f].Some? && errors[f].value != ""
  }

  class WordFormComponent {
    var formData: FormData
    var errors: map<Field, Option<string>>

    /** `useState(initialFormState)` and `useState({})`. */
    constructor(initialFormState: FormData)
      ensures formData == initialFormState && errors == map[]
    {
      formData := initialFormState;
      errors := map[];
    }

    /** `validateForm`: publishes the fresh error map and reports whether it is empty. */
    method ValidateFormData() returns (valid: bool)
      modifies this
      ensures formData == old(formData)
      ensures errors == map f | f in Validate(formData) :: Some(Validate(formData)[f])
      ensures valid <==> Validate(formData) == map[]
    {
      var newErrors := Validate(formData);
      errors := map f | f in newErrors :: Some(newErrors[f]);
      valid := |newErrors| == 0;
    }

    /** `handleChange`: sets the edited field and clears that field's shown error. */
    method HandleChange(name: Field, value: string)
      modifies this
      ensures formData == Set(old(formData), name, value)
      ensures errors == if Shows(old(errors), name) then old(errors)[name := None] else old(errors)
    {
      formData := Set(formData, name, value);
      if Shows(errors, name) {
        errors := errors[name := None];
      }
    }

    /** `handleSubmit`: the form data handed to `onSubmit`, if it validates. */
    method HandleSubmit() returns (submitted: Option<FormData>)
      modifies this
      ensures formData == old(formData)
      ensures errors == map f | f in Validate(formData) :: Some(Validate(formData)[f])
      ensures submitted == if Validate(formData) == map[] then Some(formData) else None
    {
      var valid := ValidateFormData();
      submitted := if valid then Some(formData) else None;
    }
  }

  /** After a failed submit every failing field shows its message, and
      editing one field hides that message only. */
  lemma EditClearsOnlyThatField(errors: map<Field, Option<string>>, name: Field, g: Field)
    requires g != name
    ensures var e := if Shows(errors, name) then errors[name := None] else errors;
      !Shows(e, name) && (Shows(e, g) <==> Shows(errors, g))
  {
  }
}
