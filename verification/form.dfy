/** The three form fields, the fixed error messages and the error
    dictionary `validateInputs` computes from them. */
module Form {
  import opened JsText

  /** The keys of the form and of the error dictionary. */
  datatype Field = InputString | FileName | Header

  /** The `formData` state object. */
  datatype FormData = FormData(inputString: string, fileName: string, header: string) {
    function Get(f: Field): string {
      match f
      case InputString => inputString
      case FileName => fileName
      case Header => header
    }
  }

  /** The form as it starts and as a successful conversion leaves it. */
  function Cleared(): (d: FormData)
    ensures forall f :: d.Get(f) == ""
  {
    FormData("", "", "")
  }

  /** The one message shown for each blank field. */
  function Message(f: Field): string {
    match f
    case InputString => "Please enter a string."
    case FileName => "Please provide a file name."
    case Header => "Please provide a header name."
  }

  /** `!value.trim()`: the value is empty once trimmed. */
  predicate IsBlank(value: string) {
    Trim(value) == []
  }

  /** Every field has a non-whitespace character. */
  predicate AllFilled(d: FormData) {
    !IsBlank(d.inputString) && !IsBlank(d.fileName) && !IsBlank(d.header)
  }

  /** The error dictionary for a form: each blank field mapped to its
      message, and nothing else. */
  function Errors(d: FormData): map<Field, string> {
    map f | f in {InputString, FileName, Header} && IsBlank(d.Get(f)) :: Message(f)
  }

  /** A field has an entry exactly when it is blank, and that entry is the
      field's own message. */
  lemma ErrorsExact(d: FormData, f: Field)
    ensures f in Errors(d) <==> IsBlank(d.Get(f))
    ensures f in Errors(d) ==> Errors(d)[f] == Message(f)
  {
  }

  /** Any dictionary with the entries ErrorsExact describes is the error
      dictionary. */
  lemma ErrorsUnique(d: FormData, errors: map<Field, string>)
    requires forall f :: f in errors <==> IsBlank(d.Get(f))
    requires forall f :: f in errors ==> errors[f] == Message(f)
    ensures errors == Errors(d)
  {
    forall f ensures f in errors <==> f in Errors(d) {
      ErrorsExact(d, f);
    }
    assert errors.Keys == Errors(d).Keys;
  }

  /** Blank means whitespace only. */
  lemma BlankIffAllSpace(value: string)
    ensures IsBlank(value) <==> AllSpace(value)
  {
    TrimEmptyIffAllSpace(value);
  }

  /** Validation passes (no key in the dictionary) exactly when all three
      fields have a non-whitespace character. */
  lemma NoErrorsIffAllFilled(d: FormData)
    ensures |Errors(d)| == 0 <==> AllFilled(d)
  {
    if AllFilled(d) {
      FilledFormHasNoErrors(d);
    } else if IsBlank(d.inputString) {
      BlankFieldHasError(d, InputString);
    } else if IsBlank(d.fileName) {
      BlankFieldHasError(d, FileName);
    } else {
      BlankFieldHasError(d, Header);
    }
  }

  lemma FilledFormHasNoErrors(d: FormData)
    requires AllFilled(d)
    ensures |Errors(d)| == 0
  {
    ErrorsExact(d, InputString);
    ErrorsExact(d, FileName);
    ErrorsExact(d, Header);
    assert Errors(d).Keys == {};
  }

  lemma BlankFieldHasError(d: FormData, f: Field)
    requires IsBlank(d.Get(f))
    ensures |Errors(d)| != 0
  {
    ErrorsExact(d, f);
    assert Errors(d) != map[];
  }

  /** The cleared form fails validation on every field. */
  lemma ClearedFormHasAllErrors(f: Field)
    ensures f in Errors(Cleared()) && Errors(Cleared())[f] == Message(f)
  {
    assert Cleared().Get(f) == "";
    assert IsBlank("");
  }
}
