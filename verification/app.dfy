/** The `App` component's state and its conversion handler: the form
    fields and the visible error dictionary, `validateInputs`, and
    `convertStringToExcel`, which validates, tokenizes, builds the sheet
    data, hands it to the spreadsheet writer, converts the writer's output
    with `s2ab` and finally clears the form. */
module Component {
  import opened JsText
  import opened Tokenizer
  import opened Bytes
  import opened Form

  datatype Option<T> = None | Some(value: T)

  /** The file the browser is asked to save: its name, the `Blob`'s MIME
      type and the bytes in it. */
  datatype Download = Download(fileName: string, mimeType: string, bytes: seq<Byte>)

  /** The name of the one sheet of the workbook. */
  const SheetName := "Sheet1"

  const MimeType := "application/octet-stream"

  /** The body of `validateInputs` before the state update: starting from
      an empty dictionary, add each blank field's message in turn. The
      result is the error dictionary of the form. */
  method CollectErrors(d: FormData) returns (errors: map<Field, string>)
    ensures errors == Errors(d)
  {
    errors := map[];
    if Trim(d.inputString) == [] { errors := errors[InputString := "Please enter a string."]; }
    if Trim(d.fileName) == [] { errors := errors[FileName := "Please provide a file name."]; }
    if Trim(d.header) == [] { errors := errors[Header := "Please provide a header name."]; }
    assert forall f :: f in errors <==> IsBlank(d.Get(f));
    assert forall f :: f in errors ==> errors[f] == Message(f);
    ErrorsUnique(d, errors);
  }

  /** The state the component keeps between renders. */
  class App {
    var formData: FormData
    var error: map<Field, string>

    /** Both pieces of state start empty. */
    constructor ()
      ensures formData == Cleared() && error == map[]
    {
      formData := Cleared();
      error := map[];
    }

    /** `validateInputs`: builds a fresh error dictionary from the current
        form, makes it the visible error state (dropping whatever was
        there) and reports whether it is empty. */
    method ValidateInputs() returns (ok: bool)
      modifies this`error
      ensures error == Errors(formData)
      ensures ok <==> AllFilled(formData)
    {
      var errors := CollectErrors(formData);
      error := errors;
      NoErrorsIffAllFilled(formData);
      ok := |errors| == 0;
    }

    /** `convertStringToExcel`. The spreadsheet library is the parameter
        `write`: given a sheet name and the rows, it returns the workbook
        serialized as a binary string, or `None` when it throws. On invalid
        input, or when the library throws, nothing but the error state
        changes and no file is produced; otherwise the file
        `<fileName>.xlsx` holds the converted bytes of the workbook whose
        one sheet is the header followed by the tokens, and the form is
        cleared. */
    method ConvertStringToExcel(write: (string, seq<seq<string>>) -> Option<string>)
      returns (download: Option<Download>)
      modifies this
      ensures error == Errors(old(formData))
      ensures var written := write(SheetName, Table(old(formData).header, Tokenize(old(formData).inputString)));
        if AllFilled(old(formData)) && written.Some? then
          && formData == Cleared()
          && download == Some(Download(old(formData).fileName + ".xlsx", MimeType, LowBytes(written.value)))
        else
          download == None && formData == old(formData)
    {
      var ok := ValidateInputs();
      if !ok {
        return None;
      }

      var words := Tokenize(formData.inputString);
      var wsData := Table(formData.header, words);
      var wbout := write(SheetName, wsData);
      if wbout.None? {
        return None;
      }
      var buf := StringToArrayBuffer(wbout.value);
      download := Some(Download(formData.fileName + ".xlsx", MimeType, buf[..]));

      formData := Cleared();
    }
  }
}
