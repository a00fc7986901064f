# String to Excel rows — a Dafny model

This project models the logic of the single-page "convert a string to rows
in Excel" form. The user fills in three fields: the text to convert, a file
name and a column header. On submit the component does the following:

1. It validates that no field is blank after trimming. Each blank field gets
   its own fixed message in a freshly built error dictionary.
2. It splits the text on runs of whitespace. A word shaped like
   `DDD-DDD-DDDD` (the pattern `^\d{3}-\d{3}-\d{4}$`) is kept whole. Any other
   word is split again on a single space, which never finds one.
3. It builds the sheet data: `[header]` followed by one `[token]` row per
   token.
4. It hands the rows to the spreadsheet library, which returns a binary
   string. `s2ab` copies that string into a byte buffer (the low byte of each
   character code).
5. It offers the bytes for download as `<fileName>.xlsx` and clears the form.

Modules (one per concern of `src/App.js`):

- `JsText` (`jstext.dfy`) covers the JavaScript string built-ins the
  component relies on. It has the `\s` / `trim` whitespace class, `trim`,
  `split(/\s+/)` with ECMAScript split semantics, `split(' ')`, and `join` as
  their partner. It also has the lemmas about them: split/join round trips,
  content preservation, and where empty words can arise.
- `Tokenizer` (`tokenizer.dfy`) holds the phone-number pattern as a
  position-by-position predicate, the `flatMap` tokenizer, the sheet-data
  builder and their properties.
- `Bytes` (`bytes.dfy`) holds `s2ab` as a method that fills a fresh byte
  array in a loop. It is proved against the function `LowBytes`, and a
  binary string round-trips through it.
- `Form` (`form.dfy`) holds the form fields, the three messages and the error
  dictionary as a specification function, with the lemmas that tie it to
  blankness.
- `Component` (`app.dfy`) holds the component state as a class `App`, with
  the `formData` and `error` fields, `validateInputs` and
  `convertStringToExcel`.

A JavaScript string is a sequence of `char`: one `char` per character of the
Basic Multilingual Plane outside the surrogate range. `charCodeAt` is the
character's code. The spreadsheet library is a parameter
`write(sheetName, rows)`. It returns the serialized workbook as a string, or
`None` when the library throws.

The code can yield empty tokens. The first token is empty when the input
starts with whitespace, and the last token is empty when it ends with
whitespace. Validation only rejects all-whitespace input, so `" 1 2"` is
converted to rows `""`, `"1"`, `"2"`. `Tokenizer.EmptyTokens` states exactly
when this happens. `Tokenizer.TrimmedInputHasNoEmptyToken` states that it
never happens for an input with no surrounding whitespace.

The page shows an example string and its result table
(`src/App.js:112-136`). No word of that example matches the phone pattern.
Those words stay whole only because they contain no whitespace.
`Tokenizer.ExamplePage` proves that the example string gives exactly the four
rows the page shows.

## Model

| member | source | states |
|---|---|---|
| `Bytes.LowByte` | src/App.js:16 | `charCodeAt(i) & 0xff`: the byte that equals the character code modulo 256, and the code itself when the code is below 256 |
| `Bytes.LowBytes` | src/App.js:14-16 | the contents of the `s2ab` buffer as a sequence: one low byte per character, in order, as many bytes as characters |
| `Bytes.StringToArrayBuffer` | src/App.js:13-17 | `s2ab` allocates a fresh buffer and fills it so that its contents are exactly `LowBytes(s)` |
| `Bytes.LowBytesAt` | src/App.js:14-16 | the buffer is as long as the string, and byte `i` is character `i`'s code masked to its low 8 bits; no other byte exists |
| `Bytes.BinaryStringRoundTrip` | src/App.js:16 | on a binary string (every code below 256), reading the bytes back as character codes gives the original string: the conversion is lossless |
| `JsText.IsSpace` | src/App.js:40 | the class `\s` matches, which is also the set `trim` strips: exactly the ECMAScript WhiteSpace and LineTerminator code points TAB, LF, VT, FF, CR, SP, NBSP, U+1680, U+2000–U+200A, LS (U+2028), PS (U+2029), U+202F, U+205F, U+3000 and BOM (U+FEFF) |
| `JsText.Trim` | src/App.js:29-31 | `value.trim()`: the part of the value between its leading and trailing whitespace runs; `TrimStrips` and `TrimEnds` together fix the result, and `TrimEmptyIffAllSpace` gives the blankness test the form uses |
| `JsText.TrimStrips` | src/App.js:29-31 | the trimmed value is a slice `value[i..j]` whose prefix `value[..i]` and suffix `value[j..]` are all whitespace |
| `JsText.TrimEmptyIffAllSpace` | src/App.js:29-31 | `value.trim()` is empty exactly when every character of `value` is whitespace |
| `JsText.TrimEnds` | src/App.js:29-31 | a non-empty trim result starts and ends with a non-whitespace character |
| `JsText.TrimKeepsTrimmed` | src/App.js:29-31 | `trim` leaves a non-empty string alone when its first and last characters are not whitespace |
| `JsText.SplitOnSpaceRuns` | src/App.js:40 | `split(/\s+/)` returns at least one word; no word contains whitespace; no inner word is empty; the first word is empty exactly when the input is empty or starts with whitespace |
| `JsText.SplitOnSpaceRunsLast` | src/App.js:40 | the last word is empty exactly when the input is empty or ends with whitespace |
| `JsText.SplitOnSpaceRunsContent` | src/App.js:40 | the words, concatenated, are the input's non-whitespace characters in their original order: nothing else is dropped or reordered |
| `JsText.SplitOnSpaceRunsOfJoin` | src/App.js:40 | splitting whitespace-free words joined by single spaces gives the words back (inner words non-empty), so the split is inverse to `join(' ')` |
| `JsText.SplitOnSpaceRunsStep` | src/App.js:40 | a whitespace-free prefix followed by a whitespace run is the first word, and the split resumes after the whole run |
| `JsText.SplitOnSpaceRunsResplit` | src/App.js:40-41 | re-splitting any word of the whitespace split on `' '` yields that word as the only piece |
| `JsText.SplitOn` | src/App.js:41 | `split(' ')` returns at least one piece, and no piece contains the separator |
| `JsText.JoinSplitOn` | src/App.js:41 | joining the pieces of `split(sep)` with `sep` gives back the string |
| `JsText.SplitOnJoin` | src/App.js:41 | splitting a `sep`-join of separator-free pieces gives back the pieces |
| `JsText.SplitOnAbsent` | src/App.js:41 | a string that does not contain the separator splits into itself alone |
| `Tokenizer.IsDigit` | src/App.js:41 | `\d`: the ASCII digits `0`–`9` and nothing else |
| `Tokenizer.IsPhoneNumber` | src/App.js:41 | the test `/^\d{3}-\d{3}-\d{4}$/`: twelve characters, ASCII digits at positions 0-2, 4-6 and 8-11, `-` at 3 and 7; a word it accepts holds no whitespace |
| `Tokenizer.Expand` | src/App.js:41 | the `flatMap` callback: `[word]` for a phone number, `word.split(' ')` otherwise; there is at least one piece, no piece holds a space, and the pieces joined with single spaces give the word back |
| `Tokenizer.FlatMapExpand` | src/App.js:40-42 | `flatMap` with that callback: the pieces of each word, concatenated in order; each word gives at least one token, and no token holds a space |
| `Tokenizer.Tokenize` | src/App.js:40-42 | the `words` list: the whitespace split followed by the `flatMap`; there is at least one token, and no token holds a space |
| `Tokenizer.ExpandWord` | src/App.js:41 | the `flatMap` callback maps a whitespace-free word to `[word]`, whether or not the word matches the phone pattern |
| `Tokenizer.FlatMapExpandOfWords` | src/App.js:40-42 | `flatMap` over whitespace-free words returns the words unchanged, in order |
| `Tokenizer.TokenizeIsSplitOnSpaceRuns` | src/App.js:40-42 | the token list equals the whitespace-split word list, in the same order: the second split is a no-op |
| `Tokenizer.PhoneNumberKept` | src/App.js:41 | a word matching `^\d{3}-\d{3}-\d{4}$` is exactly one unchanged token, at its word's position |
| `Tokenizer.TokensHaveNoSpace` | src/App.js:40-42 | there is at least one token, and no token contains a whitespace character |
| `Tokenizer.TokenizeContent` | src/App.js:40-42 | the tokens, concatenated, are the input's non-whitespace characters in order |
| `Tokenizer.TokenizeJoin` | src/App.js:40-42 | tokenizing whitespace-free tokens joined by single spaces gives the same tokens back |
| `Tokenizer.EmptyTokens` | src/App.js:40 | the first token is empty exactly when the input is empty or starts with whitespace, the last exactly when it is empty or ends with whitespace, and no other token is empty |
| `Tokenizer.TrimmedInputHasNoEmptyToken` | src/App.js:40-42 | a non-empty input that `trim` leaves unchanged produces no empty token |
| `Tokenizer.Table` | src/App.js:45 | the sheet data has one row more than there are tokens, and every row has exactly one cell |
| `Tokenizer.TableColumn` | src/App.js:45 | the single column of the sheet data reads the header (row 0), then each token in order (row `i+1` is token `i`) |
| `Tokenizer.ExamplePatterns` | src/App.js:41 | `123-456-7890` matches the pattern; the page's examples `098-0765-04321` and `123-456-789` do not |
| `Tokenizer.ExampleRunsCollapse` | src/App.js:40-42 | `"a b  c"` tokenizes to `a`, `b`, `c`: a run of two spaces separates like one |
| `Tokenizer.ExampleSingleWords` | src/App.js:40-42 | `123-456-7890` and `098-0765-04321` are each a single token, the first by the pattern and the second by the whitespace split |
| `Tokenizer.ExamplePage` | src/App.js:114-134 | the page's example string tokenizes to `123-456-789`, `098-0765-04321`, `fee-fi-fo-fum`, `i-like-cheese`, the four rows of the page's result table |
| `Tokenizer.ExampleTable` | src/App.js:40-45 | header `Numbers` and input `1 2 3` give the rows `[Numbers]`, `[1]`, `[2]`, `[3]` |
| `Form.Cleared` | src/App.js:5-9 | the form as `useState` starts it and as the reset at src/App.js:58 leaves it: every field is the empty string |
| `Form.Message` | src/App.js:29-31 | the fixed message per field: "Please enter a string.", "Please provide a file name.", "Please provide a header name." |
| `Form.AllFilled` | src/App.js:34 | the pass condition: none of the three fields is blank |
| `Form.IsBlank` | src/App.js:29-31 | `!value.trim()`: the value is the empty string once trimmed |
| `Form.Errors` | src/App.js:26-31 | the error dictionary: each blank field mapped to its fixed message, and no other key |
| `Form.ErrorsExact` | src/App.js:29-31 | a field has an error entry exactly when it is blank, and that entry is the field's own fixed message |
| `Form.ErrorsUnique` | src/App.js:26-31 | any dictionary with exactly those entries is the error dictionary |
| `Form.BlankIffAllSpace` | src/App.js:29-31 | a field is blank (`!value.trim()`) exactly when it is all whitespace |
| `Form.NoErrorsIffAllFilled` | src/App.js:34 | the dictionary has no keys exactly when all three fields are non-blank |
| `Form.FilledFormHasNoErrors` | src/App.js:34 | three non-blank fields produce an empty dictionary |
| `Form.BlankFieldHasError` | src/App.js:29-34 | one blank field is enough for a non-empty dictionary |
| `Form.ClearedFormHasAllErrors` | src/App.js:29-31 | the cleared form has an entry with its message for every field |
| `Component.CollectErrors` | src/App.js:25-31 | the dictionary built step by step from empty equals the error dictionary of the form |
| `Component.App.constructor` | src/App.js:5-10 | the form starts with three empty strings and the error state starts empty |
| `Component.App.ValidateInputs` | src/App.js:25-35 | the error state becomes the form's freshly computed dictionary, whatever it was before, and the result is true exactly when all three fields are non-blank |
| `Component.App.ConvertStringToExcel` | src/App.js:37-59 | the error state is set to the form's dictionary. On a blank field, or when the spreadsheet library throws: no download and the form unchanged. Otherwise: the download is `<fileName>.xlsx` (octet-stream) holding `LowBytes` of the workbook written from `[[header]] ++ [[t] for t in Tokenize(inputString)]` under sheet `Sheet1`, and all three fields are reset to empty strings |

## Left out

- React rendering, `useState` and the `handleChange` / `handleSubmit` wiring (src/App.js:20-23, src/App.js:61-139). These are UI plumbing. The two pieces of state are plain fields of `Component.App`, and a field edit is a plain assignment to `formData`.
- React applies `setError` and `setFormData` on a later render. The model applies each update at once. Within one `convertStringToExcel` call nothing reads the state after it is set, so the outcome is the same.
- The spreadsheet library calls `book_new`, `aoa_to_sheet`, `book_append_sheet` and `write` (src/App.js:44, src/App.js:46-50). They are folded into the parameter `write(sheetName, rows)` of `ConvertStringToExcel`, because the library's code is not part of this model. An exception from any of them is the result `None`. Nothing is assumed about the string it returns. `Bytes.BinaryStringRoundTrip` says what holds when that string is binary, as the library's 'binary' output type promises.
- The `Blob`, `createObjectURL`, the `<a>` element and `link.click()` (src/App.js:51-56). These are browser I/O. The model returns the file's name, MIME type and bytes as a `Download` value instead.
- `Component.App.ConvertStringToExcel`: the model takes `new Blob`, `createObjectURL` and `link.click()` (src/App.js:51-56) to return normally. In the source an exception from any of them ends the handler before the reset at src/App.js:58, so the form is not cleared and the error state is already set. The model always clears the form once `write` has returned a workbook.
- Strings with characters outside the Basic Multilingual Plane, and lone surrogates. A JavaScript string holds a non-BMP character as two UTF-16 code units, and `length` and `charCodeAt` count those units. The model holds one `char` per such character, so it gives one code, not two. A lone surrogate code unit cannot be a `char` at all, so such strings are not modelled.
- `Bytes.LowByte`: `& 0xff` is written as `% 256`. The two agree on every character code, because codes are never negative.
