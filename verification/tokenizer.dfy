/** The tokenizer and table builder of `convertStringToExcel`: the input
    string is split on whitespace runs, a word shaped like `DDD-DDD-DDDD`
    is kept whole, any other word is split again on a single space and
    flattened in, and the tokens become one-cell rows under the header. */
module Tokenizer {
  import opened JsText

  /** `\d` in a JavaScript regular expression: an ASCII digit only. */
  predicate IsDigit(c: char) {
    '0' <= c <= '9'
  }

  /** `/^\d{3}-\d{3}-\d{4}$/.test(w)`, position by position. A word the
      pattern accepts holds no whitespace, so the split on whitespace runs
      never cuts one apart. */
  predicate IsPhoneNumber(w: string): (b: bool)
    ensures b ==> NoSpace(w)
  {
    && |w| == 12
    && IsDigit(w[0]) && IsDigit(w[1]) && IsDigit(w[2])
    && w[3] == '-'
    && IsDigit(w[4]) && IsDigit(w[5]) && IsDigit(w[6])
    && w[7] == '-'
    && IsDigit(w[8]) && IsDigit(w[9]) && IsDigit(w[10]) && IsDigit(w[11])
  }

  /** The `flatMap` callback: a phone number stays one token, any other
      word is split on `' '`. Either way the pieces hold no space and,
      joined with single spaces, give the word back. */
  function Expand(w: string): (r: seq<string>)
    ensures |r| >= 1
    ensures forall i :: 0 <= i < |r| ==> ' ' !in r[i]
    ensures Join(r, ' ') == w
  {
    if IsPhoneNumber(w) then
      assert ' ' !in w by { assert IsSpace(' '); }
      [w]
    else
      JoinSplitOn(w, ' ');
      SplitOn(w, ' ')
  }

  /** `words.flatMap(Expand)`: every word gives at least one token, and no
      token holds a space. */
  function FlatMapExpand(words: seq<string>): (r: seq<string>)
    ensures |r| >= |words|
    ensures forall i :: 0 <= i < |r| ==> ' ' !in r[i]
  {
    if words == [] then [] else Expand(words[0]) + FlatMapExpand(words[1..])
  }

  /** The token list of `inputString`: never empty, and no token holds a
      space. */
  function Tokenize(s: string): (t: seq<string>)
    ensures |t| >= 1
    ensures forall i :: 0 <= i < |t| ==> ' ' !in t[i]
  {
    FlatMapExpand(SplitOnSpaceRuns(s))
  }

  /** A word without whitespace expands to itself, whether or not it is a
      phone number. */
  lemma ExpandWord(w: string)
    requires NoSpace(w)
    ensures Expand(w) == [w]
  {
    if !IsPhoneNumber(w) {
      assert ' ' !in w by {
        forall k | 0 <= k < |w| ensures w[k] != ' ' {
          assert !IsSpace(w[k]);
        }
      }
      SplitOnAbsent(w, ' ');
    }
  }

  lemma {:induction false} FlatMapExpandOfWords(words: seq<string>)
    requires forall i :: 0 <= i < |words| ==> NoSpace(words[i])
    ensures FlatMapExpand(words) == words
  {
    if words != [] {
      ExpandWord(words[0]);
      FlatMapExpandOfWords(words[1..]);
    }
  }

  /** The second split is a no-op: the tokens are exactly the words of the
      whitespace split, in the same order. */
  lemma TokenizeIsSplitOnSpaceRuns(s: string)
    ensures Tokenize(s) == SplitOnSpaceRuns(s)
  {
    FlatMapExpandOfWords(SplitOnSpaceRuns(s));
  }

  /** A whitespace-delimited word that matches the phone pattern is one
      token, unchanged, at the word's own position. */
  lemma PhoneNumberKept(s: string, i: nat)
    requires i < |SplitOnSpaceRuns(s)| && IsPhoneNumber(SplitOnSpaceRuns(s)[i])
    ensures i < |Tokenize(s)| && Tokenize(s)[i] == SplitOnSpaceRuns(s)[i]
  {
    TokenizeIsSplitOnSpaceRuns(s);
  }

  /** No token holds a whitespace character, and there is always at least
      one token. */
  lemma TokensHaveNoSpace(s: string)
    ensures |Tokenize(s)| >= 1
    ensures forall i :: 0 <= i < |Tokenize(s)| ==> NoSpace(Tokenize(s)[i])
  {
    TokenizeIsSplitOnSpaceRuns(s);
  }

  /** Tokenizing drops the whitespace and nothing else: the tokens, put
      together, are the non-whitespace characters of the input in order. */
  lemma TokenizeContent(s: string)
    ensures Concat(Tokenize(s)) == RemoveSpaces(s)
  {
    TokenizeIsSplitOnSpaceRuns(s);
    SplitOnSpaceRunsContent(s);
  }

  /** Tokens separated by single spaces tokenize back to themselves. */
  lemma TokenizeJoin(tokens: seq<string>)
    requires |tokens| >= 1
    requires forall i :: 0 <= i < |tokens| ==> NoSpace(tokens[i])
    requires forall i :: 0 < i < |tokens| - 1 ==> tokens[i] != []
    ensures Tokenize(Join(tokens, ' ')) == tokens
  {
    SplitOnSpaceRunsOfJoin(tokens);
    TokenizeIsSplitOnSpaceRuns(Join(tokens, ' '));
  }

  /** Empty tokens arise only from whitespace at the very start or end of
      the input (or from an empty input): the first token is empty exactly
      when the input is empty or starts with whitespace, the last exactly
      when it is empty or ends with whitespace, and no other is empty. */
  lemma EmptyTokens(s: string)
    ensures var t := Tokenize(s);
      && (t[0] == [] <==> s == [] || IsSpace(s[0]))
      && (t[|t| - 1] == [] <==> s == [] || IsSpace(s[|s| - 1]))
      && forall i :: 0 < i < |t| - 1 ==> t[i] != []
  {
    TokenizeIsSplitOnSpaceRuns(s);
    SplitOnSpaceRunsLast(s);
  }

  /** An input that `trim` leaves alone and that is not empty yields no
      empty token. */
  lemma TrimmedInputHasNoEmptyToken(s: string)
    requires s != [] && Trim(s) == s
    ensures forall i :: 0 <= i < |Tokenize(s)| ==> Tokenize(s)[i] != []
  {
    TrimEnds(s);
    EmptyTokens(s);
  }

  /** The sheet data `[[header], ...words.map((word) => [word])]`. */
  function Table(header: string, tokens: seq<string>): (t: seq<seq<string>>)
    ensures |t| == |tokens| + 1
    ensures forall i :: 0 <= i < |t| ==> |t[i]| == 1
  {
    [[header]] + seq(|tokens|, i requires 0 <= i < |tokens| => [tokens[i]])
  }

  /** The first column of a table whose rows are all non-empty. */
  function Column(t: seq<seq<string>>): seq<string>
    requires forall i :: 0 <= i < |t| ==> |t[i]| >= 1
  {
    seq(|t|, i requires 0 <= i < |t| => t[i][0])
  }

  /** Reading the table's single column back gives the header (cell A1)
      followed by the tokens in order (cells A2 onwards). */
  lemma TableColumn(header: string, tokens: seq<string>)
    ensures Column(Table(header, tokens)) == [header] + tokens
  {
    var t := Table(header, tokens);
    var c := Column(t);
    assert forall i :: 0 <= i < |tokens| ==> c[i + 1] == tokens[i];
  }

  // Worked examples of the rules above.

  lemma ExamplePatterns()
    ensures IsPhoneNumber("123-456-7890")
    ensures !IsPhoneNumber("098-0765-04321")
    ensures !IsPhoneNumber("123-456-789")
  {
  }

  lemma ExampleRunsCollapse()
    ensures Tokenize("a b  c") == ["a", "b", "c"]
  {
    var s := "a b  c";
    TokenizeIsSplitOnSpaceRuns(s);
    SplitOnSpaceRunsStep(s, 1, 2);
    assert s[..1] == "a" && s[2..] == "b  c";
    SplitOnSpaceRunsStep("b  c", 1, 3);
    assert "b  c"[..1] == "b" && "b  c"[3..] == "c";
    SplitOnSpaceRunsOfJoin(["c"]);
  }

  lemma ExampleSingleWords()
    ensures Tokenize("123-456-7890") == ["123-456-7890"]
    ensures Tokenize("098-0765-04321") == ["098-0765-04321"]
  {
    TokenizeJoin(["123-456-7890"]);
    TokenizeJoin(["098-0765-04321"]);
  }

  /** The example on the page: its four words become the four rows of the
      result table under the header. */
  lemma ExamplePage()
    ensures Tokenize(PageExample) == PageWords
  {
    PageWordsJoin();
    PageWordsHaveNoSpace();
    TokenizeJoin(PageWords);
  }

  const PageExample := "123-456-789 098-0765-04321 fee-fi-fo-fum i-like-cheese"
  const PageWords := ["123-456-789", "098-0765-04321", "fee-fi-fo-fum", "i-like-cheese"]

  lemma PageWordsJoin()
    ensures Join(PageWords, ' ') == PageExample
  {
    var ws := PageWords;
    assert ws[1..][1..][1..] == [ws[3]];
    assert Join(ws, ' ') == ws[0] + [' '] + (ws[1] + [' '] + (ws[2] + [' '] + ws[3]));
  }

  lemma PageWordsHaveNoSpace()
    ensures forall i :: 0 <= i < |PageWords| ==> NoSpace(PageWords[i])
  {
    assert NoSpace(PageWords[0]);
    assert NoSpace(PageWords[1]);
    assert NoSpace(PageWords[2]);
    assert NoSpace(PageWords[3]);
  }

  lemma ExampleTable()
    ensures Table("Numbers", Tokenize("1 2 3")) == [["Numbers"], ["1"], ["2"], ["3"]]
  {
    TokenizeJoin(["1", "2", "3"]);
    assert Join(["1", "2", "3"], ' ') == "1 2 3";
  }
}
