/** The JavaScript string built-ins the converter relies on: the whitespace
    class shared by `\s` and `String.prototype.trim`, `trim` itself,
    `split(/\s+/)`, `split(' ')` and, as their partner, `join`.
    A JavaScript string is modelled as a sequence of characters, one `char`
    per character of the Basic Multilingual Plane outside the surrogate
    range. */
module JsText {

  /** ECMAScript WhiteSpace and LineTerminator code points: exactly the
      characters `\s` matches in a regular expression and the characters
      `trim` strips. */
  predicate IsSpace(c: char) {
    || c == '\t' || c == '\n' || c == '\U{000B}' || c == '\U{000C}' || c == '\r'
    || c == ' ' || c == '\U{00A0}' || c == '\U{1680}'
    || ('\U{2000}' <= c <= '\U{200A}')
    || c == '\U{2028}' || c == '\U{2029}' || c == '\U{202F}' || c == '\U{205F}'
    || c == '\U{3000}' || c == '\U{FEFF}'
  }

  predicate AllSpace(s: string) {
    forall k :: 0 <= k < |s| ==> IsSpace(s[k])
  }

  predicate NoSpace(s: string) {
    forall k :: 0 <= k < |s| ==> !IsSpace(s[k])
  }

  // ---------------------------------------------------------------- trim

  /** The start of the whitespace run that ends at `j`, not going below
      `lo`. */
  function SkipSpacesBack(s: string, lo: nat, j: nat): (k: nat)
    requires lo <= j <= |s|
    ensures lo <= k <= j
    ensures AllSpace(s[k..j])
    ensures k > lo ==> !IsSpace(s[k - 1])
    decreases j
  {
    if j == lo || !IsSpace(s[j - 1]) then j
    else
      var k := SkipSpacesBack(s, lo, j - 1);
      assert s[k..j] == s[k..j - 1] + [s[j - 1]];
      AllSpaceAppend(s[k..j - 1], [s[j - 1]]);
      k
  }

  /** `s.trim()`: the part of `s` between its leading and its trailing
      whitespace. */
  function Trim(s: string): string {
    var i := SkipSpaces(s, 0);
    s[i..SkipSpacesBack(s, i, |s|)]
  }

  /** `trim` gives the empty string exactly when `s` is all whitespace. */
  lemma TrimEmptyIffAllSpace(s: string)
    ensures Trim(s) == [] <==> AllSpace(s)
  {
    if Trim(s) == [] {
      TrimEmptyAllSpace(s);
    }
    if AllSpace(s) {
      var i := SkipSpaces(s, 0);
      assert i == |s|;
      assert SkipSpacesBack(s, i, |s|) == |s|;
      assert Trim(s) == s[|s|..|s|];
    }
  }

  lemma TrimEmptyAllSpace(s: string)
    requires Trim(s) == []
    ensures AllSpace(s)
  {
    var i := SkipSpaces(s, 0);
    var j := SkipSpacesBack(s, i, |s|);
    assert |s[i..j]| == 0;
    assert s == s[0..i] + s[j..];
    AllSpaceAppend(s[0..i], s[j..]);
  }

  /** A non-empty trimmed string starts and ends with a non-whitespace
      character. */
  lemma TrimEnds(s: string)
    ensures var r := Trim(s);
      r != [] ==> !IsSpace(r[0]) && !IsSpace(r[|r| - 1])
  {
    var i := SkipSpaces(s, 0);
    var j := SkipSpacesBack(s, i, |s|);
    if i < j {
      assert Trim(s)[0] == s[i];
      assert Trim(s)[j - i - 1] == s[j - 1];
    }
  }

  /** A string that starts and ends with a non-whitespace character is
      left as it is. */
  lemma TrimKeepsTrimmed(s: string)
    requires s != [] && !IsSpace(s[0]) && !IsSpace(s[|s| - 1])
    ensures Trim(s) == s
  {
    assert SkipSpaces(s, 0) == 0;
    assert SkipSpacesBack(s, 0, |s|) == |s|;
  }

  /** `trim` removes a whitespace prefix and a whitespace suffix and keeps
      the part in between; with TrimEnds this fixes the result. */
  lemma TrimStrips(s: string)
    ensures exists i, j :: 0 <= i <= j <= |s| && Trim(s) == s[i..j] && AllSpace(s[..i]) && AllSpace(s[j..])
  {
    var i := SkipSpaces(s, 0);
    var j := SkipSpacesBack(s, i, |s|);
    assert s[..i] == s[0..i];
    assert s[j..] == s[j..|s|];
    assert Trim(s) == s[i..j];
  }

  lemma {:induction false} AllSpaceAppend(a: string, b: string)
    requires AllSpace(a) && AllSpace(b)
    ensures AllSpace(a + b)
  {
    forall k | 0 <= k < |a + b| ensures IsSpace((a + b)[k]) {
      if k < |a| {
        assert (a + b)[k] == a[k];
      } else {
        assert (a + b)[k] == b[k - |a|];
      }
    }
  }

  // --------------------------------------------------------- split(' ')

  /** `s.split(sep)` for a one-character separator string: the pieces
      between consecutive occurrences of `sep`, so `""` gives `[""]` and
      two adjacent separators give an empty piece. */
  function SplitOn(s: string, sep: char): (r: seq<string>)
    ensures |r| >= 1
    ensures forall i :: 0 <= i < |r| ==> sep !in r[i]
  {
    if s == [] then [[]]
    else
      var rest := SplitOn(s[1..], sep);
      if s[0] == sep then [[]] + rest
      else [[s[0]] + rest[0]] + rest[1..]
  }

  /** `ps.join(sep)` for a one-character separator: `[].join(sep)` is the
      empty string. */
  function Join(ps: seq<string>, sep: char): string {
    if |ps| == 0 then []
    else if |ps| == 1 then ps[0]
    else ps[0] + [sep] + Join(ps[1..], sep)
  }

  /** Joining the pieces of a split gives back the string. */
  lemma {:induction false} JoinSplitOn(s: string, sep: char)
    ensures Join(SplitOn(s, sep), sep) == s
  {
    if s != [] {
      JoinSplitOn(s[1..], sep);
      var rest := SplitOn(s[1..], sep);
      if s[0] != sep && |rest| > 1 {
        assert rest == [rest[0]] + rest[1..];
      }
    }
  }

  /** Splitting a join of separator-free pieces gives back the pieces. */
  lemma {:induction false} SplitOnJoin(ps: seq<string>, sep: char)
    requires |ps| >= 1
    requires forall i :: 0 <= i < |ps| ==> sep !in ps[i]
    ensures SplitOn(Join(ps, sep), sep) == ps
  {
    if |ps| == 1 {
      SplitOnAbsent(ps[0], sep);
    } else {
      SplitOnJoin(ps[1..], sep);
      SplitOnPrefix(ps[0], Join(ps[1..], sep), sep);
    }
  }

  /** A string without the separator is one piece. */
  lemma {:induction false} SplitOnAbsent(s: string, sep: char)
    requires sep !in s
    ensures SplitOn(s, sep) == [s]
  {
    if s != [] {
      SplitOnAbsent(s[1..], sep);
      assert [s[0]] + s[1..] == s;
    }
  }

  /** Splitting `w + [sep] + t` for a separator-free `w` yields `w` first. */
  lemma {:induction false} SplitOnPrefix(w: string, t: string, sep: char)
    requires sep !in w
    ensures SplitOn(w + [sep] + t, sep) == [w] + SplitOn(t, sep)
  {
    if w == [] {
      assert ([sep] + t)[1..] == t;
    } else {
      SplitOnPrefix(w[1..], t, sep);
      assert (w + [sep] + t)[1..] == w[1..] + [sep] + t;
      assert [w[0]] + w[1..] == w;
    }
  }

  // ------------------------------------------------------- split(/\s+/)

  /** Index of the first whitespace character at or after `i`, or `|s|`. */
  function NextSpace(s: string, i: nat): (k: nat)
    requires i <= |s|
    ensures i <= k <= |s|
    ensures NoSpace(s[i..k])
    ensures k < |s| ==> IsSpace(s[k])
    decreases |s| - i
  {
    if i == |s| || IsSpace(s[i]) then i else NextSpace(s, i + 1)
  }

  /** Index of the first non-whitespace character at or after `i`, or `|s|`:
      the end of the whitespace run that starts at `i`. */
  function SkipSpaces(s: string, i: nat): (k: nat)
    requires i <= |s|
    ensures i <= k <= |s|
    ensures AllSpace(s[i..k])
    ensures k < |s| ==> !IsSpace(s[k])
    decreases |s| - i
  {
    if i == |s| || !IsSpace(s[i]) then i else SkipSpaces(s, i + 1)
  }

  /** `s.split(/\s+/)`: the words between maximal runs of whitespace, in
      order. As in the ECMAScript split algorithm, `""` gives `[""]` and a
      run at the start or the end of `s` gives an empty first or last
      word; no word holds whitespace and no inner word is empty. */
  function SplitOnSpaceRuns(s: string): (r: seq<string>)
    ensures |r| >= 1
    ensures forall i :: 0 <= i < |r| ==> NoSpace(r[i])
    ensures forall i :: 0 < i < |r| - 1 ==> r[i] != []
    ensures r[0] == [] <==> s == [] || IsSpace(s[0])
    decreases |s|
  {
    var k := NextSpace(s, 0);
    if k == |s| then
      assert s[0..k] == s;
      [s]
    else
      assert s[0..k] == s[..k];
      [s[..k]] + SplitOnSpaceRuns(s[SkipSpaces(s, k)..])
  }

  /** The last word is empty exactly when `s` is empty or ends in whitespace. */
  lemma {:induction false} SplitOnSpaceRunsLast(s: string)
    ensures var r := SplitOnSpaceRuns(s);
      r[|r| - 1] == [] <==> s == [] || IsSpace(s[|s| - 1])
    decreases |s|
  {
    var k := NextSpace(s, 0);
    if k == |s| {
      assert s[0..k] == s;
      if s != [] {
        assert s[0..k][|s| - 1] == s[|s| - 1];
      }
    } else {
      var j := SkipSpaces(s, k);
      var rest := SplitOnSpaceRuns(s[j..]);
      assert SplitOnSpaceRuns(s) == [s[..k]] + rest;
      SplitOnSpaceRunsLast(s[j..]);
      if j == |s| {
        assert s[k..j][j - 1 - k] == s[|s| - 1];
      } else {
        assert s[j..][|s| - j - 1] == s[|s| - 1];
      }
    }
  }

  /** All characters of `s` that are not whitespace, in order. */
  function RemoveSpaces(s: string): string {
    if s == [] then []
    else (if IsSpace(s[0]) then [] else [s[0]]) + RemoveSpaces(s[1..])
  }

  /** The words one after another. */
  function Concat(ws: seq<string>): string {
    if ws == [] then [] else ws[0] + Concat(ws[1..])
  }

  lemma {:induction false} RemoveSpacesAppend(a: string, b: string)
    ensures RemoveSpaces(a + b) == RemoveSpaces(a) + RemoveSpaces(b)
  {
    if a != [] {
      RemoveSpacesAppend(a[1..], b);
      assert (a + b)[1..] == a[1..] + b;
    } else {
      assert a + b == b;
    }
  }

  lemma {:induction false} RemoveSpacesOfNoSpace(s: string)
    requires NoSpace(s)
    ensures RemoveSpaces(s) == s
  {
    if s != [] {
      RemoveSpacesOfNoSpace(s[1..]);
    }
  }

  lemma {:induction false} RemoveSpacesOfAllSpace(s: string)
    requires AllSpace(s)
    ensures RemoveSpaces(s) == []
  {
    if s != [] {
      RemoveSpacesOfAllSpace(s[1..]);
    }
  }

  /** Splitting on whitespace loses no other character and reorders
      nothing: the words, put together, are the non-whitespace characters
      of `s` in order. */
  lemma {:induction false} SplitOnSpaceRunsContent(s: string)
    ensures Concat(SplitOnSpaceRuns(s)) == RemoveSpaces(s)
    decreases |s|
  {
    var k := NextSpace(s, 0);
    if k == |s| {
      assert s[0..k] == s;
      RemoveSpacesOfNoSpace(s);
    } else {
      var j := SkipSpaces(s, k);
      var w, rest := s[..k], SplitOnSpaceRuns(s[j..]);
      SplitOnSpaceRunsContent(s[j..]);
      assert ([w] + rest)[1..] == rest;
      assert Concat(SplitOnSpaceRuns(s)) == w + RemoveSpaces(s[j..]);
      assert s[0..k] == w;
      RemoveSpacesOfNoSpace(w);
      RemoveSpacesOfAllSpace(s[k..j]);
      RemoveSpacesSplit(s, k, j);
    }
  }

  lemma {:induction false} RemoveSpacesSplit(s: string, k: nat, j: nat)
    requires k <= j <= |s|
    ensures RemoveSpaces(s) == RemoveSpaces(s[..k]) + RemoveSpaces(s[k..j]) + RemoveSpaces(s[j..])
  {
    assert s == s[..k] + (s[k..j] + s[j..]);
    RemoveSpacesAppend(s[..k], s[k..j] + s[j..]);
    RemoveSpacesAppend(s[k..j], s[j..]);
  }

  /** Splitting on whitespace undoes joining with single spaces, for
      whitespace-free words whose inner words are non-empty: exactly the
      word lists SplitOnSpaceRuns produces. */
  lemma {:induction false} SplitOnSpaceRunsOfJoin(ws: seq<string>)
    requires |ws| >= 1
    requires forall i :: 0 <= i < |ws| ==> NoSpace(ws[i])
    requires forall i :: 0 < i < |ws| - 1 ==> ws[i] != []
    ensures SplitOnSpaceRuns(Join(ws, ' ')) == ws
  {
    var s := Join(ws, ' ');
    if |ws| == 1 {
      assert s[0..|s|] == s;
      NextSpaceUnique(s, 0, |s|);
    } else {
      var w, t := ws[0], Join(ws[1..], ' ');
      assert s == w + [' '] + t;
      assert s[0..|w|] == w;
      NextSpaceUnique(s, 0, |w|);
      assert s[|w|..|w| + 1] == [' '];
      if t != [] {
        if |ws| > 2 {
          JoinHead(ws[1..], ' ');
          assert t[0] == ws[1][0];
        }
        assert !IsSpace(t[0]);
        assert s[|w| + 1] == t[0];
      }
      SkipSpacesUnique(s, |w|, |w| + 1);
      assert s[..|w|] == w;
      assert s[|w| + 1..] == t;
      SplitOnSpaceRunsOfJoin(ws[1..]);
    }
  }

  /** One step of the split: a whitespace-free prefix followed by a
      whitespace run is the first word, and splitting resumes after the run. */
  lemma SplitOnSpaceRunsStep(s: string, k: nat, j: nat)
    requires k < j <= |s|
    requires NoSpace(s[..k]) && AllSpace(s[k..j])
    requires j < |s| ==> !IsSpace(s[j])
    ensures SplitOnSpaceRuns(s) == [s[..k]] + SplitOnSpaceRuns(s[j..])
  {
    assert s[0..k] == s[..k];
    assert s[k..j][0] == s[k];
    NextSpaceUnique(s, 0, k);
    SkipSpacesUnique(s, k, j);
  }

  /** NextSpace is the only index with its two properties. */
  lemma {:induction false} NextSpaceUnique(s: string, i: nat, k: nat)
    requires i <= k <= |s|
    requires NoSpace(s[i..k])
    requires k < |s| ==> IsSpace(s[k])
    ensures NextSpace(s, i) == k
    decreases k - i
  {
    if i < k {
      assert s[i..k][0] == s[i];
      assert s[i + 1..k] == s[i..k][1..];
      NextSpaceUnique(s, i + 1, k);
    }
  }

  /** SkipSpaces is the only index with its two properties. */
  lemma {:induction false} SkipSpacesUnique(s: string, i: nat, k: nat)
    requires i <= k <= |s|
    requires AllSpace(s[i..k])
    requires k < |s| ==> !IsSpace(s[k])
    ensures SkipSpaces(s, i) == k
    decreases k - i
  {
    if i < k {
      assert s[i..k][0] == s[i];
      assert s[i + 1..k] == s[i..k][1..];
      SkipSpacesUnique(s, i + 1, k);
    }
  }

  /** A join starts with its first piece. */
  lemma JoinHead(ps: seq<string>, sep: char)
    requires |ps| >= 1
    ensures Join(ps, sep)[..|ps[0]|] == ps[0]
  {
    if |ps| > 1 {
      assert Join(ps, sep) == ps[0] + ([sep] + Join(ps[1..], sep));
    }
  }

  /** Every piece is already separator-free, so re-splitting it on a
      single space changes nothing: each word stays one piece. */
  lemma SplitOnSpaceRunsResplit(s: string, i: nat)
    requires i < |SplitOnSpaceRuns(s)|
    ensures SplitOn(SplitOnSpaceRuns(s)[i], ' ') == [SplitOnSpaceRuns(s)[i]]
  {
    var w := SplitOnSpaceRuns(s)[i];
    assert ' ' !in w by {
      forall k | 0 <= k < |w| ensures w[k] != ' ' {
        assert !IsSpace(w[k]);
      }
    }
    SplitOnAbsent(w, ' ');
  }
}
