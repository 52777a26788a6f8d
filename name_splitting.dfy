/** `splitEnglishName`: trim the input, split it on runs of whitespace, and
    take the last token as the surname and the rest, joined by single
    spaces, as the given name. */
module NameSplitting {

  /** The characters JavaScript's `\s` and `String.prototype.trim` treat as
      white space (WhiteSpace and LineTerminator of ECMA-262). */
  predicate IsSpace(c: char) {
    var n := c as int;
    n == 0x09 || n == 0x0A || n == 0x0B || n == 0x0C || n == 0x0D || n == 0x20 ||
    n == 0xA0 || n == 0x1680 || (0x2000 <= n <= 0x200A) || n == 0x2028 ||
    n == 0x2029 || n == 0x202F || n == 0x205F || n == 0x3000 || n == 0xFEFF
  }

  predicate SpaceFree(s: string) {
    forall i :: 0 <= i < |s| ==> !IsSpace(s[i])
  }

  predicate AllSpace(s: string) {
    forall i :: 0 <= i < |s| ==> IsSpace(s[i])
  }

  lemma AllSpaceCons(c: char, u: string)
    requires IsSpace(c) && AllSpace(u)
    ensures AllSpace([c] + u)
  {
    forall i | 0 <= i < |u| + 1 ensures IsSpace(([c] + u)[i]) {
      if i > 0 {
        assert ([c] + u)[i] == u[i - 1];
      }
    }
  }

  lemma AllSpaceSnoc(u: string, c: char)
    requires AllSpace(u) && IsSpace(c)
    ensures AllSpace(u + [c])
  {
    forall i | 0 <= i < |u| + 1 ensures IsSpace((u + [c])[i]) {
      if i < |u| {
        assert (u + [c])[i] == u[i];
      }
    }
  }

  /** No white space at either end. */
  predicate Trimmed(s: string) {
    s == "" || (!IsSpace(s[0]) && !IsSpace(s[|s| - 1]))
  }

  /** The number of white-space characters the string starts with. */
  function LeadingSpaces(s: string): (n: nat)
    ensures n <= |s| && AllSpace(s[..n])
    ensures n < |s| ==> !IsSpace(s[n])
  {
    if |s| > 0 && IsSpace(s[0]) then
      var m := LeadingSpaces(s[1..]);
      AllSpaceCons(s[0], s[1..][..m]);
      assert s[..m + 1] == [s[0]] + s[1..][..m];
      assert m + 1 < |s| ==> s[m + 1] == s[1..][m];
      m + 1
    else 0
  }

  /** `String.prototype.trimStart`. */
  function TrimStart(s: string): string {
    s[LeadingSpaces(s)..]
  }

  /** The number of white-space characters the string ends with. */
  function TrailingSpaces(s: string): (n: nat)
    ensures n <= |s| && AllSpace(s[|s| - n..])
    ensures n < |s| ==> !IsSpace(s[|s| - n - 1])
  {
    if |s| > 0 && IsSpace(s[|s| - 1]) then
      var front := s[..|s| - 1];
      var m := TrailingSpaces(front);
      AllSpaceSnoc(front[|front| - m..], s[|s| - 1]);
      assert s[|s| - (m + 1)..] == front[|front| - m..] + [s[|s| - 1]];
      assert m + 1 < |s| ==> s[|s| - (m + 1) - 1] == front[|front| - m - 1];
      m + 1
    else 0
  }

  /** `String.prototype.trimEnd`. */
  function TrimEnd(s: string): string {
    s[..|s| - TrailingSpaces(s)]
  }

  /** `String.prototype.trim`. */
  function Trim(s: string): (r: string)
    ensures Trimmed(r)
  {
    TrimEnd(TrimStart(s))
  }

  /** `t.split(/\s+/)`: the pieces between maximal runs of white space. As
      in JavaScript, an empty string gives one empty piece, and white space
      at either end gives an empty piece at that end. */
  function SplitRuns(t: string): (parts: seq<string>)
    ensures |parts| >= 1
    decreases |t|
  {
    if |t| == 0 then [""]
    else if IsSpace(t[0]) then [""] + SplitRuns(TrimStart(t[1..]))
    else
      var rest := SplitRuns(t[1..]);
      [[t[0]] + rest[0]] + rest[1..]
  }

  /** `Array.prototype.join(sep)`. */
  function Join(parts: seq<string>, sep: string): string {
    if |parts| == 0 then ""
    else if |parts| == 1 then parts[0]
    else parts[0] + sep + Join(parts[1..], sep)
  }

  datatype SplitName = SplitName(firstName: string, lastName: string)

  /** `splitEnglishName` (server.js). */
  function SplitEnglishName(fullName: string): SplitName {
    var parts := SplitRuns(Trim(fullName));
    if |parts| == 1 then SplitName(parts[0], "")
    else SplitName(Join(parts[..|parts| - 1], " "), parts[|parts| - 1])
  }

  /** Tokens a name can be re-joined from: non-empty, without white space. */
  predicate Words(ts: seq<string>) {
    forall k :: 0 <= k < |ts| ==> ts[k] != "" && SpaceFree(ts[k])
  }

  // ---------------------------------------------------------------------
  // Splitting

  /** Every piece of a split is free of white space. */
  lemma {:induction false} SplitRunsSpaceFree(t: string)
    ensures forall k :: 0 <= k < |SplitRuns(t)| ==> SpaceFree(SplitRuns(t)[k])
    decreases |t|
  {
    if |t| == 0 {
    } else if IsSpace(t[0]) {
      SplitRunsSpaceFree(TrimStart(t[1..]));
    } else {
      SplitRunsSpaceFree(t[1..]);
      var rest := SplitRuns(t[1..]);
      assert SpaceFree([t[0]] + rest[0]);
    }
  }

  /** A string with no trailing white space splits into pieces that are all
      non-empty after the first; the first is non-empty too when the string
      does not start with white space. */
  lemma {:induction false} SplitRunsNonEmpty(t: string)
    requires t == "" || !IsSpace(t[|t| - 1])
    ensures forall k :: 1 <= k < |SplitRuns(t)| ==> SplitRuns(t)[k] != ""
    ensures t != "" && !IsSpace(t[0]) ==> SplitRuns(t)[0] != ""
    decreases |t|
  {
    if |t| == 0 {
    } else if IsSpace(t[0]) {
      var u := TrimStart(t[1..]);
      assert u != "" && u[|u| - 1] == t[|t| - 1];
      SplitRunsNonEmpty(u);
    } else {
      SplitRunsNonEmpty(t[1..]);
    }
  }

  /** A trimmed, non-blank string splits into words. */
  lemma SplitTrimmedWords(t: string)
    requires Trimmed(t) && t != ""
    ensures Words(SplitRuns(t))
  {
    SplitRunsSpaceFree(t);
    SplitRunsNonEmpty(t);
  }

  /** The split has a single piece exactly when there is no white space. */
  lemma {:induction false} SplitRunsSingle(t: string)
    ensures |SplitRuns(t)| == 1 <==> SpaceFree(t)
    ensures SpaceFree(t) ==> SplitRuns(t) == [t]
    decreases |t|
  {
    if |t| == 0 {
    } else if IsSpace(t[0]) {
      assert !SpaceFree(t);
    } else {
      SplitRunsSingle(t[1..]);
      if SpaceFree(t[1..]) {
        assert [t[0]] + t[1..] == t;
      } else {
        var i :| 0 <= i < |t[1..]| && IsSpace(t[1..][i]);
        assert IsSpace(t[i + 1]);
      }
    }
  }

  /** Splitting a word followed by the rest of a string: the word is glued to
      the first piece of the rest. */
  lemma {:induction false} SplitRunsWordPrefix(w: string, rest: string)
    requires SpaceFree(w)
    ensures SplitRuns(w + rest) ==
            [w + SplitRuns(rest)[0]] + SplitRuns(rest)[1..]
    decreases |w|
  {
    if |w| == 0 {
      var r := SplitRuns(rest);
      assert w + rest == rest;
      assert w + r[0] == r[0];
      assert [r[0]] + r[1..] == r;
    } else {
      assert (w + rest)[0] == w[0] && (w + rest)[1..] == w[1..] + rest;
      SplitRunsWordPrefix(w[1..], rest);
      assert [w[0]] + (w[1..] + SplitRuns(rest)[0]) == w + SplitRuns(rest)[0];
    }
  }

  /** Joining words with single spaces starts and ends with a word character. */
  lemma {:induction false} JoinWordsTrimmed(ts: seq<string>)
    requires |ts| > 0 && Words(ts)
    ensures Join(ts, " ") != ""
    ensures !IsSpace(Join(ts, " ")[0]) && !IsSpace(Join(ts, " ")[|Join(ts, " ")| - 1])
  {
    if |ts| > 1 {
      JoinWordsTrimmed(ts[1..]);
      var j := Join(ts[1..], " ");
      assert Join(ts, " ") == ts[0] + " " + j;
      assert (ts[0] + " " + j)[0] == ts[0][0];
      assert (ts[0] + " " + j)[|ts[0] + " " + j| - 1] == j[|j| - 1];
    }
  }

  /** A single space in front of a string that does not start with white
      space adds one empty piece in front of its split. */
  lemma SplitAfterSpace(j: string)
    requires j == "" || !IsSpace(j[0])
    ensures SplitRuns(" " + j) == [""] + SplitRuns(j)
  {
    var t := " " + j;
    assert IsSpace(t[0]) && t[1..] == j;
    assert TrimStart(j) == j;
  }

  /** A word, a space, and a string whose split is known: the word comes
      first, then the pieces of the string. */
  lemma SplitWordSpace(w: string, j: string)
    requires SpaceFree(w)
    requires j == "" || !IsSpace(j[0])
    ensures SplitRuns(w + (" " + j)) == [w] + SplitRuns(j)
  {
    var t, r := " " + j, SplitRuns(j);
    SplitAfterSpace(j);
    assert SplitRuns(t)[0] == "" && SplitRuns(t)[1..] == r;
    SplitRunsWordPrefix(w, t);
    assert w + "" == w;
  }

  /** Round trip: words joined by single spaces split back into the same
      words. */
  lemma {:induction false} SplitJoin(ts: seq<string>)
    requires |ts| > 0 && Words(ts)
    ensures SplitRuns(Join(ts, " ")) == ts
  {
    if |ts| == 1 {
      SplitRunsSingle(ts[0]);
    } else {
      var rest := ts[1..];
      var j := Join(rest, " ");
      SplitJoin(rest);
      JoinWordsTrimmed(rest);
      SplitWordSpace(ts[0], j);
      assert Join(ts, " ") == ts[0] + (" " + j);
      assert [ts[0]] + rest == ts;
    }
  }

  /** Joining after appending one more word adds it after one space. */
  lemma {:induction false} JoinSnoc(ts: seq<string>, t: string)
    requires |ts| > 0
    ensures Join(ts + [t], " ") == Join(ts, " ") + " " + t
  {
    if |ts| > 1 {
      assert (ts + [t])[1..] == ts[1..] + [t];
      JoinSnoc(ts[1..], t);
    }
  }

  // ---------------------------------------------------------------------
  // splitEnglishName

  /** A single token: it is the given name, and there is no surname. */
  lemma SplitOneToken(fullName: string)
    requires |SplitRuns(Trim(fullName))| == 1
    ensures SplitEnglishName(fullName) == SplitName(Trim(fullName), "")
  {
    SplitRunsSingle(Trim(fullName));
  }

  /** Several tokens: the surname is the last, a word; the given name is
      not empty; and the two re-join all tokens. */
  lemma SplitManyTokens(fullName: string)
    requires |SplitRuns(Trim(fullName))| > 1
    ensures var parts := SplitRuns(Trim(fullName));
            var n := SplitEnglishName(fullName);
            && n.lastName == parts[|parts| - 1]
            && n.lastName != "" && SpaceFree(n.lastName)
            && n.firstName != ""
            && n.firstName + " " + n.lastName == Join(parts, " ")
  {
    var t := Trim(fullName);
    var parts := SplitRuns(t);
    assert t != "";
    SplitTrimmedWords(t);
    var front, last := parts[..|parts| - 1], parts[|parts| - 1];
    assert Words(front) by {
      forall k | 0 <= k < |front| ensures front[k] != "" && SpaceFree(front[k]) {
        assert front[k] == parts[k];
      }
    }
    JoinWordsTrimmed(front);
    JoinSnoc(front, last);
    assert front + [last] == parts;
  }

  /** What `splitEnglishName` promises. With the tokens being the split of
      the trimmed input: one token gives no surname and that token as the
      given name; otherwise the surname is the last token, a word, and the
      given name and surname re-join all tokens. The given name is empty
      exactly when the input is blank. */
  lemma SplitEnglishNameSpec(fullName: string)
    ensures var parts := SplitRuns(Trim(fullName));
            var n := SplitEnglishName(fullName);
            && (|parts| == 1 ==> n.lastName == "" && n.firstName == Trim(fullName))
            && (|parts| > 1 ==>
                  && n.lastName == parts[|parts| - 1]
                  && n.lastName != "" && SpaceFree(n.lastName)
                  && n.firstName + " " + n.lastName == Join(parts, " "))
            && (n.firstName == "" <==> AllSpace(fullName))
  {
    var t := Trim(fullName);
    BlankTrim(fullName);
    if |SplitRuns(t)| == 1 {
      SplitOneToken(fullName);
    } else {
      SplitManyTokens(fullName);
      assert t != "";
    }
  }

  /** Trimming leaves nothing exactly when the input is all white space. */
  lemma BlankTrim(s: string)
    ensures Trim(s) == "" <==> AllSpace(s)
  {
    var a := TrimStart(s);
    var b := TrimEnd(a);
    if b == "" {
      assert a == a[|b|..];
      assert s == s[..|s| - |a|] + a;
    } else {
      assert !IsSpace(b[0]) && b[0] == a[0] == s[|s| - |a|];
    }
  }

  /** A name written as words separated by single spaces is split back into
      those words: the last is the surname and the others form the given
      name. */
  lemma SplitEnglishNameOfWords(ts: seq<string>)
    requires |ts| > 1 && Words(ts)
    ensures SplitEnglishName(Join(ts, " ")) ==
            SplitName(Join(ts[..|ts| - 1], " "), ts[|ts| - 1])
  {
    var s := Join(ts, " ");
    JoinWordsTrimmed(ts);
    assert TrimStart(s) == s;
    assert TrimEnd(s) == s;
    SplitJoin(ts);
  }
}
