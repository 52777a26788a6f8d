/** `generateChineseNameFromEnglish` and the loop that calls it three times:
    look up glyph lists by the initials of the given name and the surname
    (falling back to a default letter), draw one glyph from each list and a
    second character, and put them together surname first. */
module NameSynthesis {
  import opened NameModel
  import NameSplitting

  /** The phonetic tables: glyph lists keyed by a lower-case initial for the
      given name and for the surname, and the list of second characters. */
  datatype Tables = Tables(
    firstNameInitials: map<char, seq<Glyph>>,
    lastNameInitials: map<char, seq<Glyph>>,
    secondChars: seq<Glyph>)

  /** The letter whose list is used for a given name with no entry. */
  const FirstDefault: char := 'w'
  /** The letter whose list is used for a surname with no entry. */
  const LastDefault: char := 'l'

  /** What the server needs of its tables: both default letters have an
      entry, and every list it may draw from is non-empty. */
  predicate ValidTables(t: Tables) {
    && FirstDefault in t.firstNameInitials
    && LastDefault in t.lastNameInitials
    && |t.secondChars| > 0
    && (forall c :: c in t.firstNameInitials ==> |t.firstNameInitials[c]| > 0)
    && (forall c :: c in t.lastNameInitials ==> |t.lastNameInitials[c]| > 0)
  }

  /** Every glyph in the tables has a pinyin that is one word. */
  predicate PinyinWords(t: Tables) {
    && (forall c, k :: c in t.firstNameInitials && 0 <= k < |t.firstNameInitials[c]| ==>
          GlyphPinyinWord(t.firstNameInitials[c][k]))
    && (forall c, k :: c in t.lastNameInitials && 0 <= k < |t.lastNameInitials[c]| ==>
          GlyphPinyinWord(t.lastNameInitials[c][k]))
    && (forall k :: 0 <= k < |t.secondChars| ==> GlyphPinyinWord(t.secondChars[k]))
  }

  predicate GlyphPinyinWord(g: Glyph) {
    g.pinyin != "" && NameSplitting.SpaceFree(g.pinyin)
  }

  /** Every glyph in the tables is a single character. */
  predicate SingleCharacters(t: Tables) {
    && (forall c, k :: c in t.firstNameInitials && 0 <= k < |t.firstNameInitials[c]| ==>
          |t.firstNameInitials[c][k].symbol| == 1)
    && (forall c, k :: c in t.lastNameInitials && 0 <= k < |t.lastNameInitials[c]| ==>
          |t.lastNameInitials[c][k].symbol| == 1)
    && (forall k :: 0 <= k < |t.secondChars| ==> |t.secondChars[k].symbol| == 1)
  }

  /** `name.charAt(0).toLowerCase()`, with the empty string giving no key. */
  function Initial(name: string): Option<char> {
    if name == "" then None else Some(ToLower(name[0]))
  }

  /** `table[key] || table[default]`. */
  function Lookup(table: map<char, seq<Glyph>>, key: Option<char>, default: char): seq<Glyph>
    requires default in table
  {
    if key.Some? && key.value in table then table[key.value] else table[default]
  }

  /** The list the given-name glyph is drawn from. */
  function FirstNameChars(t: Tables, firstName: string): (gs: seq<Glyph>)
    requires ValidTables(t)
    ensures |gs| > 0
  {
    Lookup(t.firstNameInitials, Initial(firstName), FirstDefault)
  }

  /** The list the surname glyph is drawn from: none without a surname. */
  function LastNameChars(t: Tables, lastName: string): (gs: seq<Glyph>)
    requires ValidTables(t)
    ensures gs == [] <==> lastName == ""
  {
    if lastName == "" then [] else Lookup(t.lastNameInitials, Initial(lastName), LastDefault)
  }

  /** The three `Math.random()` values one call consumes: for the given-name
      glyph, the second character and the surname glyph. */
  datatype Draws = Draws(first: real, second: real, last: real)

  predicate ValidDraws(d: Draws) {
    IsDraw(d.first) && IsDraw(d.second) && IsDraw(d.last)
  }

  /** The glyph symbols, concatenated in order. */
  function Symbols(gs: seq<Glyph>): string {
    if gs == [] then "" else gs[0].symbol + Symbols(gs[1..])
  }

  function Pinyins(gs: seq<Glyph>): (ps: seq<string>)
    ensures |ps| == |gs|
    ensures forall i :: 0 <= i < |gs| ==> ps[i] == gs[i].pinyin
  {
    seq(|gs|, i requires 0 <= i < |gs| => gs[i].pinyin)
  }

  /** `generateChineseNameFromEnglish`. The glyphs used are recorded in the
      rationale: two (given name, second character) without a surname, three
      (surname first) with one, each from the list its position draws from.
      The Chinese name is their symbols in that order, and the pinyin their
      pinyin in the same order joined by single spaces. */
  function GenerateChineseName(t: Tables, firstName: string, lastName: string, d: Draws): (n: Name)
    requires ValidTables(t) && ValidDraws(d)
    ensures n.rationale.Composed?
    ensures var gs := n.rationale.glyphs;
            && |gs| == (if lastName == "" then 2 else 3)
            && (lastName != "" ==> gs[0] in LastNameChars(t, lastName))
            && gs[|gs| - 2] in FirstNameChars(t, firstName)
            && gs[|gs| - 1] in t.secondChars
            && n.chinese == Symbols(gs)
            && n.pinyin == NameSplitting.Join(Pinyins(gs), " ")
  {
    var firstChars := FirstNameChars(t, firstName);
    var lastChars := LastNameChars(t, lastName);
    var f := firstChars[RandomIndex(d.first, |firstChars|)];
    var s := t.secondChars[RandomIndex(d.second, |t.secondChars|)];
    if lastName != "" && |lastChars| > 0 then
      var l := lastChars[RandomIndex(d.last, |lastChars|)];
      assert [l, f, s][1..] == [f, s] && [f, s][1..] == [s] && [s][1..] == [];
      assert Symbols([s]) == s.symbol;
      assert Symbols([f, s]) == f.symbol + s.symbol;
      assert Symbols([l, f, s]) == l.symbol + f.symbol + s.symbol;
      assert Pinyins([l, f, s]) == [l.pinyin, f.pinyin, s.pinyin];
      assert [l.pinyin, f.pinyin, s.pinyin][1..] == [f.pinyin, s.pinyin];
      assert [f.pinyin, s.pinyin][1..] == [s.pinyin];
      assert NameSplitting.Join([f.pinyin, s.pinyin], " ") == f.pinyin + " " + s.pinyin;
      assert NameSplitting.Join([l.pinyin, f.pinyin, s.pinyin], " ") ==
             l.pinyin + " " + (f.pinyin + " " + s.pinyin);
      Name(l.symbol + f.symbol + s.symbol,
           l.pinyin + " " + f.pinyin + " " + s.pinyin,
           Composed([l, f, s], firstName, lastName))
    else
      assert [f, s][1..] == [s] && [s][1..] == [];
      assert Symbols([f, s]) == f.symbol + (s.symbol + "");
      assert Pinyins([f, s]) == [f.pinyin, s.pinyin];
      Name(f.symbol + s.symbol,
           f.pinyin + " " + s.pinyin,
           Composed([f, s], firstName, lastName))
  }

  /** The loop building `customNames`: three synthesized names, one per
      set of draws. */
  method CustomNames(t: Tables, firstName: string, lastName: string, draws: seq<Draws>)
    returns (names: seq<Name>)
    requires ValidTables(t)
    requires |draws| == 3 && forall k :: 0 <= k < 3 ==> ValidDraws(draws[k])
    ensures |names| == 3
    ensures forall k :: 0 <= k < 3 ==>
              names[k] == GenerateChineseName(t, firstName, lastName, draws[k])
  {
    names := [];
    var i := 0;
    while i < 3
      invariant 0 <= i <= 3 && |names| == i
      invariant forall k :: 0 <= k < i ==>
                  names[k] == GenerateChineseName(t, firstName, lastName, draws[k])
    {
      names := names + [GenerateChineseName(t, firstName, lastName, draws[i])];
      i := i + 1;
    }
  }

  // ---------------------------------------------------------------------
  // Properties

  /** Table lookup: an initial with an entry selects that entry, a missing or
      absent initial selects the default letter's list ('w' for the given
      name, 'l' for the surname), and the choice depends only on the initial
      up to ASCII case. */
  lemma LookupByInitial(t: Tables, firstName: string, lastName: string, other: string)
    requires ValidTables(t)
    ensures var i := Initial(firstName);
            (i.None? || i.value !in t.firstNameInitials) ==>
              FirstNameChars(t, firstName) == t.firstNameInitials['w']
    ensures var i := Initial(firstName);
            (i.Some? && i.value in t.firstNameInitials) ==>
              FirstNameChars(t, firstName) == t.firstNameInitials[i.value]
    ensures var i := Initial(lastName);
            (lastName != "" && i.value !in t.lastNameInitials) ==>
              LastNameChars(t, lastName) == t.lastNameInitials['l']
    ensures var i := Initial(lastName);
            (lastName != "" && i.value in t.lastNameInitials) ==>
              LastNameChars(t, lastName) == t.lastNameInitials[i.value]
    ensures firstName != "" && other != "" && ToLower(firstName[0]) == ToLower(other[0]) ==>
              FirstNameChars(t, firstName) == FirstNameChars(t, other)
  {
  }

  /** The shape of a synthesized name: with single-character glyphs, a name
      without a surname has two characters and a name with one has three. */
  lemma GeneratedLength(t: Tables, firstName: string, lastName: string, d: Draws)
    requires ValidTables(t) && ValidDraws(d) && SingleCharacters(t)
    ensures |GenerateChineseName(t, firstName, lastName, d).chinese| ==
            (if lastName == "" then 2 else 3)
  {
    var n := GenerateChineseName(t, firstName, lastName, d);
    var gs := n.rationale.glyphs;
    var f := gs[|gs| - 2];
    var i :| 0 <= i < |FirstNameChars(t, firstName)| && FirstNameChars(t, firstName)[i] == f;
    var key := Initial(firstName);
    if key.Some? && key.value in t.firstNameInitials {
      assert f == t.firstNameInitials[key.value][i];
    } else {
      assert f == t.firstNameInitials[FirstDefault][i];
    }
    assert |f.symbol| == 1;
    var s := gs[|gs| - 1];
    var j :| 0 <= j < |t.secondChars| && t.secondChars[j] == s;
    assert |s.symbol| == 1;
    if lastName != "" {
      var l := gs[0];
      var m :| 0 <= m < |LastNameChars(t, lastName)| && LastNameChars(t, lastName)[m] == l;
      var lk := Initial(lastName);
      if lk.value in t.lastNameInitials {
        assert l == t.lastNameInitials[lk.value][m];
      } else {
        assert l == t.lastNameInitials[LastDefault][m];
      }
      assert |l.symbol| == 1;
      assert gs == [l, f, s];
      assert Symbols(gs) == l.symbol + (f.symbol + (s.symbol + ""));
    } else {
      assert gs == [f, s];
      assert Symbols(gs) == f.symbol + (s.symbol + "");
    }
  }

  /** Round trip on the pinyin: when every table pinyin is one word, splitting
      a synthesized pinyin on white space gives back the glyphs' pinyin in
      order (surname, given name, second character). */
  lemma PinyinSplitsIntoGlyphs(t: Tables, firstName: string, lastName: string, d: Draws)
    requires ValidTables(t) && ValidDraws(d) && PinyinWords(t)
    ensures var n := GenerateChineseName(t, firstName, lastName, d);
            NameSplitting.SplitRuns(n.pinyin) == Pinyins(n.rationale.glyphs)
  {
    var n := GenerateChineseName(t, firstName, lastName, d);
    var gs := n.rationale.glyphs;
    forall k | 0 <= k < |gs|
      ensures GlyphPinyinWord(gs[k])
    {
      if k == |gs| - 1 {
        var j :| 0 <= j < |t.secondChars| && t.secondChars[j] == gs[k];
      } else if k == |gs| - 2 {
        var fc := FirstNameChars(t, firstName);
        var i :| 0 <= i < |fc| && fc[i] == gs[k];
        var key := Initial(firstName);
        if key.Some? && key.value in t.firstNameInitials {
          assert gs[k] == t.firstNameInitials[key.value][i];
        } else {
          assert gs[k] == t.firstNameInitials[FirstDefault][i];
        }
      } else {
        var lc := LastNameChars(t, lastName);
        var m :| 0 <= m < |lc| && lc[m] == gs[k];
        var lk := Initial(lastName);
        if lk.value in t.lastNameInitials {
          assert gs[k] == t.lastNameInitials[lk.value][m];
        } else {
          assert gs[k] == t.lastNameInitials[LastDefault][m];
        }
      }
    }
    NameSplitting.SplitJoin(Pinyins(gs));
  }
}
