/** The `/generate-name` handler as one step over the served-names history:
    validate the English name, synthesize three names from it, build and
    shuffle the database pool, select three database names (recording them
    in the history), and answer with the first three of the synthesized
    names followed by the selected ones. */
module GenerateNameRoute {
  import opened NameModel
  import opened NameSplitting
  import opened NameSynthesis
  import opened NameDatabase
  import opened SeededShuffle
  import opened NameSelection

  /** The two answers the handler gives: status 400 with an error text, or
      the list of names. */
  datatype Response = BadRequest(error: string) | Names(names: seq<Name>)

  const MissingName: string := "English name is required"

  /** `[...customNames, ...selectedNames].slice(0, 3)`: the first three of
      the synthesized names followed by the selected ones. */
  function FinalNames(custom: seq<Name>, selected: seq<Name>): (r: seq<Name>)
    ensures |r| == Min(3, |custom| + |selected|)
    ensures forall k :: 0 <= k < |r| ==>
              r[k] == (if k < |custom| then custom[k] else selected[k - |custom|])
  {
    var combined := custom + selected;
    combined[..Min(3, |combined|)]
  }

  /** With three synthesized names the database selection never reaches the
      answer: the answer is exactly the synthesized names. */
  lemma FinalNamesAreCustom(custom: seq<Name>, selected: seq<Name>)
    requires |custom| == 3
    ensures FinalNames(custom, selected) == custom
  {
    var r := FinalNames(custom, selected);
    assert |r| == 3;
    forall k | 0 <= k < 3
      ensures r[k] == custom[k]
    {
    }
  }

  /** Tables that offer the one glyph `g` in every list. */
  function OneGlyphTables(g: Glyph): (t: Tables)
    ensures ValidTables(t)
  {
    Tables(map[FirstDefault := [g]], map[LastDefault := [g]], [g])
  }

  /** With one glyph per list, the draws make no difference. */
  lemma OneGlyphDrawsAgree(g: Glyph, firstName: string, lastName: string, d1: Draws, d2: Draws)
    requires ValidDraws(d1) && ValidDraws(d2)
    ensures GenerateChineseName(OneGlyphTables(g), firstName, lastName, d1) ==
            GenerateChineseName(OneGlyphTables(g), firstName, lastName, d2)
  {
    var t := OneGlyphTables(g);
    assert FirstNameChars(t, firstName) == [g];
    assert lastName != "" ==> LastNameChars(t, lastName) == [g];
  }

  /** Nothing makes the three answer names distinct: they are drawn
      independently, and the history and the no-repeat filter apply only to
      the database names, which never reach the answer. With tables that
      offer one glyph per list, an answer holds one name three times. */
  lemma AnswerMayRepeat(g: Glyph, firstName: string, lastName: string, d0: Draws, d1: Draws, d2: Draws)
    requires ValidDraws(d0) && ValidDraws(d1) && ValidDraws(d2)
    ensures var t := OneGlyphTables(g);
            var answer := FinalNames([GenerateChineseName(t, firstName, lastName, d0),
                                      GenerateChineseName(t, firstName, lastName, d1),
                                      GenerateChineseName(t, firstName, lastName, d2)], []);
            |answer| == 3 && answer[0] == answer[1] == answer[2]
  {
    OneGlyphDrawsAgree(g, firstName, lastName, d0, d1);
    OneGlyphDrawsAgree(g, firstName, lastName, d1, d2);
  }

  /** The pool the selection works on: the matching buckets' names and the
      additional names, shuffled with the seed of the English name and the
      clock. */
  function ShuffledPool(db: seq<Bucket>, additional: seq<Name>, englishName: string, now: int): seq<Name>
    requires |db| > 0 && now >= 0
  {
    Shuffled(AvailableNames(db, additional, englishName), WeightedCodeSum(englishName) + now)
  }

  /** The statements that build the pool: collect the matching buckets'
      names and the additional names, then shuffle them with the seed made
      from the English name and the clock. The pool is a permutation of the
      collected names. */
  method BuildPool(db: seq<Bucket>, additional: seq<Name>, englishName: string, now: int)
    returns (pool: seq<Name>)
    requires |db| > 0 && now >= 0
    ensures pool == ShuffledPool(db, additional, englishName, now)
    ensures multiset(pool) == multiset(AvailableNames(db, additional, englishName))
  {
    var availableNames := CollectAvailableNames(db, additional, englishName);
    var seed := CreateSeed(englishName, now);
    pool := ShuffleArray(availableNames, seed);
  }

  /** What the request leaves in the history entry of its English name: the
      kept earlier entry (empty after a reset) followed by three names, or
      as many as there are, picked from the unserved names of the pool, or
      from the whole pool after a reset. */
  ghost predicate Recorded(previous: seq<Name>, pool: seq<Name>, entry: seq<Name>) {
    var kept := Kept(pool, previous);
    && |kept| <= |entry|
    && entry[..|kept|] == kept
    && PickedFrom(NamesToUse(pool, previous), entry[|kept|..])
  }

  /** How one request changes the history: the entry of its English name is
      as `Recorded` describes, every other entry is unchanged. */
  ghost predicate Updated(before: map<string, seq<Name>>, after: map<string, seq<Name>>,
                          englishName: string, pool: seq<Name>) {
    && englishName in after
    && Recorded(PreviousIn(before, englishName), pool, after[englishName])
    && (forall other :: other != englishName ==> (other in after <==> other in before))
    && (forall other :: other != englishName && other in after ==> after[other] == before[other])
  }

  /** The entry `SelectNames` leaves is recorded as `Recorded` describes. */
  lemma RecordedAfterSelect(previous: seq<Name>, pool: seq<Name>, selected: seq<Name>)
    requires PickedFrom(NamesToUse(pool, previous), selected)
    ensures Recorded(previous, pool, Kept(pool, previous) + selected)
  {
    var kept := Kept(pool, previous);
    assert (kept + selected)[..|kept|] == kept;
    assert (kept + selected)[|kept|..] == selected;
  }

  /** The history `SelectNames` leaves is updated as `Updated` describes. */
  lemma UpdatedAfterSelect(before: map<string, seq<Name>>, after: map<string, seq<Name>>,
                           englishName: string, pool: seq<Name>, selected: seq<Name>)
    requires var previous := PreviousIn(before, englishName);
             && PickedFrom(NamesToUse(pool, previous), selected)
             && after == before[englishName := Kept(pool, previous) + selected]
    ensures Updated(before, after, englishName, pool)
  {
    RecordedAfterSelect(PreviousIn(before, englishName), pool, selected);
  }

  /** The handler (server.js). A missing or empty English name is answered
      with status 400 and leaves the history alone. Otherwise the answer is
      the three names synthesized from the split English name, one per set
      of draws; the history entry of the English name records the database
      picks after the kept history, and every other entry is unchanged.
      `now` stands for `Date.now()`, and the draws for the `Math.random()`
      values the handler consumes, in order. */
  method GenerateName(history: NameHistory, tables: Tables, db: seq<Bucket>, additional: seq<Name>,
                      englishName: Option<string>, now: int, customDraws: seq<Draws>,
                      lengthDraws: seq<real>, fillDraws: seq<real>)
    returns (response: Response)
    requires ValidTables(tables) && |db| > 0 && now >= 0
    requires |customDraws| == 3 && forall k :: 0 <= k < 3 ==> ValidDraws(customDraws[k])
    requires |lengthDraws| == 3 && AllDraws(lengthDraws)
    requires |fillDraws| == 3 && AllDraws(fillDraws)
    modifies history
    ensures (englishName.None? || englishName.value == "") ==>
              response == BadRequest(MissingName) && history.generated == old(history.generated)
    ensures englishName.Some? && englishName.value != "" ==>
              var e := englishName.value;
              var split := SplitEnglishName(e);
              && response.Names?
              && |response.names| == 3
              && (forall k :: 0 <= k < 3 ==>
                    response.names[k] == GenerateChineseName(tables, split.firstName, split.lastName, customDraws[k]))
              && Updated(old(history.generated), history.generated, e, ShuffledPool(db, additional, e, now))
  {
    if englishName.None? || englishName.value == "" {
      return BadRequest(MissingName);
    }
    var e := englishName.value;
    var split := SplitEnglishName(e);
    var customNames := CustomNames(tables, split.firstName, split.lastName, customDraws);
    var availableNames := BuildPool(db, additional, e, now);
    ghost var before := history.generated;
    var selectedNames := history.SelectNames(e, availableNames, lengthDraws, fillDraws);
    UpdatedAfterSelect(before, history.generated, e, availableNames, selectedNames);
    var finalNames := FinalNames(customNames, selectedNames);
    FinalNamesAreCustom(customNames, selectedNames);
    response := Names(finalNames);
  }
}
