/** The selection stage of the `/generate-name` handler: drop the names
    already served for this English name (unless too few would remain), pick
    one name of each length 2, 3 and 4 where there is one, fill up to three
    names without replacement, and record the picks in the per-name history. */
module NameSelection {
  import opened NameModel

  /** `namesToUse.filter(name => name.chinese.length === len)`, with
      `length` counted in UTF-16 code units. */
  function ByLength(s: seq<Name>, len: nat): (r: seq<Name>)
    ensures |r| <= |s|
    ensures forall x :: x in r <==> x in s && JsLength(x.chinese) == len
  {
    if s == [] then []
    else (if JsLength(s[0].chinese) == len then [s[0]] else []) + ByLength(s[1..], len)
  }

  /** The lengths among 2, 3, ..., t + 1 that some name in s has, ascending:
      the lengths the diversity step draws from after t of its rounds. */
  function LengthsPresent(s: seq<Name>, t: nat): (r: seq<nat>)
    requires t <= 3
    ensures |r| <= t
  {
    if t == 0 then []
    else LengthsPresent(s, t - 1) + (if |ByLength(s, t + 1)| > 0 then [t + 1] else [])
  }

  /** `names.findIndex(name => name.chinese === key)`: the first index whose
      Chinese name is `key`, or -1 when there is none. */
  function FindByChinese(s: seq<Name>, key: string): (k: int)
    ensures -1 <= k < |s|
    ensures k == -1 <==> key !in Chinese(s)
    ensures k >= 0 ==> s[k].chinese == key && forall i :: 0 <= i < k ==> s[i].chinese != key
  {
    if s == [] then -1
    else if s[0].chinese == key then 0
    else
      var k := FindByChinese(s[1..], key);
      assert Chinese(s) == [s[0].chinese] + Chinese(s[1..]);
      if k == -1 then -1 else k + 1
  }

  /** `names.splice(k, 1)`. */
  function RemoveAt(s: seq<Name>, k: nat): seq<Name>
    requires k < |s|
  {
    s[..k] + s[k + 1..]
  }

  /** `available.filter(name => !previous.some(p => p.chinese === name.chinese))`:
      the names whose Chinese name was not served before, in order. */
  function Unserved(available: seq<Name>, previous: seq<Name>): (r: seq<Name>)
    ensures |r| <= |available|
    ensures forall x :: x in r <==> x in available && x.chinese !in Chinese(previous)
    ensures multiset(Chinese(r)) <= multiset(Chinese(available))
  {
    if available == [] then []
    else
      var rest := Unserved(available[1..], previous);
      assert Chinese(available) == [available[0].chinese] + Chinese(available[1..]);
      if available[0].chinese !in Chinese(previous) then
        assert Chinese([available[0]] + rest) == [available[0].chinese] + Chinese(rest);
        [available[0]] + rest
      else rest
  }

  /** The history is reset when fewer than three names were not served
      before. */
  predicate Reset(available: seq<Name>, previous: seq<Name>) {
    |Unserved(available, previous)| < 3
  }

  /** `namesToUse`: the unserved names, or all of them after a reset. */
  function NamesToUse(available: seq<Name>, previous: seq<Name>): seq<Name> {
    if Reset(available, previous) then available else Unserved(available, previous)
  }

  /** The part of the history entry a request keeps: none after a reset. */
  function Kept(available: seq<Name>, previous: seq<Name>): seq<Name> {
    if Reset(available, previous) then [] else previous
  }

  /** What the selection loops guarantee of `selected`, drawn from
      `namesToUse`: as many names as there are, up to three; every one taken
      from `namesToUse`, without replacement (no Chinese name taken more often
      than it occurs); and the first picks have, in order, each length among
      2, 3 and 4 that occurs in `namesToUse`. */
  predicate PickedFrom(namesToUse: seq<Name>, selected: seq<Name>) {
    && |selected| == Min(3, |namesToUse|)
    && (forall k :: 0 <= k < |selected| ==> selected[k] in namesToUse)
    && multiset(Chinese(selected)) <= multiset(Chinese(namesToUse))
    && var lengths := LengthsPresent(namesToUse, 3);
       && |lengths| <= |selected|
       && forall k :: 0 <= k < |lengths| ==> JsLength(selected[k].chinese) == lengths[k]
  }

  /** Removing one entry: every other entry stays, nothing new appears, and
      its Chinese name leaves the multiset once. */
  lemma RemoveAtFacts(s: seq<Name>, k: nat)
    requires k < |s|
    ensures |RemoveAt(s, k)| == |s| - 1
    ensures multiset(RemoveAt(s, k)) + multiset{s[k]} == multiset(s)
    ensures multiset(Chinese(RemoveAt(s, k))) + multiset{s[k].chinese} == multiset(Chinese(s))
  {
    var front, back := s[..k], s[k + 1..];
    assert s == front + [s[k]] + back;
    ChineseAppend(front + [s[k]], back);
    ChineseAppend(front, [s[k]]);
    ChineseAppend(front, back);
    assert Chinese([s[k]]) == [s[k].chinese];
  }

  lemma RemoveAtMembers(s: seq<Name>, k: nat)
    requires k < |s|
    ensures forall x :: x in RemoveAt(s, k) ==> x in s
    ensures forall x :: x in s && x != s[k] ==> x in RemoveAt(s, k)
  {
    forall x | x in s && x != s[k]
      ensures x in RemoveAt(s, k)
    {
      var i :| 0 <= i < |s| && s[i] == x;
      if i < k {
        assert RemoveAt(s, k)[i] == x;
      } else {
        assert RemoveAt(s, k)[i - 1] == x;
      }
    }
  }

  lemma ChineseSnoc(s: seq<Name>, x: Name)
    ensures Chinese(s + [x]) == Chinese(s) + [x.chinese]
  {
    ChineseAppend(s, [x]);
    assert Chinese([x]) == [x.chinese];
  }

  /** What the diversity loop keeps: the picks plus the pool hold each
      Chinese name of the names to use as often as they do, and the pool is
      part of the names to use. */
  predicate PoolSplit(namesToUse: seq<Name>, selected: seq<Name>, pool: seq<Name>) {
    && |selected| + |pool| == |namesToUse|
    && multiset(pool) <= multiset(namesToUse)
    && multiset(Chinese(selected)) + multiset(Chinese(pool)) == multiset(Chinese(namesToUse))
  }

  /** One round of the diversity loop: a pick taken from the names to use
      whose Chinese name differs from every earlier pick's is still in the
      pool by its Chinese name, so `findIndex` finds it, and removing that
      entry keeps the split. */
  lemma DiversityStep(namesToUse: seq<Name>, selected: seq<Name>, pool: seq<Name>, pick: Name)
    requires PoolSplit(namesToUse, selected, pool)
    requires pick in namesToUse
    requires forall k :: 0 <= k < |selected| ==> selected[k].chinese != pick.chinese
    ensures FindByChinese(pool, pick.chinese) != -1
    ensures PoolSplit(namesToUse, selected + [pick], RemoveAt(pool, FindByChinese(pool, pick.chinese)))
  {
    var c := pick.chinese;
    PickStillPooled(namesToUse, selected, pool, pick);
    var k := FindByChinese(pool, c);
    var rest := RemoveAt(pool, k);
    RemoveAtFacts(pool, k);
    ChineseSnoc(selected, pick);
    MoveOne(multiset(Chinese(selected)), multiset(Chinese(pool)), multiset(Chinese(namesToUse)),
            multiset(Chinese(selected + [pick])), multiset(Chinese(rest)), c);
  }

  /** A pick from the names to use whose Chinese name no earlier pick has is
      in the pool by its Chinese name. */
  lemma PickStillPooled(namesToUse: seq<Name>, selected: seq<Name>, pool: seq<Name>, pick: Name)
    requires multiset(Chinese(selected)) + multiset(Chinese(pool)) == multiset(Chinese(namesToUse))
    requires pick in namesToUse
    requires forall k :: 0 <= k < |selected| ==> selected[k].chinese != pick.chinese
    ensures FindByChinese(pool, pick.chinese) != -1
  {
    var j :| 0 <= j < |namesToUse| && namesToUse[j] == pick;
    assert Chinese(namesToUse)[j] == pick.chinese;
    assert multiset(Chinese(namesToUse))[pick.chinese] > 0;
    assert pick.chinese !in Chinese(selected);
    assert multiset(Chinese(selected))[pick.chinese] == 0;
    assert multiset(Chinese(pool))[pick.chinese] > 0;
  }

  /** The picks after the rounds for lengths 2 to t + 1: one per length
      that occurs, in order, each taken from the names to use. */
  predicate PicksSoFar(namesToUse: seq<Name>, selected: seq<Name>, t: nat)
    requires t <= 3
  {
    && |selected| == |LengthsPresent(namesToUse, t)|
    && (forall k :: 0 <= k < |selected| ==> JsLength(selected[k].chinese) == LengthsPresent(namesToUse, t)[k])
    && (forall k :: 0 <= k < |selected| ==> selected[k] in namesToUse)
  }

  /** A round that finds names of its length appends one of them. */
  lemma PicksStep(namesToUse: seq<Name>, selected: seq<Name>, t: nat, pick: Name)
    requires t < 3 && PicksSoFar(namesToUse, selected, t)
    requires pick in ByLength(namesToUse, t + 2)
    ensures forall k :: 0 <= k < |selected| ==> selected[k].chinese != pick.chinese
    ensures PicksSoFar(namesToUse, selected + [pick], t + 1)
  {
    LengthsPresentOrdered(namesToUse, t);
    assert LengthsPresent(namesToUse, t + 1) == LengthsPresent(namesToUse, t) + [t + 2];
  }

  /** One round of the diversity loop that finds names of its length: the
      pick extends the picks, and its Chinese name is found in the pool
      and removed from it. */
  lemma RoundStep(namesToUse: seq<Name>, selected: seq<Name>, pool: seq<Name>, t: nat, pick: Name)
    requires t < 3 && PicksSoFar(namesToUse, selected, t)
    requires PoolSplit(namesToUse, selected, pool)
    requires pick in ByLength(namesToUse, t + 2)
    ensures PicksSoFar(namesToUse, selected + [pick], t + 1)
    ensures FindByChinese(pool, pick.chinese) != -1
    ensures PoolSplit(namesToUse, selected + [pick], RemoveAt(pool, FindByChinese(pool, pick.chinese)))
  {
    PicksStep(namesToUse, selected, t, pick);
    DiversityStep(namesToUse, selected, pool, pick);
  }

  /** A round that takes no name leaves the picks as they are: either no
      name has its length, or (which the earlier rounds rule out) three
      names are already picked. */
  lemma PicksSkip(namesToUse: seq<Name>, selected: seq<Name>, t: nat)
    requires t < 3 && PicksSoFar(namesToUse, selected, t)
    requires |ByLength(namesToUse, t + 2)| == 0 || |selected| >= 3
    ensures PicksSoFar(namesToUse, selected, t + 1)
  {
    assert |selected| <= t;
    assert LengthsPresent(namesToUse, t + 1) == LengthsPresent(namesToUse, t);
  }

  /** One round of the diversity loop, for the names of length t + 2: when
      there are some and fewer than three names are picked, pick the one
      `draw` selects and remove the first pool entry with its Chinese name.
      The picks keep one name per length that occurs, and picks and pool
      keep splitting the names to use. */
  method PickOfLength(namesToUse: seq<Name>, selected: seq<Name>, pool: seq<Name>, t: nat, draw: real)
    returns (picks: seq<Name>, rest: seq<Name>)
    requires t < 3 && IsDraw(draw)
    requires PicksSoFar(namesToUse, selected, t)
    requires PoolSplit(namesToUse, selected, pool)
    ensures PicksSoFar(namesToUse, picks, t + 1)
    ensures PoolSplit(namesToUse, picks, rest)
  {
    // the source filters by length once, before any entry is removed,
    // so the candidates are those of the names to use as given
    var candidates := ByLength(namesToUse, t + 2);
    picks, rest := selected, pool;
    if |candidates| > 0 && |selected| < 3 {
      var pick := candidates[RandomIndex(draw, |candidates|)];
      RoundStep(namesToUse, selected, pool, t, pick);
      picks := selected + [pick];
      var index := FindByChinese(pool, pick.chinese);
      if index != -1 {
        rest := RemoveAt(pool, index);
      }
    } else {
      PicksSkip(namesToUse, selected, t);
    }
  }

  /** The diversity loop (server.js): for each length 2, 3 and 4 that
      occurs, pick one name of that length and remove the first entry with
      the same Chinese name from the pool. `lengthDraws[t]` is the
      `Math.random()` value of the round for length t + 2. The picks have,
      in order, the lengths that occur, and come from the names to use; the
      pool is the rest: together with the picks it holds each Chinese name
      as often as the names to use do. */
  method PickOnePerLength(namesToUse: seq<Name>, lengthDraws: seq<real>)
    returns (selected: seq<Name>, pool: seq<Name>)
    requires |lengthDraws| == 3 && AllDraws(lengthDraws)
    ensures PicksSoFar(namesToUse, selected, 3)
    ensures PoolSplit(namesToUse, selected, pool)
  {
    pool := namesToUse;
    selected := [];
    var t := 0;
    while t < 3
      invariant 0 <= t <= 3
      invariant PicksSoFar(namesToUse, selected, t)
      invariant PoolSplit(namesToUse, selected, pool)
    {
      selected, pool := PickOfLength(namesToUse, selected, pool, t, lengthDraws[t]);
      t := t + 1;
    }
  }

  /** The multiset step behind both loops: when `a` and `p` together make
      up `m`, moving one copy of `c` from `p` to `a` keeps the total. */
  lemma MoveOne<T>(a: multiset<T>, p: multiset<T>, m: multiset<T>, a2: multiset<T>, p2: multiset<T>, c: T)
    requires a + p == m
    requires a2 == a + multiset{c} && p2 + multiset{c} == p
    ensures a2 + p2 == m
  {
  }

  /** One step of the fill loop keeps its invariant: the pool entry at `i`
      moves to the end of the names added so far. */
  lemma MoveStep(added: seq<Name>, pool: seq<Name>, remaining: seq<Name>, i: nat)
    requires i < |pool|
    requires multiset(added) + multiset(pool) == multiset(remaining)
    requires multiset(Chinese(added)) + multiset(Chinese(pool)) == multiset(Chinese(remaining))
    ensures multiset(added + [pool[i]]) + multiset(RemoveAt(pool, i)) == multiset(remaining)
    ensures multiset(Chinese(added + [pool[i]])) + multiset(Chinese(RemoveAt(pool, i))) ==
            multiset(Chinese(remaining))
  {
    var x, rest := pool[i], RemoveAt(pool, i);
    ChineseSnoc(added, x);
    RemoveAtFacts(pool, i);
    MoveOne(multiset(added), multiset(pool), multiset(remaining),
            multiset(added + [x]), multiset(rest), x);
    MoveOne(multiset(Chinese(added)), multiset(Chinese(pool)), multiset(Chinese(remaining)),
            multiset(Chinese(added + [x])), multiset(Chinese(rest)), x.chinese);
  }

  /** The fill loop (server.js): while fewer than three names are selected
      and the pool is not empty, move a random entry of the pool to the
      selection. `picked` are the names selected before the loop and
      `fillDraws[k]` is the `Math.random()` value of the k-th pick; `added`
      are the names the loop appends after `picked`: as many as the pool
      and the room left allow, taken from the pool without replacement. */
  method FillUpToThree(picked: seq<Name>, remaining: seq<Name>, fillDraws: seq<real>)
    returns (added: seq<Name>)
    requires |picked| <= 3
    requires |fillDraws| == 3 && AllDraws(fillDraws)
    ensures |added| == Min(3 - |picked|, |remaining|)
    ensures multiset(added) <= multiset(remaining)
    ensures multiset(Chinese(added)) <= multiset(Chinese(remaining))
  {
    var pool := remaining;
    added := [];
    while |picked| + |added| < 3 && |pool| > 0
      invariant |picked| + |added| <= 3
      invariant |added| + |pool| == |remaining|
      invariant multiset(added) + multiset(pool) == multiset(remaining)
      invariant multiset(Chinese(added)) + multiset(Chinese(pool)) == multiset(Chinese(remaining))
      decreases |pool|
    {
      var i := RandomIndex(fillDraws[|added|], |pool|);
      MoveStep(added, pool, remaining, i);
      added := added + [pool[i]];
      pool := RemoveAt(pool, i);
    }
  }

  /** Both selection loops, one after the other. */
  method PickNames(namesToUse: seq<Name>, lengthDraws: seq<real>, fillDraws: seq<real>)
    returns (selected: seq<Name>)
    requires |lengthDraws| == 3 && AllDraws(lengthDraws)
    requires |fillDraws| == 3 && AllDraws(fillDraws)
    ensures PickedFrom(namesToUse, selected)
  {
    var picked, pool := PickOnePerLength(namesToUse, lengthDraws);
    var added := FillUpToThree(picked, pool, fillDraws);
    selected := picked + added;
    PickedParts(namesToUse, picked, pool, added);
  }

  /** The facts `PickNames` combines: the diversity picks in front, the
      fill picks after them, drawn from the pool the diversity loop left. */
  lemma PickedParts(namesToUse: seq<Name>, picked: seq<Name>, pool: seq<Name>, added: seq<Name>)
    requires PicksSoFar(namesToUse, picked, 3)
    requires PoolSplit(namesToUse, picked, pool)
    requires |added| == Min(3 - |picked|, |pool|)
    requires multiset(added) <= multiset(pool)
    requires multiset(Chinese(added)) <= multiset(Chinese(pool))
    ensures PickedFrom(namesToUse, picked + added)
  {
    PickedMembers(namesToUse, picked, pool, added);
    PickedChinese(namesToUse, picked, pool, added);
  }

  lemma PickedMembers(namesToUse: seq<Name>, picked: seq<Name>, pool: seq<Name>, added: seq<Name>)
    requires forall k :: 0 <= k < |picked| ==> picked[k] in namesToUse
    requires multiset(pool) <= multiset(namesToUse)
    requires multiset(added) <= multiset(pool)
    ensures forall k :: 0 <= k < |picked + added| ==> (picked + added)[k] in namesToUse
  {
    forall k | 0 <= k < |picked + added|
      ensures (picked + added)[k] in namesToUse
    {
      if k >= |picked| {
        var x := added[k - |picked|];
        assert multiset(added)[x] > 0;
        assert multiset(namesToUse)[x] > 0;
      }
    }
  }

  lemma PickedChinese(namesToUse: seq<Name>, picked: seq<Name>, pool: seq<Name>, added: seq<Name>)
    requires multiset(Chinese(picked)) + multiset(Chinese(pool)) == multiset(Chinese(namesToUse))
    requires multiset(Chinese(added)) <= multiset(Chinese(pool))
    ensures multiset(Chinese(picked + added)) <= multiset(Chinese(namesToUse))
  {
    ChineseAppend(picked, added);
  }

  // ---------------------------------------------------------------------
  // Properties of a selection

  /** The lengths a round sequence collects lie between 2 and t + 1 and
      ascend strictly. */
  lemma {:induction false} LengthsPresentOrdered(s: seq<Name>, t: nat)
    requires t <= 3
    ensures forall i :: 0 <= i < |LengthsPresent(s, t)| ==> 2 <= LengthsPresent(s, t)[i] <= t + 1
    ensures forall i, j :: 0 <= i < j < |LengthsPresent(s, t)| ==>
              LengthsPresent(s, t)[i] < LengthsPresent(s, t)[j]
  {
    if t > 0 {
      LengthsPresentOrdered(s, t - 1);
      var prev := LengthsPresent(s, t - 1);
      assert LengthsPresent(s, t) == prev + (if |ByLength(s, t + 1)| > 0 then [t + 1] else []);
    }
  }

  /** A length is collected exactly when it is between 2 and t + 1 and
      some name has it. */
  lemma {:induction false} LengthsPresentMembers(s: seq<Name>, t: nat, len: nat)
    requires t <= 3
    ensures len in LengthsPresent(s, t) <==> 2 <= len <= t + 1 && |ByLength(s, len)| > 0
  {
    if t > 0 {
      LengthsPresentMembers(s, t - 1, len);
      var prev := LengthsPresent(s, t - 1);
      var present := |ByLength(s, t + 1)| > 0;
      var step := if present then [t + 1] else [];
      assert LengthsPresent(s, t) == prev + step;
      assert len in prev + step <==> len in prev || len in step;
      if len == t + 1 {
        assert len !in prev;
      } else {
        assert len !in step;
      }
    }
  }

  /** Length coverage: every length 2, 3 or 4 that occurs among the names to
      use occurs among the selected names, and the diversity picks have
      pairwise different lengths. */
  lemma SelectionCoversLengths(namesToUse: seq<Name>, selected: seq<Name>, len: nat)
    requires PickedFrom(namesToUse, selected)
    ensures 2 <= len <= 4 && (exists x :: x in namesToUse && JsLength(x.chinese) == len) ==>
              exists y :: y in selected && JsLength(y.chinese) == len
    ensures var d := |LengthsPresent(namesToUse, 3)|;
            forall i, j :: 0 <= i < j < d ==> JsLength(selected[i].chinese) != JsLength(selected[j].chinese)
  {
    var lengths := LengthsPresent(namesToUse, 3);
    LengthsPresentOrdered(namesToUse, 3);
    LengthsPresentMembers(namesToUse, 3, len);
    if 2 <= len <= 4 && exists x :: x in namesToUse && JsLength(x.chinese) == len {
      var x :| x in namesToUse && JsLength(x.chinese) == len;
      assert x in ByLength(namesToUse, len);
      var k :| 0 <= k < |lengths| && lengths[k] == len;
      assert selected[k] in selected;
    }
  }

  lemma {:induction false} DistinctAtMostOnce(s: seq<string>, x: string)
    requires Distinct(s)
    ensures multiset(s)[x] <= 1
  {
    if s != [] {
      assert s == [s[0]] + s[1..];
      DistinctAtMostOnce(s[1..], x);
      if s[0] == x {
        assert x !in s[1..];
      }
    }
  }

  /** A string that occurs at most once cannot sit at two positions. */
  lemma OnceNoRepeat(s: seq<string>, i: nat, j: nat)
    requires i < j < |s| && multiset(s)[s[i]] <= 1
    ensures s[i] != s[j]
  {
    assert s == s[..i] + [s[i]] + s[i + 1..j] + [s[j]] + s[j + 1..];
  }

  /** No repeats: when the Chinese names to use are pairwise different, so are
      the selected ones. */
  lemma SelectionDistinct(namesToUse: seq<Name>, selected: seq<Name>)
    requires PickedFrom(namesToUse, selected)
    requires Distinct(Chinese(namesToUse))
    ensures Distinct(Chinese(selected))
  {
    var a, b := Chinese(selected), Chinese(namesToUse);
    forall i, j | 0 <= i < j < |a|
      ensures a[i] != a[j]
    {
      DistinctAtMostOnce(b, a[i]);
      OnceNoRepeat(a, i, j);
    }
  }

  /** Filtering keeps Chinese names pairwise different. */
  lemma UnservedDistinct(available: seq<Name>, previous: seq<Name>)
    requires Distinct(Chinese(available))
    ensures Distinct(Chinese(Unserved(available, previous)))
  {
    var a, b := Chinese(Unserved(available, previous)), Chinese(available);
    forall i, j | 0 <= i < j < |a|
      ensures a[i] != a[j]
    {
      DistinctAtMostOnce(b, a[i]);
      OnceNoRepeat(a, i, j);
    }
  }

  /** Names picked from the unserved ones repeat no Chinese name served
      before. */
  lemma UnservedFresh(available: seq<Name>, previous: seq<Name>, selected: seq<Name>)
    requires forall k :: 0 <= k < |selected| ==> selected[k] in Unserved(available, previous)
    ensures forall k :: 0 <= k < |selected| ==> selected[k].chinese !in Chinese(previous)
  {
  }

  /** A map that differs from `m` at most at key `k`, overwritten there,
      is `m` with `k` overwritten. */
  lemma EntryReplaced<K, V>(m: map<K, V>, mid: map<K, V>, k: K, v: V)
    requires k in mid
    requires forall j :: j in mid && j != k ==> j in m && mid[j] == m[j]
    requires forall j :: j in m && j != k ==> j in mid
    ensures mid[k := v] == m[k := v]
  {
  }

  // ---------------------------------------------------------------------
  // The served-names history

  /** `generatedNameSets[englishName] || []` on a history map. */
  function PreviousIn(m: map<string, seq<Name>>, englishName: string): seq<Name> {
    if englishName in m then m[englishName] else []
  }

  /** `global.generatedNameSets`: for each English name, the names served
      for it so far. */
  class NameHistory {
    var generated: map<string, seq<Name>>

    constructor ()
      ensures generated == map[]
    {
      generated := map[];
    }

    /** The selection for one request. When at least three names of
        `available` were not served before for this English name, only
        those are used, so no selected name repeats one served before;
        otherwise the entry is deleted and all of `available` is used.
        Afterwards the entry holds the kept (or emptied) history followed by
        the selected names, and every other English name's entry is as it
        was. */
    method SelectNames(englishName: string, available: seq<Name>,
                       lengthDraws: seq<real>, fillDraws: seq<real>)
      returns (selected: seq<Name>)
      requires |lengthDraws| == 3 && AllDraws(lengthDraws)
      requires |fillDraws| == 3 && AllDraws(fillDraws)
      modifies this
      ensures var previous := old(PreviousIn(generated, englishName));
              && PickedFrom(NamesToUse(available, previous), selected)
              && (!Reset(available, previous) ==>
                    forall k :: 0 <= k < |selected| ==> selected[k].chinese !in Chinese(previous))
              && generated == old(generated)[englishName := Kept(available, previous) + selected]
    {
      var previous := PreviousIn(generated, englishName);
      var newAvailable := Unserved(available, previous);
      var namesToUse := newAvailable;
      ghost var kept := previous;
      if |newAvailable| < 3 {
        generated := generated - {englishName};
        namesToUse := available;
        kept := [];
      }
      selected := PickNames(namesToUse, lengthDraws, fillDraws);
      if englishName !in generated {
        generated := generated[englishName := []];
      }
      assert generated[englishName] == kept;
      ghost var before := generated;
      generated := generated[englishName := generated[englishName] + selected];
      EntryReplaced(old(generated), before, englishName, kept + selected);
      if |newAvailable| >= 3 {
        UnservedFresh(available, previous, selected);
      }
    }
  }
}
