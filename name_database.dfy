/** The whole-name database of the `/generate-name` handler: buckets of
    names keyed by a pattern over the raw English name, every matching bucket
    contributing in declared order, followed by a fixed list of additional
    names of two, three and four characters. */
module NameDatabase {
  import opened NameModel

  /** The regular expressions the buckets use: `/^x/i` (the name starts with
      the letter x, in either case) and the catch-all `.*`. */
  datatype Pattern = StartsWith(letter: char) | MatchAll

  datatype Bucket = Bucket(pattern: Pattern, names: seq<Name>)

  /** `pattern.test(englishName)`. `.*` matches every string, the empty one
      included; `/^x/i` compares the first character without regard to ASCII
      case. */
  predicate Test(p: Pattern, input: string) {
    match p
    case MatchAll => true
    case StartsWith(c) => |input| > 0 && ToLower(input[0]) == ToLower(c)
  }

  /** `nameDatabase.filter(entry => entry.pattern.test(englishName))`. */
  function Matching(db: seq<Bucket>, input: string): (r: seq<Bucket>)
    ensures |r| <= |db|
    ensures forall b :: b in r <==> b in db && Test(b.pattern, input)
  {
    if db == [] then []
    else (if Test(db[0].pattern, input) then [db[0]] else []) + Matching(db[1..], input)
  }

  /** The names of the buckets, concatenated in order. */
  function Flatten(bs: seq<Bucket>): seq<Name> {
    if bs == [] then [] else bs[0].names + Flatten(bs[1..])
  }

  /** The pool before shuffling (server.js): the names of every matching
      bucket, or the last bucket's names when none matches, then the
      additional names. */
  function AvailableNames(db: seq<Bucket>, additional: seq<Name>, input: string): seq<Name>
    requires |db| > 0
  {
    var matching := Matching(db, input);
    (if |matching| > 0 then Flatten(matching) else db[|db| - 1].names) + additional
  }

  /** The database as the server declares it: first-letter buckets, then the
      catch-all bucket last. */
  predicate CatchAllLast(db: seq<Bucket>) {
    |db| > 0 && db[|db| - 1].pattern == MatchAll
  }

  /** The statements that build `availableNames`: filter, then concatenate
      the matching buckets' names one bucket at a time, then append the
      additional names. */
  method CollectAvailableNames(db: seq<Bucket>, additional: seq<Name>, input: string)
    returns (available: seq<Name>)
    requires |db| > 0
    ensures available == AvailableNames(db, additional, input)
  {
    var matching := Matching(db, input);
    available := [];
    if |matching| > 0 {
      var i := 0;
      while i < |matching|
        invariant 0 <= i <= |matching|
        invariant available == Flatten(matching[..i])
      {
        FlattenSnoc(matching[..i], matching[i]);
        assert matching[..i + 1] == matching[..i] + [matching[i]];
        available := available + matching[i].names;
        i := i + 1;
      }
      assert matching[..|matching|] == matching;
    } else {
      available := db[|db| - 1].names;
    }
    available := available + additional;
  }

  // ---------------------------------------------------------------------
  // Properties

  lemma {:induction false} FlattenAppend(xs: seq<Bucket>, ys: seq<Bucket>)
    ensures Flatten(xs + ys) == Flatten(xs) + Flatten(ys)
  {
    if xs != [] {
      assert (xs + ys)[1..] == xs[1..] + ys;
      FlattenAppend(xs[1..], ys);
    } else {
      assert xs + ys == ys;
    }
  }

  lemma FlattenSnoc(xs: seq<Bucket>, b: Bucket)
    ensures Flatten(xs + [b]) == Flatten(xs) + b.names
  {
    FlattenAppend(xs, [b]);
    assert Flatten([b]) == b.names + Flatten([]);
  }

  lemma {:induction false} MatchingAppend(xs: seq<Bucket>, ys: seq<Bucket>, input: string)
    ensures Matching(xs + ys, input) == Matching(xs, input) + Matching(ys, input)
  {
    if xs != [] {
      assert (xs + ys)[1..] == xs[1..] + ys;
      MatchingAppend(xs[1..], ys, input);
    } else {
      assert xs + ys == ys;
    }
  }

  /** A name is in the concatenation exactly when it is in one of the
      buckets. */
  lemma {:induction false} FlattenMembers(bs: seq<Bucket>, x: Name)
    ensures x in Flatten(bs) <==> exists b :: b in bs && x in b.names
  {
    if bs != [] {
      FlattenMembers(bs[1..], x);
      if x in bs[0].names {
        assert bs[0] in bs;
      }
      if exists b :: b in bs[1..] && x in b.names {
        var b :| b in bs[1..] && x in b.names;
        assert b in bs;
      }
      if exists b :: b in bs && x in b.names {
        var b :| b in bs && x in b.names;
        assert b == bs[0] || b in bs[1..];
      }
    }
  }

  /** With the catch-all bucket last, it always matches, so the fallback
      branch is never taken, and the pool is the names of the matching
      first-letter buckets in declared order, then the catch-all's names,
      then the additional names. */
  lemma PoolLayout(db: seq<Bucket>, additional: seq<Name>, input: string)
    requires CatchAllLast(db)
    ensures |Matching(db, input)| > 0
    ensures AvailableNames(db, additional, input) ==
            Flatten(Matching(db[..|db| - 1], input)) + db[|db| - 1].names + additional
  {
    var front, last := db[..|db| - 1], db[|db| - 1];
    assert db == front + [last];
    var m := Matching(front, input);
    assert Matching([last], input) == [last] by {
      assert [last][1..] == [];
    }
    assert Matching(db, input) == m + [last] by {
      MatchingAppend(front, [last], input);
    }
    FlattenSnoc(m, last);
  }

  /** Pool membership, both directions: a name is available exactly when it
      is an additional name or belongs to a bucket whose pattern matches the
      input. In particular the catch-all's names are always available, and
      the pool is non-empty when they are. */
  lemma PoolMembers(db: seq<Bucket>, additional: seq<Name>, input: string, x: Name)
    requires CatchAllLast(db)
    ensures x in AvailableNames(db, additional, input) <==>
            x in additional || exists b :: b in db && Test(b.pattern, input) && x in b.names
    ensures x in db[|db| - 1].names ==> x in AvailableNames(db, additional, input)
    ensures |db[|db| - 1].names| > 0 ==> |AvailableNames(db, additional, input)| > 0
  {
    PoolLayout(db, additional, input);
    var matching := Matching(db, input);
    FlattenMembers(matching, x);
    if x in db[|db| - 1].names {
      assert db[|db| - 1] in matching;
    }
    if exists b :: b in db && Test(b.pattern, input) && x in b.names {
      var b :| b in db && Test(b.pattern, input) && x in b.names;
      assert b in matching;
    }
    if |db[|db| - 1].names| > 0 {
      assert db[|db| - 1].names[0] in AvailableNames(db, additional, input);
    }
  }
}
