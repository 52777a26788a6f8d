/** Values shared by every stage of the `/generate-name` pipeline: the glyph
    entries of the phonetic tables, the name records the pipeline returns,
    and the one way the server turns a random number into a list index. */
module NameModel {

  datatype Option<T> = None | Some(value: T)

  /** One entry of a phonetic table: a Chinese character (or characters),
      its pinyin and its meaning text. */
  datatype Glyph = Glyph(symbol: string, pinyin: string, meaning: string)

  /** The explanation attached to a name. Database entries carry a fixed
      text; a synthesized name is explained by a template filled from the
      glyphs chosen and the English name they were chosen for. The template
      prose itself is not modelled. */
  datatype Rationale =
    | Plain(text: string)
    | Composed(glyphs: seq<Glyph>, firstName: string, lastName: string)

  /** A candidate name as the server returns it. */
  datatype Name = Name(chinese: string, pinyin: string, rationale: Rationale)

  /** `String.prototype.toLowerCase` on one character, for the ASCII range. */
  function ToLower(c: char): (r: char)
    ensures 'A' <= c <= 'Z' ==> r as int == c as int + 32
    ensures !('A' <= c <= 'Z') ==> r == c
    ensures !('A' <= r <= 'Z')
  {
    if 'A' <= c <= 'Z' then (c as int + 32) as char else c
  }

  /** A value `Math.random()` can return. */
  predicate IsDraw(r: real) {
    0.0 <= r < 1.0
  }

  predicate AllDraws(rs: seq<real>) {
    forall i :: 0 <= i < |rs| ==> IsDraw(rs[i])
  }

  /** `r * n`, written as n-fold addition so that unfolding it never asks
      for non-linear arithmetic; `ScaledIsProduct` shows it is the product. */
  function Scaled(r: real, n: nat): (x: real)
    requires IsDraw(r)
    ensures 0.0 <= x && (n > 0 ==> x < n as real)
    ensures r == 0.0 ==> x == 0.0
  {
    if n == 0 then 0.0 else Scaled(r, n - 1) + r
  }

  lemma {:induction false} ScaledIsProduct(r: real, n: nat)
    requires IsDraw(r)
    ensures Scaled(r, n) == r * (n as real)
  {
    if n > 0 {
      ScaledIsProduct(r, n - 1);
      assert r * ((n - 1) as real) + r == r * (n as real);
    }
  }

  /** `Math.floor(r * n)`: the index a draw selects in a list of length n. */
  function RandomIndex(r: real, n: nat): (k: nat)
    requires IsDraw(r) && n > 0
    ensures k < n
    ensures r == 0.0 ==> k == 0
  {
    Scaled(r, n).Floor
  }

  /** `String.prototype.length`: the number of UTF-16 code units. A
      character above U+FFFF is a surrogate pair and counts twice. */
  function JsLength(s: string): nat {
    if s == [] then 0 else (if s[0] as int > 0xFFFF then 2 else 1) + JsLength(s[1..])
  }

  /** Every character takes one or two code units. */
  lemma {:induction false} JsLengthBounds(s: string)
    ensures |s| <= JsLength(s) <= 2 * |s|
  {
    if s != [] {
      JsLengthBounds(s[1..]);
    }
  }

  /** Within the Basic Multilingual Plane, `length` counts characters. */
  lemma {:induction false} JsLengthBmp(s: string)
    ensures (forall i :: 0 <= i < |s| ==> s[i] as int <= 0xFFFF) <==> JsLength(s) == |s|
  {
    if s != [] {
      JsLengthBmp(s[1..]);
      JsLengthBounds(s[1..]);
      if forall i :: 0 <= i < |s[1..]| ==> s[1..][i] as int <= 0xFFFF {
        assert forall i :: 1 <= i < |s| ==> s[i] == s[1..][i - 1];
      } else {
        var i :| 0 <= i < |s[1..]| && s[1..][i] as int > 0xFFFF;
        assert s[i + 1] == s[1..][i];
      }
    }
  }

  function Min(a: int, b: int): int {
    if a <= b then a else b
  }

  /** The `chinese` strings of a list of names, in order. */
  function Chinese(s: seq<Name>): (r: seq<string>)
    ensures |r| == |s|
    ensures forall i :: 0 <= i < |s| ==> r[i] == s[i].chinese
  {
    if s == [] then [] else [s[0].chinese] + Chinese(s[1..])
  }

  lemma {:induction false} ChineseAppend(a: seq<Name>, b: seq<Name>)
    ensures Chinese(a + b) == Chinese(a) + Chinese(b)
  {
    if a == [] {
      assert a + b == b;
    } else {
      assert (a + b)[1..] == a[1..] + b;
      ChineseAppend(a[1..], b);
    }
  }

  /** No string occurs twice. */
  predicate Distinct(s: seq<string>) {
    forall i, j :: 0 <= i < j < |s| ==> s[i] != s[j]
  }
}
