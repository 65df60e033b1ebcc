/** The two string operations the search box relies on: lower-casing
    (`String.prototype.toLowerCase`) and substring search
    (`String.prototype.includes`). Lower-casing is modelled on ASCII letters
    only; `Includes` is checked against the declarative `IsSubstring`. */
module Text {

  predicate IsUpper(c: char) {
    'A' <= c <= 'Z'
  }

  /** ASCII case folding of one character. */
  function LowerChar(c: char): (d: char)
    ensures !IsUpper(d)
    ensures !IsUpper(c) ==> d == c
    ensures IsUpper(c) ==> d as int == c as int + 32
  {
    if IsUpper(c) then (c as int + 32) as char else c
  }

  /** Case folding of a whole string, character by character. */
  function Lower(s: string): (r: string)
    ensures |r| == |s|
    ensures forall i :: 0 <= i < |s| ==> r[i] == LowerChar(s[i])
    decreases |s|
  {
    if |s| == 0 then [] else [LowerChar(s[0])] + Lower(s[1..])
  }

  /** `needle` occurs in `hay` starting at position `i`. */
  ghost predicate OccursAt(needle: string, hay: string, i: int) {
    0 <= i && i + |needle| <= |hay| && hay[i..i + |needle|] == needle
  }

  /** The declarative meaning of `hay.includes(needle)`. */
  ghost predicate IsSubstring(needle: string, hay: string) {
    exists i :: OccursAt(needle, hay, i)
  }

  /** When `needle` does not start `hay`, it occurs in `hay` exactly when it
      occurs in the tail of `hay`. */
  lemma SubstringOfTail(needle: string, hay: string)
    requires |hay| > 0
    requires !OccursAt(needle, hay, 0)
    ensures IsSubstring(needle, hay) <==> IsSubstring(needle, hay[1..])
  {
    if IsSubstring(needle, hay) {
      var i :| OccursAt(needle, hay, i);
      assert i > 0;
      assert hay[1..][i - 1..i - 1 + |needle|] == hay[i..i + |needle|];
      assert OccursAt(needle, hay[1..], i - 1);
    }
    if IsSubstring(needle, hay[1..]) {
      var j :| OccursAt(needle, hay[1..], j);
      assert hay[1..][j..j + |needle|] == hay[j + 1..j + 1 + |needle|];
      assert OccursAt(needle, hay, j + 1);
    }
  }

  /** Left-to-right substring search: the executable `hay.includes(needle)`.
      It agrees with `IsSubstring` on every input, including the empty needle,
      which occurs in every string. */
  function Includes(hay: string, needle: string): (b: bool)
    ensures b <==> IsSubstring(needle, hay)
    decreases |hay|
  {
    if |needle| > |hay| then
      false
    else if hay[..|needle|] == needle then
      assert OccursAt(needle, hay, 0);
      true
    else
      SubstringOfTail(needle, hay);
      Includes(hay[1..], needle)
  }

  /** Folding is idempotent: a folded string folds to itself. */
  lemma LowerIdempotent(s: string)
    ensures Lower(Lower(s)) == Lower(s)
  {
    var l := Lower(s);
    assert forall i :: 0 <= i < |l| ==> Lower(l)[i] == l[i];
  }

  /** The empty string occurs in every string. */
  lemma EmptyIsSubstring(hay: string)
    ensures IsSubstring("", hay)
  {
    assert OccursAt("", hay, 0);
  }

  /** Every string occurs in itself. */
  lemma SubstringReflexive(s: string)
    ensures IsSubstring(s, s)
  {
    assert s[0..|s|] == s;
    assert OccursAt(s, s, 0);
  }

  /** A substring of a substring is a substring. */
  lemma SubstringTransitive(a: string, b: string, c: string)
    requires IsSubstring(a, b)
    requires IsSubstring(b, c)
    ensures IsSubstring(a, c)
  {
    var i :| OccursAt(a, b, i);
    var j :| OccursAt(b, c, j);
    var found := c[j + i..j + i + |a|];
    assert forall k :: 0 <= k < |a| ==> found[k] == b[i..i + |a|][k];
    assert found == b[i..i + |a|];
    assert OccursAt(a, c, j + i);
  }
}
