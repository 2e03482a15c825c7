/**
 Contiguous substring containment: the model of JavaScript's
 `String.prototype.includes` with a string argument.
 */
module Substrings {

  import opened Ascii

  /** `needle` occurs in `hay` starting at position `i`. */
  ghost predicate OccursAt(hay: string, needle: string, i: int) {
    0 <= i && i + |needle| <= |hay| && hay[i..i + |needle|] == needle
  }

  /** `needle` occurs somewhere in `hay` as a contiguous block. */
  ghost predicate Contains(hay: string, needle: string) {
    exists i :: OccursAt(hay, needle, i)
  }

  /** An occurrence either starts at the front or lies wholly in the tail. */
  lemma ContainsStep(hay: string, needle: string)
    requires |needle| <= |hay|
    ensures Contains(hay, needle) <==> hay[..|needle|] == needle || Contains(hay[1..], needle)
  {
    if Contains(hay, needle) && hay[..|needle|] != needle {
      var i :| OccursAt(hay, needle, i);
      assert i != 0;
      assert hay[1..][i - 1..i - 1 + |needle|] == hay[i..i + |needle|];
      assert OccursAt(hay[1..], needle, i - 1);
    }
    if hay[..|needle|] == needle {
      assert OccursAt(hay, needle, 0);
    }
    if |hay| > 0 && Contains(hay[1..], needle) {
      var i :| OccursAt(hay[1..], needle, i);
      assert hay[1..][i..i + |needle|] == hay[i + 1..i + 1 + |needle|];
      assert OccursAt(hay, needle, i + 1);
    }
  }

  /** Executable containment test, scanning start positions from the left. */
  function Includes(hay: string, needle: string): (r: bool)
    ensures r <==> Contains(hay, needle)
    decreases |hay|
  {
    if |hay| < |needle| then false
    else
      ContainsStep(hay, needle);
      if hay[..|needle|] == needle then true
      else Includes(hay[1..], needle)
  }

  /** Every string contains the empty string. */
  lemma ContainsEmpty(s: string)
    ensures Contains(s, "")
  {
    assert OccursAt(s, "", 0);
  }

  /** A prefix of a string is contained in it. */
  lemma ContainsPrefix(s: string, t: string)
    ensures Contains(s + t, s)
  {
    assert (s + t)[0..|s|] == s;
    assert OccursAt(s + t, s, 0);
  }

  /** Containment is transitive: a substring of a substring is a substring. */
  lemma ContainsTransitive(a: string, b: string, c: string)
    requires Contains(a, b) && Contains(b, c)
    ensures Contains(a, c)
  {
    var i :| OccursAt(a, b, i);
    var j :| OccursAt(b, c, j);
    forall k | 0 <= k < |c|
      ensures a[i + j + k] == c[k]
    {
      assert b[j + k] == c[k];
      assert a[i + (j + k)] == b[j + k];
    }
    assert a[i + j..i + j + |c|] == c;
    assert OccursAt(a, c, i + j);
  }

  /** Lower-casing both sides preserves an occurrence. */
  lemma ContainsLower(hay: string, needle: string)
    requires Contains(hay, needle)
    ensures Contains(LowerStr(hay), LowerStr(needle))
  {
    var i :| OccursAt(hay, needle, i);
    LowerStrSlice(hay, i, i + |needle|);
    assert OccursAt(LowerStr(hay), LowerStr(needle), i);
  }
}
