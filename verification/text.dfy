/**
 * The string operations the note model needs: Python's `in` on two strings
 * (substring search) and `str.lower()`, restricted to ASCII letters.
 */
module Text {

  /** `needle` occurs in `hay` starting at offset `i`. */
  ghost predicate OccursAt(needle: string, hay: string, i: int)
  {
    0 <= i && i + |needle| <= |hay| && hay[i..i + |needle|] == needle
  }

  /** Reference meaning of "is a substring": some offset where it occurs. */
  ghost predicate IsSubstring(needle: string, hay: string)
  {
    exists i :: OccursAt(needle, hay, i)
  }

  predicate IsPrefix(prefix: string, s: string)
  {
    |prefix| <= |s| && s[..|prefix|] == prefix
  }

  /** An occurrence in `hay` is either at offset 0 or an occurrence in `hay[1..]`. */
  lemma SubstringOfTail(needle: string, hay: string)
    requires |hay| > 0
    ensures IsSubstring(needle, hay) <==> IsPrefix(needle, hay) || IsSubstring(needle, hay[1..])
  {
    if IsSubstring(needle, hay) && !IsPrefix(needle, hay) {
      var i :| OccursAt(needle, hay, i);
      assert i != 0;
      assert hay[1..][i - 1..i - 1 + |needle|] == hay[i..i + |needle|];
      assert OccursAt(needle, hay[1..], i - 1);
    }
    if IsPrefix(needle, hay) {
      assert OccursAt(needle, hay, 0);
    }
    if IsSubstring(needle, hay[1..]) {
      var i :| OccursAt(needle, hay[1..], i);
      assert hay[1..][i..i + |needle|] == hay[i + 1..i + 1 + |needle|];
      assert OccursAt(needle, hay, i + 1);
    }
  }

  /** Python's `needle in hay` for two `str` values. */
  function Contains(hay: string, needle: string): (r: bool)
    ensures r <==> IsSubstring(needle, hay)
    decreases |hay|
  {
    if |hay| == 0 then
      assert IsSubstring(needle, hay) <==> |needle| == 0 by {
        if |needle| == 0 { assert OccursAt(needle, hay, 0); }
      }
      |needle| == 0
    else
      SubstringOfTail(needle, hay);
      IsPrefix(needle, hay) || Contains(hay[1..], needle)
  }

  predicate IsUpper(c: char)
  {
    'A' <= c <= 'Z'
  }

  predicate IsLowerLetter(c: char)
  {
    'a' <= c <= 'z'
  }

  /** ASCII lower-casing of one character. */
  function LowerChar(c: char): (r: char)
    ensures !IsUpper(r)
    ensures !IsUpper(c) ==> r == c
    ensures IsUpper(c) ==> IsLowerLetter(r) && r as int - 'a' as int == c as int - 'A' as int
  {
    if IsUpper(c) then (c as int - 'A' as int + 'a' as int) as char else c
  }

  /** `s.lower()`, character by character. */
  function Lower(s: string): (r: string)
    ensures |r| == |s|
    ensures forall i :: 0 <= i < |s| ==> r[i] == LowerChar(s[i])
  {
    seq(|s|, i requires 0 <= i < |s| => LowerChar(s[i]))
  }

  lemma LowerIdempotent(s: string)
    ensures Lower(Lower(s)) == Lower(s)
  {
  }

  /** Lower-casing commutes with taking a slice. */
  lemma LowerSlice(s: string, i: int, j: int)
    requires 0 <= i <= j <= |s|
    ensures Lower(s)[i..j] == Lower(s[i..j])
  {
  }

  /** An occurrence survives lower-casing both strings. */
  lemma LowerPreservesSubstring(needle: string, hay: string)
    requires IsSubstring(needle, hay)
    ensures IsSubstring(Lower(needle), Lower(hay))
  {
    var i :| OccursAt(needle, hay, i);
    LowerSlice(hay, i, i + |needle|);
    assert OccursAt(Lower(needle), Lower(hay), i);
  }

  /** A one-character text occurs exactly where that character does. */
  lemma SingleCharSubstring(c: char, hay: string)
    ensures IsSubstring([c], hay) <==> c in hay
  {
    if c in hay {
      var i :| 0 <= i < |hay| && hay[i] == c;
      assert OccursAt([c], hay, i);
    }
    if IsSubstring([c], hay) {
      var i :| OccursAt([c], hay, i);
      assert hay[i] == hay[i..i + 1][0] == c;
    }
  }

  lemma EmptyIsSubstring(hay: string)
    ensures IsSubstring("", hay)
  {
    assert OccursAt("", hay, 0);
  }
}
