/**
 * The two string operations the gallery filter relies on: JavaScript's
 * `String.prototype.toLowerCase` (modelled as an ASCII case fold) and
 * `String.prototype.includes` (substring search).
 */
module Text {

  predicate IsUpper(c: char) {
    'A' <= c <= 'Z'
  }

  /** The lower-case form of one character: ASCII capitals move to their small letter. */
  function LowerChar(c: char): (r: char)
    ensures !IsUpper(r)
    ensures IsUpper(c) ==> 'a' <= r <= 'z' && r as int - 'a' as int == c as int - 'A' as int
    ensures !IsUpper(c) ==> r == c
  {
    if IsUpper(c) then (c as int - 'A' as int + 'a' as int) as char else c
  }

  /** `x` and `y` are one letter in its capital and small forms. */
  predicate CasePair(x: char, y: char) {
    IsUpper(x) && y as int == x as int - 'A' as int + 'a' as int
  }

  /** Two characters fold alike exactly when they are equal or the two forms of one letter. */
  lemma LowerCharSame(x: char, y: char)
    ensures LowerChar(x) == LowerChar(y) <==> x == y || CasePair(x, y) || CasePair(y, x)
  {
  }

  /** `s.toLowerCase()`, folded one character at a time. */
  function Lower(s: string): (r: string)
    ensures |r| == |s|
    ensures forall i :: 0 <= i < |s| ==> r[i] == LowerChar(s[i])
  {
    seq(|s|, i requires 0 <= i < |s| => LowerChar(s[i]))
  }

  /** The folded form holds no capital letter. */
  lemma LowerHasNoCapital(s: string)
    ensures forall i :: 0 <= i < |Lower(s)| ==> !IsUpper(Lower(s)[i])
  {
  }

  /** `s` and `t` differ at most in the letter case of some positions. */
  predicate SameUpToCase(s: string, t: string) {
    |s| == |t| && forall i :: 0 <= i < |s| ==> s[i] == t[i] || CasePair(s[i], t[i]) || CasePair(t[i], s[i])
  }

  /** Two strings fold to the same string exactly when they differ only in letter case. */
  lemma LowerSameIffSameUpToCase(s: string, t: string)
    ensures Lower(s) == Lower(t) <==> SameUpToCase(s, t)
  {
    forall i | 0 <= i < |s| && i < |t|
      ensures LowerChar(s[i]) == LowerChar(t[i]) <==> s[i] == t[i] || CasePair(s[i], t[i]) || CasePair(t[i], s[i])
    {
      LowerCharSame(s[i], t[i]);
    }
    if SameUpToCase(s, t) {
      assert forall i :: 0 <= i < |s| ==> Lower(s)[i] == Lower(t)[i];
    }
    if Lower(s) == Lower(t) {
      assert forall i :: 0 <= i < |s| ==> Lower(s)[i] == Lower(t)[i];
    }
  }

  /** Folding twice is folding once. */
  lemma LowerIdempotent(s: string)
    ensures Lower(Lower(s)) == Lower(s)
  {
    var l := Lower(s);
    assert forall i :: 0 <= i < |l| ==> Lower(l)[i] == l[i];
  }

  /** Folding distributes over concatenation. */
  lemma LowerConcat(s: string, t: string)
    ensures Lower(s + t) == Lower(s) + Lower(t)
  {
    assert forall i :: 0 <= i < |s + t| ==> Lower(s + t)[i] == (Lower(s) + Lower(t))[i];
  }

  /** Reference meaning of "needle occurs in hay at offset i". */
  predicate OccursAt(hay: string, needle: string, i: int) {
    0 <= i && i + |needle| <= |hay| && hay[i..i + |needle|] == needle
  }

  ghost predicate Occurs(hay: string, needle: string) {
    exists i :: OccursAt(hay, needle, i)
  }

  /** An occurrence in a haystack no longer than the needle can only be the whole haystack. */
  lemma OccursInShort(hay: string, needle: string)
    requires |hay| <= |needle|
    ensures Occurs(hay, needle) <==> needle <= hay
  {
    if Occurs(hay, needle) {
      var i :| OccursAt(hay, needle, i);
      assert i == 0 && hay[0..|needle|] == needle;
    }
    if needle <= hay {
      assert OccursAt(hay, needle, 0);
    }
  }

  /** When the needle is not a prefix, it occurs in `hay` exactly when it occurs in `hay` without its first character. */
  lemma OccursShift(hay: string, needle: string)
    requires |hay| > 0 && !(needle <= hay)
    ensures Occurs(hay, needle) <==> Occurs(hay[1..], needle)
  {
    if Occurs(hay, needle) {
      var i :| OccursAt(hay, needle, i);
      assert i != 0;
      assert OccursAt(hay[1..], needle, i - 1) by {
        assert hay[1..][i - 1..i - 1 + |needle|] == hay[i..i + |needle|];
      }
    }
    if Occurs(hay[1..], needle) {
      var j :| OccursAt(hay[1..], needle, j);
      assert OccursAt(hay, needle, j + 1) by {
        assert 0 <= j && j + 1 + |needle| <= |hay|;
        assert hay[1..][j..j + |needle|] == hay[j + 1..j + 1 + |needle|];
      }
    }
  }

  /** `hay.includes(needle)`: tries every offset from the left, and finds an occurrence exactly when there is one. */
  function Contains(hay: string, needle: string): (r: bool)
    ensures r <==> Occurs(hay, needle)
    decreases |hay|
  {
    if needle <= hay then
      assert OccursAt(hay, needle, 0);
      true
    else if |hay| <= |needle| then
      OccursInShort(hay, needle);
      false
    else
      OccursShift(hay, needle);
      Contains(hay[1..], needle)
  }

  /** Every string includes the empty string. */
  lemma {:induction false} ContainsEmpty(hay: string)
    ensures Contains(hay, "")
  {
    assert "" <= hay;
  }
}
