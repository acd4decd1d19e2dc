/** Strings as the query layer sees them: ASCII lower-casing and the
    case-insensitive substring test that PostgreSQL's `ILIKE '%x%'` performs. */
module Text {

  /** Lower-cases one ASCII letter; every other character is left alone. */
  function LowerChar(c: char): char
  {
    if 'A' <= c <= 'Z' then (c as int + 32) as char else c
  }

  predicate IsUpperAscii(c: char)
  {
    'A' <= c <= 'Z'
  }

  /** `String.prototype.toLowerCase`, restricted to ASCII. */
  function Lower(s: string): (r: string)
    ensures |r| == |s|
    ensures forall i :: 0 <= i < |r| ==> !IsUpperAscii(r[i])
    ensures forall i :: 0 <= i < |s| && !IsUpperAscii(s[i]) ==> r[i] == s[i]
    ensures forall i :: 0 <= i < |s| && IsUpperAscii(s[i]) ==> r[i] as int == s[i] as int + 32
  {
    seq(|s|, i requires 0 <= i < |s| => LowerChar(s[i]))
  }

  /** Lower-casing twice is lower-casing once. */
  lemma LowerIdempotent(s: string)
    ensures Lower(Lower(s)) == Lower(s)
  {
    var l := Lower(s);
    assert forall i :: 0 <= i < |l| ==> Lower(l)[i] == l[i];
  }

  /** `needle` occurs in `hay` starting at index `i`. */
  ghost predicate OccursAt(hay: string, needle: string, i: int)
  {
    0 <= i && i + |needle| <= |hay| && hay[i..i + |needle|] == needle
  }

  /** Executable substring test: `needle` is a prefix of some suffix of `hay`. */
  predicate Contains(hay: string, needle: string)
    decreases |hay|
  {
    needle <= hay || (|hay| > 0 && Contains(hay[1..], needle))
  }

  /** Whatever `Contains` accepts has an occurrence. */
  lemma {:induction false} ContainsHasOccurrence(hay: string, needle: string) returns (i: int)
    requires Contains(hay, needle)
    ensures OccursAt(hay, needle, i)
    decreases |hay|
  {
    if needle <= hay {
      i := 0;
    } else {
      var j := ContainsHasOccurrence(hay[1..], needle);
      assert hay[j + 1..j + 1 + |needle|] == hay[1..][j..j + |needle|];
      i := j + 1;
    }
  }

  /** Every occurrence is found by `Contains`. */
  lemma {:induction false} OccurrenceIsContained(hay: string, needle: string, i: int)
    requires OccursAt(hay, needle, i)
    ensures Contains(hay, needle)
    decreases |hay|
  {
    if i > 0 {
      assert hay[1..][i - 1..i - 1 + |needle|] == hay[i..i + |needle|];
      OccurrenceIsContained(hay[1..], needle, i - 1);
    }
  }

  /** `Contains` finds an occurrence exactly when one exists. */
  lemma ContainsIffOccurs(hay: string, needle: string)
    ensures Contains(hay, needle) <==> exists i :: OccursAt(hay, needle, i)
  {
    if Contains(hay, needle) {
      var i := ContainsHasOccurrence(hay, needle);
    }
    if exists i :: OccursAt(hay, needle, i) {
      var i :| OccursAt(hay, needle, i);
      OccurrenceIsContained(hay, needle, i);
    }
  }

  /** `column ILIKE '%pattern%'`, with `pattern` read as a literal string. */
  predicate ILikeContains(column: string, pattern: string)
  {
    Contains(Lower(column), Lower(pattern))
  }

  /** Changing the case of either side never changes the outcome of the match. */
  lemma ILikeIgnoresCase(column: string, pattern: string)
    ensures ILikeContains(column, pattern) == ILikeContains(Lower(column), pattern)
    ensures ILikeContains(column, pattern) == ILikeContains(column, Lower(pattern))
  {
    LowerIdempotent(column);
    LowerIdempotent(pattern);
  }

  /** The match says exactly that the lower-cased pattern occurs in the lower-cased value. */
  lemma ILikeMeansOccurrence(column: string, pattern: string)
    ensures ILikeContains(column, pattern) <==> exists i :: OccursAt(Lower(column), Lower(pattern), i)
  {
    ContainsIffOccurs(Lower(column), Lower(pattern));
  }
}
