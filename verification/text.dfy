/**
 The substring test behind the directory filter: Python's `wildcard in user_id`
 on strings, computed by sliding the needle along the haystack, and proved to
 agree with the plain definition "the needle sits at some offset".
 */
module Text {

  /** `needle` sits in `hay` starting at offset `i`. */
  predicate At(needle: string, hay: string, i: int) {
    0 <= i <= |hay| - |needle| && hay[i..i + |needle|] == needle
  }

  /** `needle` appears in `hay` at some offset. */
  ghost predicate IsSubstring(needle: string, hay: string) {
    exists i :: At(needle, hay, i)
  }

  /** Python's `needle in hay` for two strings. */
  function Occurs(needle: string, hay: string): (b: bool)
    ensures |needle| == 0 ==> b
    ensures b ==> |needle| <= |hay|
    decreases |hay|
  {
    if |needle| > |hay| then false
    else if hay[..|needle|] == needle then true
    else |hay| > 0 && Occurs(needle, hay[1..])
  }

  /** The sliding test finds the needle exactly when some offset holds it. */
  lemma {:induction false} OccursIsSubstring(needle: string, hay: string)
    ensures Occurs(needle, hay) <==> IsSubstring(needle, hay)
    decreases |hay|
  {
    if |needle| > |hay| {
    } else if hay[..|needle|] == needle {
      assert At(needle, hay, 0);
    } else if |hay| > 0 {
      var tail := hay[1..];
      OccursIsSubstring(needle, tail);
      if IsSubstring(needle, tail) {
        var i :| At(needle, tail, i);
        assert hay[i + 1..i + 1 + |needle|] == tail[i..i + |needle|];
        assert At(needle, hay, i + 1);
      }
      if IsSubstring(needle, hay) {
        var i :| At(needle, hay, i);
        assert i != 0;
        assert tail[i - 1..i - 1 + |needle|] == hay[i..i + |needle|];
        assert At(needle, tail, i - 1);
      }
    }
  }

  /** A one-character needle occurs exactly when that character is in the haystack. */
  lemma {:induction false} OccursChar(c: char, hay: string)
    ensures Occurs([c], hay) <==> c in hay
    decreases |hay|
  {
    if |hay| > 0 {
      assert hay == [hay[0]] + hay[1..];
      assert hay[..1] == [hay[0]];
      OccursChar(c, hay[1..]);
    }
  }
}
