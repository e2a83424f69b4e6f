/** Strings as the chat widget uses them: `String.prototype.includes` for
    substring containment and `String.prototype.toLowerCase` for the
    case-insensitive side of the match.

    Lower-casing is modelled for the two scripts the widget's knowledge base
    is written in: basic Latin (A-Z) and basic Cyrillic (U+0400-U+042F,
    which covers А-Я and Ё). Every other character is its own lower case. */
module Text {

  /** `hay.includes(needle)`: `needle` occurs somewhere in `hay`.
      The empty needle occurs in every string, as in JavaScript. */
  predicate Includes(hay: string, needle: string)
    decreases |hay|
  {
    needle <= hay || (|hay| > 0 && Includes(hay[1..], needle))
  }

  /** Reference meaning of containment: `needle` is the slice of `hay` that
      starts at position `i`. */
  ghost predicate OccursAt(hay: string, needle: string, i: int)
  {
    0 <= i && i + |needle| <= |hay| && hay[i..i + |needle|] == needle
  }

  /** `Includes` is exactly "occurs at some position". */
  lemma {:induction false} IncludesIff(hay: string, needle: string)
    ensures Includes(hay, needle) <==> exists i :: OccursAt(hay, needle, i)
    decreases |hay|
  {
    if Includes(hay, needle) {
      if needle <= hay {
        assert OccursAt(hay, needle, 0);
      } else {
        IncludesIff(hay[1..], needle);
        var i :| OccursAt(hay[1..], needle, i);
        assert hay[i + 1..i + 1 + |needle|] == needle by {
          forall k | 0 <= k < |needle|
            ensures hay[i + 1..i + 1 + |needle|][k] == needle[k]
          {
            assert needle[k] == hay[1..][i + k];
          }
        }
        assert OccursAt(hay, needle, i + 1);
      }
    }
    if exists i :: OccursAt(hay, needle, i) {
      var i :| OccursAt(hay, needle, i);
      if i > 0 {
        assert hay[1..][i - 1..i - 1 + |needle|] == needle by {
          forall k | 0 <= k < |needle|
            ensures hay[1..][i - 1..i - 1 + |needle|][k] == needle[k]
          {
            assert needle[k] == hay[i + k];
          }
        }
        assert OccursAt(hay[1..], needle, i - 1);
        IncludesIff(hay[1..], needle);
      }
    }
  }

  /** Lower case of one character: A-Z, А-Я and Ѐ-Џ map to their small
      letters, everything else is unchanged. */
  function LowerChar(c: char): char
  {
    if 'A' <= c <= 'Z' then (c as int + 0x20) as char
    else if '\U{0410}' <= c <= '\U{042F}' then (c as int + 0x20) as char
    else if '\U{0400}' <= c <= '\U{040F}' then (c as int + 0x50) as char
    else c
  }

  /** A character that lower-casing leaves alone. */
  predicate IsLowerChar(c: char)
  {
    LowerChar(c) == c
  }

  /** A string none of whose characters lower-casing would change. */
  predicate IsLower(s: string)
  {
    forall i :: 0 <= i < |s| ==> IsLowerChar(s[i])
  }

  /** `s.toLowerCase()`: same length, fully lower case, and the identity on
      strings that are lower case already. */
  function ToLower(s: string): (r: string)
    ensures |r| == |s|
    ensures IsLower(r)
    ensures IsLower(s) ==> r == s
    ensures forall i :: 0 <= i < |s| && IsLowerChar(s[i]) ==> r[i] == s[i]
  {
    seq(|s|, i requires 0 <= i < |s| => LowerChar(s[i]))
  }

  /** Lower-casing a string twice is the same as lower-casing it once. */
  lemma ToLowerIdempotent(s: string)
    ensures ToLower(ToLower(s)) == ToLower(s)
  {
  }

  /** Every character of a substring of a lower-case string is lower case. */
  lemma IncludedInLowerIsLower(hay: string, needle: string)
    requires IsLower(hay)
    requires Includes(hay, needle)
    ensures IsLower(needle)
  {
    IncludesIff(hay, needle);
    var i :| OccursAt(hay, needle, i);
    forall k | 0 <= k < |needle|
      ensures IsLowerChar(needle[k])
    {
      assert needle[k] == hay[i + k];
    }
  }

  /** A keyword holding an upper-case letter is never contained in a
      lower-cased message, whatever the message. */
  lemma UpperCaseKeywordNeverIncluded(message: string, keyword: string)
    requires !IsLower(keyword)
    ensures !Includes(ToLower(message), keyword)
  {
    if Includes(ToLower(message), keyword) {
      IncludedInLowerIsLower(ToLower(message), keyword);
    }
  }
}
