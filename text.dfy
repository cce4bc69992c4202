/**
 * The handful of Python string operations the chunker relies on:
 * `str.upper()` (ASCII letters only), slicing `s[:n]`, the substring
 * test `needle in hay`, and `sep.join(parts)`.
 */
module Text {

  function UpperChar(c: char): char
  {
    if 'a' <= c <= 'z' then (c as int - 'a' as int + 'A' as int) as char else c
  }

  /** `s.upper()`, restricted to ASCII letters. */
  function Upper(s: string): string
  {
    seq(|s|, i requires 0 <= i < |s| => UpperChar(s[i]))
  }

  /** `s[:n]`: the first `n` characters, or all of `s` when it is shorter. */
  function Take(s: string, n: nat): (r: string)
    ensures r <= s
    ensures |r| == if |s| <= n then |s| else n
  {
    if |s| <= n then s else s[..n]
  }

  /** `needle in hay` for Python strings, computed by scanning start positions. */
  function Contains(hay: string, needle: string): bool
    decreases |hay|
  {
    needle <= hay || (|hay| > 0 && Contains(hay[1..], needle))
  }

  /** `needle` starts at position `k` of `hay`. */
  ghost predicate OccursAt(hay: string, needle: string, k: int)
  {
    0 <= k && k + |needle| <= |hay| && hay[k..k + |needle|] == needle
  }

  /** Reference definition of the substring relation. */
  ghost predicate Occurs(hay: string, needle: string)
  {
    exists k :: OccursAt(hay, needle, k)
  }

  /** The scanning test agrees with the reference definition, both ways. */
  lemma {:induction false} ContainsIffOccurs(hay: string, needle: string)
    ensures Contains(hay, needle) <==> Occurs(hay, needle)
    decreases |hay|
  {
    if needle <= hay {
      assert OccursAt(hay, needle, 0);
    } else if |hay| > 0 {
      ContainsIffOccurs(hay[1..], needle);
      if Contains(hay[1..], needle) {
        var k :| OccursAt(hay[1..], needle, k);
        assert hay[1..][k..k + |needle|] == hay[k + 1..k + 1 + |needle|];
        assert OccursAt(hay, needle, k + 1);
      }
      if Occurs(hay, needle) {
        var k :| OccursAt(hay, needle, k) && k > 0;
        assert hay[1..][k - 1..k - 1 + |needle|] == hay[k..k + |needle|];
        assert OccursAt(hay[1..], needle, k - 1);
      }
    }
  }

  /** Every prefix of a string, in particular `s[:n]` and `s` itself, occurs in it. */
  lemma PrefixContained(hay: string, needle: string)
    requires needle <= hay
    ensures Contains(hay, needle) && Occurs(hay, needle)
  {
    assert OccursAt(hay, needle, 0);
  }

  /** A string occurs in any text that holds a string it begins. */
  lemma OccursInside(before: string, middle: string, after: string, needle: string)
    requires needle <= middle
    ensures Occurs(before + middle + after, needle)
  {
    var hay := before + middle + after;
    assert hay[|before|..|before| + |needle|] == middle[..|needle|];
    assert OccursAt(hay, needle, |before|);
  }

  /** `sep.join(parts)`. */
  function Join(sep: string, parts: seq<string>): string
  {
    if |parts| == 0 then ""
    else if |parts| == 1 then parts[0]
    else parts[0] + sep + Join(sep, parts[1..])
  }

  /** Appending one more part to a non-empty list adds the separator and that part. */
  lemma {:induction false} JoinSnoc(sep: string, parts: seq<string>, last: string)
    requires |parts| > 0
    ensures Join(sep, parts + [last]) == Join(sep, parts) + sep + last
    decreases |parts|
  {
    if |parts| == 1 {
      assert (parts + [last])[1..] == [last];
    } else {
      assert (parts + [last])[1..] == parts[1..] + [last];
      JoinSnoc(sep, parts[1..], last);
    }
  }
}
