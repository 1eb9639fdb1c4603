/** The .NET string operations the alert-config parser and the not-valid pass rely on:
    `String.Split(char)`, `String.Trim()`, `String.StartsWith` and `String.Contains`,
    all with ordinal (character-by-character) comparison. */
module Text {

  /** `Char.IsWhiteSpace`: the Unicode space separators, line and paragraph separators,
      U+0009..U+000D, U+0085 and U+00A0. */
  predicate IsWhiteSpace(c: char) {
    var n := c as int;
    || n == 0x20 || (0x09 <= n <= 0x0D) || n == 0x85 || n == 0xA0 || n == 0x1680
    || (0x2000 <= n <= 0x200A) || n == 0x2028 || n == 0x2029 || n == 0x202F
    || n == 0x205F || n == 0x3000
  }

  /** Number of occurrences of `c` in `s`. */
  function Count(s: string, c: char): nat {
    if |s| == 0 then 0 else (if s[0] == c then 1 else 0) + Count(s[1..], c)
  }

  lemma {:induction false} CountZero(s: string, c: char)
    ensures Count(s, c) == 0 <==> c !in s
  {
    if |s| > 0 {
      CountZero(s[1..], c);
      assert s == [s[0]] + s[1..];
    }
  }

  /** The inverse of `Split`: the parts glued together with `sep` between neighbours. */
  function Join(parts: seq<string>, sep: char): string
    requires |parts| >= 1
  {
    if |parts| == 1 then parts[0] else parts[0] + [sep] + Join(parts[1..], sep)
  }

  /** A joined text ends with its last part. */
  lemma {:induction false} JoinEndsWithLast(parts: seq<string>, sep: char)
    requires |parts| >= 1 && |parts[|parts| - 1]| > 0
    ensures var j := Join(parts, sep); var last := parts[|parts| - 1];
            |j| >= |last| && j[|j| - 1] == last[|last| - 1]
  {
    if |parts| > 1 {
      JoinEndsWithLast(parts[1..], sep);
    }
  }

  /** A character other than the separator that no part holds is not in the joined text. */
  lemma {:induction false} JoinAvoids(parts: seq<string>, sep: char, c: char)
    requires |parts| >= 1 && c != sep
    requires forall k :: 0 <= k < |parts| ==> c !in parts[k]
    ensures c !in Join(parts, sep)
  {
    if |parts| > 1 {
      JoinAvoids(parts[1..], sep, c);
    }
  }

  /** `String.Split(char)` without options: empty fields are kept, so there is always
      one field more than there are separators. */
  function Split(s: string, sep: char): (fields: seq<string>)
    ensures |fields| == Count(s, sep) + 1
    ensures forall i :: 0 <= i < |fields| ==> sep !in fields[i]
    ensures Join(fields, sep) == s
  {
    if |s| == 0 then [""]
    else
      var rest := Split(s[1..], sep);
      if s[0] == sep then
        [""] + rest
      else
        var r := [[s[0]] + rest[0]] + rest[1..];
        assert r[1..] == rest[1..];
        r
  }

  /** Splitting text that holds no separator yields the text itself. */
  lemma {:induction false} SplitNoSeparator(s: string, sep: char)
    requires sep !in s
    ensures Split(s, sep) == [s]
  {
    CountZero(s, sep);
  }

  /** Splitting at a first separator peels off the text before it as the first field. */
  lemma {:induction false} SplitFirst(a: string, b: string, sep: char)
    requires sep !in a
    ensures Split(a + [sep] + b, sep) == [a] + Split(b, sep)
  {
    if |a| > 0 {
      SplitFirst(a[1..], b, sep);
      assert (a + [sep] + b)[1..] == a[1..] + [sep] + b;
      assert a == [a[0]] + a[1..];
    } else {
      assert (a + [sep] + b)[1..] == b;
    }
  }

  /** `Split` inverts `Join` whenever no part contains the separator. */
  lemma {:induction false} SplitJoin(parts: seq<string>, sep: char)
    requires |parts| >= 1
    requires forall i :: 0 <= i < |parts| ==> sep !in parts[i]
    ensures Split(Join(parts, sep), sep) == parts
  {
    if |parts| == 1 {
      SplitNoSeparator(parts[0], sep);
    } else {
      SplitJoin(parts[1..], sep);
      SplitFirst(parts[0], Join(parts[1..], sep), sep);
    }
  }

  /** Drops the leading characters that satisfy `space`. */
  function TrimStart(s: string, space: char -> bool): (r: string)
    ensures |r| <= |s| && r == s[|s| - |r|..]
    ensures forall k :: 0 <= k < |s| - |r| ==> space(s[k])
    ensures |r| > 0 ==> !space(r[0])
  {
    if |s| > 0 && space(s[0]) then
      var r := TrimStart(s[1..], space);
      assert forall k :: 1 <= k < |s| - |r| ==> s[k] == s[1..][k - 1];
      r
    else
      s
  }

  /** Drops the trailing characters that satisfy `space`. */
  function TrimEnd(s: string, space: char -> bool): (r: string)
    ensures |r| <= |s| && r == s[..|r|]
    ensures forall k :: |r| <= k < |s| ==> space(s[k])
    ensures |r| > 0 ==> !space(r[|r| - 1])
  {
    if |s| > 0 && space(s[|s| - 1]) then TrimEnd(s[..|s| - 1], space) else s
  }

  /** `r` is the slice of `s` starting at `i` with only `space` characters around it. */
  ghost predicate SliceWithin(s: string, r: string, i: int, space: char -> bool) {
    && 0 <= i <= |s| - |r| && r == s[i..i + |r|]
    && (forall k :: 0 <= k < i ==> space(s[k]))
    && (forall k :: i + |r| <= k < |s| ==> space(s[k]))
  }

  /** Drops leading and trailing characters that satisfy `space`: the result is the
      inner slice of `s` that neither starts nor ends with such a character. */
  function TrimBy(s: string, space: char -> bool): (r: string)
    ensures |r| > 0 ==> !space(r[0]) && !space(r[|r| - 1])
    ensures exists i :: SliceWithin(s, r, i, space)
  {
    var t := TrimStart(s, space);
    var r := TrimEnd(t, space);
    TrimBothEnds(s, t, r, space);
    r
  }

  /** Trimming the start and then the end leaves a slice with only space around it. */
  lemma TrimBothEnds(s: string, t: string, r: string, space: char -> bool)
    requires |t| <= |s| && t == s[|s| - |t|..]
    requires forall k :: 0 <= k < |s| - |t| ==> space(s[k])
    requires |r| <= |t| && r == t[..|r|]
    requires forall k :: |r| <= k < |t| ==> space(t[k])
    ensures SliceWithin(s, r, |s| - |t|, space)
  {
    var i := |s| - |t|;
    forall k | i + |r| <= k < |s|
      ensures space(s[k])
    {
      assert s[k] == t[k - i];
    }
  }

  /** `String.Trim()`. */
  function Trim(s: string): string {
    TrimBy(s, IsWhiteSpace)
  }

  /** Trimming text that neither starts nor ends with a space character changes nothing. */
  lemma TrimByUnchanged(s: string, space: char -> bool)
    requires |s| > 0 ==> !space(s[0]) && !space(s[|s| - 1])
    ensures TrimBy(s, space) == s
  {
  }

  /** The trimmed text is the one slice of `s` that has only space characters around it
      and none at its own two ends. */
  lemma TrimByIsSlice(s: string, r: string, i: int, space: char -> bool)
    requires SliceWithin(s, r, i, space)
    requires |r| > 0 && !space(r[0]) && !space(r[|r| - 1])
    ensures TrimBy(s, space) == r
  {
    var t := TrimBy(s, space);
    var j :| SliceWithin(s, t, j, space);
    assert s[i] == r[0];
    assert s[i + |r| - 1] == r[|r| - 1];
    if |t| > 0 {
      assert s[j] == t[0];
      assert s[j + |t| - 1] == t[|t| - 1];
      assert !(j < i) && !(i < j);
      assert !(j + |t| < i + |r|) && !(i + |r| < j + |t|);
    }
  }

  /** Trimming drops exactly the space characters padded around a text that has none at
      its ends. */
  lemma TrimPadded(pre: string, x: string, post: string, space: char -> bool)
    requires forall k :: 0 <= k < |pre| ==> space(pre[k])
    requires forall k :: 0 <= k < |post| ==> space(post[k])
    requires |x| > 0 && !space(x[0]) && !space(x[|x| - 1])
    ensures TrimBy(pre + x + post, space) == x
  {
    var s := pre + x + post;
    assert forall k :: 0 <= k < |pre| ==> s[k] == pre[k];
    assert forall k :: |pre| + |x| <= k < |s| ==> s[k] == post[k - |pre| - |x|];
    assert s[|pre|..|pre| + |x|] == x;
    TrimByIsSlice(s, x, |pre|, space);
  }

  /** Ordinal `String.StartsWith(prefix)`. */
  predicate StartsWith(s: string, prefix: string) {
    |prefix| <= |s| && s[..|prefix|] == prefix
  }

  /** `needle` occurs in `s` starting at position `i`. */
  predicate OccursAt(s: string, needle: string, i: int) {
    0 <= i <= |s| - |needle| && s[i..i + |needle|] == needle
  }

  /** Ordinal `String.Contains(needle)`: scans every start position from the left. */
  function Contains(s: string, needle: string): (found: bool)
    ensures found <==> exists i :: OccursAt(s, needle, i)
  {
    if StartsWith(s, needle) then
      assert OccursAt(s, needle, 0);
      true
    else if |s| == 0 then
      false
    else
      var r := Contains(s[1..], needle);
      assert forall i :: 1 <= i ==> (OccursAt(s, needle, i) <==> OccursAt(s[1..], needle, i - 1));
      if r then
        var j :| OccursAt(s[1..], needle, j);
        assert OccursAt(s, needle, j + 1);
        r
      else
        assert !OccursAt(s, needle, 0);
        r
  }
}
