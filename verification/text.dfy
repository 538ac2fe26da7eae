/**
 * The few string operations of JavaScript that the chat handler relies on:
 * `includes`, `toLowerCase`, `trim` and `Array.prototype.join`.
 */
module Text {

  /** `s` begins with `prefix`. */
  predicate StartsWith(s: string, prefix: string) {
    |prefix| <= |s| && s[..|prefix|] == prefix
  }

  /** `hay.includes(needle)`; the empty needle is found in every string. */
  function Contains(hay: string, needle: string): bool
    decreases |hay|
  {
    StartsWith(hay, needle) || (hay != [] && Contains(hay[1..], needle))
  }

  /** `needle` occurs in `hay` starting at index `i`. */
  ghost predicate OccursAt(hay: string, needle: string, i: int) {
    0 <= i && i + |needle| <= |hay| && hay[i..i + |needle|] == needle
  }

  /** `Contains` finds exactly the needles that occur somewhere in the haystack. */
  lemma {:induction false} ContainsIff(hay: string, needle: string)
    ensures Contains(hay, needle) <==> exists i :: OccursAt(hay, needle, i)
    decreases |hay|
  {
    if StartsWith(hay, needle) {
      assert OccursAt(hay, needle, 0);
    } else if hay == [] {
      assert forall i :: !OccursAt(hay, needle, i);
    } else {
      ContainsIff(hay[1..], needle);
      if Contains(hay[1..], needle) {
        var j :| OccursAt(hay[1..], needle, j);
        assert hay[j + 1..j + 1 + |needle|] == hay[1..][j..j + |needle|];
        assert OccursAt(hay, needle, j + 1);
      } else {
        forall i | OccursAt(hay, needle, i) ensures false {
          assert i != 0;
          assert hay[1..][i - 1..i - 1 + |needle|] == hay[i..i + |needle|];
          assert OccursAt(hay[1..], needle, i - 1);
        }
      }
    }
  }

  /** What occurs in a string occurs, shifted, after any prefix put before it. */
  lemma OccursAfterPrefix(prefix: string, s: string, needle: string, i: int)
    requires OccursAt(s, needle, i)
    ensures OccursAt(prefix + s, needle, |prefix| + i)
  {
    assert (prefix + s)[|prefix| + i..|prefix| + i + |needle|] == s[i..i + |needle|];
  }

  /** Every string contains the empty string, so `x.includes("")` is always true. */
  lemma ContainsEmpty(hay: string)
    ensures Contains(hay, "")
  {
  }

  /** A string that contains `needle` contains every infix of `needle`. */
  lemma ContainsInfix(hay: string, needle: string, i: nat, j: nat)
    requires i <= j <= |needle|
    requires Contains(hay, needle)
    ensures Contains(hay, needle[i..j])
  {
    ContainsIff(hay, needle);
    var k :| OccursAt(hay, needle, k);
    forall t | k + i <= t < k + j ensures hay[t] == needle[t - k] {
      assert hay[k..k + |needle|][t - k] == needle[t - k];
    }
    assert OccursAt(hay, needle[i..j], k + i);
    ContainsIff(hay, needle[i..j]);
  }

  predicate IsUpper(c: char) {
    'A' <= c <= 'Z'
  }

  /** `toLowerCase` on one character, for the ASCII letters. */
  function LowerChar(c: char): (r: char)
    ensures !IsUpper(r)
    ensures IsUpper(c) ==> r as int == c as int + 32
    ensures !IsUpper(c) ==> r == c
  {
    if IsUpper(c) then (c as int + 32) as char else c
  }

  /** `s.toLowerCase()`: ASCII upper-case letters become lower case, all else is kept. */
  function ToLower(s: string): (r: string)
    ensures |r| == |s|
    ensures forall i :: 0 <= i < |r| ==> r[i] == LowerChar(s[i]) && !IsUpper(r[i])
  {
    seq(|s|, i requires 0 <= i < |s| => LowerChar(s[i]))
  }

  /** Lower-casing commutes with taking a slice. */
  lemma ToLowerSlice(s: string, i: nat, j: nat)
    requires i <= j <= |s|
    ensures ToLower(s)[i..j] == ToLower(s[i..j])
  {
  }

  /** If a message mentions a word in any letter case, its lower-cased copy mentions the lower-cased word. */
  lemma ContainsToLower(hay: string, needle: string)
    requires Contains(hay, needle)
    ensures Contains(ToLower(hay), ToLower(needle))
  {
    ContainsIff(hay, needle);
    var k :| OccursAt(hay, needle, k);
    ToLowerSlice(hay, k, k + |needle|);
    assert OccursAt(ToLower(hay), ToLower(needle), k);
    ContainsIff(ToLower(hay), ToLower(needle));
  }

  /** A lower-cased string never contains a string that holds an ASCII upper-case letter. */
  lemma LowerNeverContainsUpper(hay: string, needle: string, u: nat)
    requires u < |needle| && IsUpper(needle[u])
    ensures !Contains(ToLower(hay), needle)
  {
    ContainsIff(ToLower(hay), needle);
  }

  /**
   * The characters `String.prototype.trim` removes: ECMAScript's WhiteSpace
   * (TAB, VT, FF, ZWNBSP and every Unicode space separator) and LineTerminator
   * (LF, CR, LS, PS).
   */
  predicate IsJsSpace(c: char) {
    || c == '\t' || c == '\n' || c == '\U{000B}' || c == '\U{000C}' || c == '\r'
    || c == ' ' || c == '\U{00A0}' || c == '\U{1680}'
    || ('\U{2000}' <= c <= '\U{200A}')
    || c == '\U{2028}' || c == '\U{2029}' || c == '\U{202F}' || c == '\U{205F}'
    || c == '\U{3000}' || c == '\U{FEFF}'
  }

  /** `trimStart`: the longest suffix of `s` that does not begin with a space. */
  function TrimStart(s: string): (r: string)
    ensures |r| <= |s| && r == s[|s| - |r|..]
    ensures forall i :: 0 <= i < |s| - |r| ==> IsJsSpace(s[i])
    ensures r != [] ==> !IsJsSpace(r[0])
  {
    if s != [] && IsJsSpace(s[0]) then TrimStart(s[1..]) else s
  }

  /** `trimEnd`: the longest prefix of `s` that does not end with a space. */
  function TrimEnd(s: string): (r: string)
    ensures |r| <= |s| && r == s[..|r|]
    ensures forall i :: |r| <= i < |s| ==> IsJsSpace(s[i])
    ensures r != [] ==> !IsJsSpace(r[|r| - 1])
  {
    if s != [] && IsJsSpace(s[|s| - 1]) then TrimEnd(s[..|s| - 1]) else s
  }

  /** `s.trim()`. */
  function Trim(s: string): string {
    TrimEnd(TrimStart(s))
  }

  /** A prefix of a suffix of `s` is a slice of `s`. */
  lemma PrefixOfSuffix(s: string, i: nat, n: nat)
    requires i + n <= |s|
    ensures s[i..][..n] == s[i..i + n]
  {
  }

  /** Every character of `s` before `i` and from `j` on is white space. */
  predicate SpacesOutside(s: string, i: nat, j: nat)
    requires i <= j <= |s|
  {
    && (forall k :: 0 <= k < i ==> IsJsSpace(s[k]))
    && (forall k :: j <= k < |s| ==> IsJsSpace(s[k]))
  }

  /** `trim` yields a contiguous part of `s`, and removes only white space around it. */
  lemma TrimSlice(s: string)
    ensures exists i, j :: 0 <= i <= j <= |s| && Trim(s) == s[i..j] && SpacesOutside(s, i, j)
  {
    var a := TrimStart(s);
    var i := |s| - |a|;
    var n := |Trim(s)|;
    PrefixOfSuffix(s, i, n);
    assert Trim(s) == s[i..i + n];
    forall k | i + n <= k < |s|
      ensures IsJsSpace(s[k])
    {
      assert s[k] == a[k - i];
    }
    assert SpacesOutside(s, i, i + n);
  }

  /** A non-empty result of `trim` neither starts nor ends with a space. */
  lemma TrimEdges(s: string)
    ensures Trim(s) != [] ==> !IsJsSpace(Trim(s)[0]) && !IsJsSpace(Trim(s)[|Trim(s)| - 1])
  {
    var a := TrimStart(s);
    var b := TrimEnd(a);
    assert Trim(s) == b;
    if b != [] {
      assert b[0] == a[0];
    }
  }

  /** `trim` yields the empty string exactly when `s` is blank. */
  lemma TrimBlank(s: string)
    ensures Trim(s) == [] <==> forall i :: 0 <= i < |s| ==> IsJsSpace(s[i])
  {
    var a := TrimStart(s);
    var b := TrimEnd(a);
    assert Trim(s) == b;
    if b == [] {
      assert a == [];
    } else {
      assert b[0] == a[0] == s[|s| - |a|];
    }
  }

  /**
   * `trim` yields a contiguous part of `s` with only white space around it,
   * that neither starts nor ends with a space, and that is empty exactly when `s` is blank.
   */
  lemma TrimSpec(s: string)
    ensures exists i, j :: 0 <= i <= j <= |s| && Trim(s) == s[i..j] && SpacesOutside(s, i, j)
    ensures Trim(s) != [] ==> !IsJsSpace(Trim(s)[0]) && !IsJsSpace(Trim(s)[|Trim(s)| - 1])
    ensures Trim(s) == [] <==> forall i :: 0 <= i < |s| ==> IsJsSpace(s[i])
  {
    TrimSlice(s);
    TrimEdges(s);
    TrimBlank(s);
  }

  /** `parts.join(sep)`. */
  function Join(parts: seq<string>, sep: string): string {
    if |parts| == 0 then ""
    else if |parts| == 1 then parts[0]
    else Join(parts[..|parts| - 1], sep) + sep + parts[|parts| - 1]
  }

  /** Where part `i` begins in `Join(parts, sep)`. */
  function JoinOffset(parts: seq<string>, sep: string, i: nat): nat
    requires i <= |parts|
  {
    if i == 0 then 0 else JoinOffset(parts, sep, i - 1) + |parts[i - 1]| + |sep|
  }

  lemma {:induction false} JoinOffsetPrefix(parts: seq<string>, sep: string, n: nat, i: nat)
    requires i <= n <= |parts|
    ensures JoinOffset(parts[..n], sep, i) == JoinOffset(parts, sep, i)
  {
    if i > 0 {
      JoinOffsetPrefix(parts, sep, n, i - 1);
    }
  }

  /** The length of a join: the parts and the separators between them. */
  lemma {:induction false} JoinLength(parts: seq<string>, sep: string)
    requires parts != []
    ensures |Join(parts, sep)| == JoinOffset(parts, sep, |parts| - 1) + |parts[|parts| - 1]|
  {
    var n := |parts|;
    if n > 1 {
      JoinLength(parts[..n - 1], sep);
      JoinOffsetPrefix(parts, sep, n - 1, n - 2);
    }
  }

  /** Part `i` of a join sits at its offset. */
  lemma {:induction false} JoinPartAt(parts: seq<string>, sep: string, i: nat)
    requires i < |parts|
    ensures OccursAt(Join(parts, sep), parts[i], JoinOffset(parts, sep, i))
  {
    var n := |parts|;
    if n > 1 {
      var init := parts[..n - 1];
      var j := Join(init, sep);
      var whole := Join(parts, sep);
      assert whole == j + sep + parts[n - 1];
      JoinLength(init, sep);
      if i < n - 1 {
        JoinPartAt(init, sep, i);
        JoinOffsetPrefix(parts, sep, n - 1, i);
        var o := JoinOffset(parts, sep, i);
        assert init[i] == parts[i] && o + |parts[i]| <= |j|;
        assert whole[o..o + |parts[i]|] == j[o..o + |parts[i]|] == parts[i];
      } else {
        JoinOffsetPrefix(parts, sep, n - 1, n - 2);
        assert JoinOffset(parts, sep, i) == |j| + |sep|;
        assert whole[|j| + |sep|..|whole|] == parts[n - 1];
      }
    } else {
      assert Join(parts, sep)[0..|parts[0]|] == parts[0];
    }
  }

  /** In a reply made of a header and then a join, the header comes first, and part `i` sits at its offset after it. */
  lemma HeaderThenJoin(reply: string, header: string, parts: seq<string>, sep: string, i: nat)
    requires reply == header + Join(parts, sep) && i < |parts|
    ensures StartsWith(reply, header)
    ensures OccursAt(reply, parts[i], |header| + JoinOffset(parts, sep, i))
  {
    var j := Join(parts, sep);
    JoinPartAt(parts, sep, i);
    OccursAfterPrefix(header, j, parts[i], JoinOffset(parts, sep, i));
    assert (header + j)[..|header|] == header;
  }

  /** The separator follows every part but the last. */
  lemma {:induction false} JoinSepAt(parts: seq<string>, sep: string, i: nat)
    requires i + 1 < |parts|
    ensures OccursAt(Join(parts, sep), sep, JoinOffset(parts, sep, i) + |parts[i]|)
  {
    var n := |parts|;
    var init := parts[..n - 1];
    var j := Join(init, sep);
    var whole := Join(parts, sep);
    assert whole == j + sep + parts[n - 1];
    JoinOffsetPrefix(parts, sep, n - 1, i);
    var o := JoinOffset(parts, sep, i) + |parts[i]|;
    if i + 2 < n {
      JoinSepAt(init, sep, i);
      JoinLength(init, sep);
      assert whole[o..o + |sep|] == j[o..o + |sep|];
    } else {
      JoinLength(init, sep);
      assert whole[|j|..|j| + |sep|] == sep;
    }
  }
}
