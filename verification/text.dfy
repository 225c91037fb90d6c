/** The string primitives the task engine relies on: `String.prototype.trim`,
    `toLowerCase`, `includes` and `length`. Whitespace and case are modelled
    over ASCII; `length` counts UTF-16 code units as JavaScript does. */
module Text {

  /** ASCII whitespace: space, tab, line feed, vertical tab, form feed, carriage return. */
  predicate IsSpace(c: char) {
    c == ' ' || c == '\t' || c == '\n' || c == '\r' || c as int == 0x0B || c as int == 0x0C
  }

  /** No whitespace at either end: what `trim` produces. */
  predicate Trimmed(s: string) {
    |s| == 0 || (!IsSpace(s[0]) && !IsSpace(s[|s| - 1]))
  }

  /** Drops leading whitespace. */
  function TrimStart(s: string): (r: string)
    ensures |r| <= |s| && r == s[|s| - |r|..]
    ensures forall i :: 0 <= i < |s| - |r| ==> IsSpace(s[i])
    ensures |r| == 0 || !IsSpace(r[0])
    decreases |s|
  {
    if |s| > 0 && IsSpace(s[0]) then TrimStart(s[1..]) else s
  }

  /** A string that starts with a non-space is its own TrimStart. */
  lemma TrimStartKeeps(s: string)
    requires |s| == 0 || !IsSpace(s[0])
    ensures TrimStart(s) == s
  {
  }

  /** Drops trailing whitespace. */
  function TrimEnd(s: string): (r: string)
    ensures |r| <= |s| && r == s[..|r|]
    ensures forall i :: |r| <= i < |s| ==> IsSpace(s[i])
    ensures |r| == 0 || !IsSpace(r[|r| - 1])
    decreases |s|
  {
    if |s| > 0 && IsSpace(s[|s| - 1]) then TrimEnd(s[..|s| - 1]) else s
  }

  /** `String.prototype.trim`: the result is the middle segment `s[k..k + |r|]`
      of the input, with only whitespace cut away on either side, and it has
      no whitespace left at either end. */
  function Trim(s: string): (r: string)
    ensures Trimmed(r)
    ensures exists k :: TrimCut(s, r, k)
  {
    TrimCutAt(s);
    TrimEnd(TrimStart(s))
  }

  /** The cut `Trim` makes starts where `TrimStart` left off. */
  lemma TrimCutAt(s: string)
    ensures TrimCut(s, TrimEnd(TrimStart(s)), |s| - |TrimStart(s)|)
  {
    var a := TrimStart(s);
    var k := |s| - |a|;
    assert a == s[k..];
    assert forall i :: 0 <= i < k ==> IsSpace(s[i]);
    TrimEndCut(s, a, k);
  }

  /** Trimming the end of a suffix `a == s[k..]` whose cut-off front is all
      whitespace cuts `s` as `Trim` promises. */
  lemma TrimEndCut(s: string, a: string, k: int)
    requires 0 <= k <= |s| && a == s[k..]
    requires forall i :: 0 <= i < k ==> IsSpace(s[i])
    ensures TrimCut(s, TrimEnd(a), k)
  {
    var r := TrimEnd(a);
    assert r == s[k..k + |r|] by {
      assert r == a[..|r|];
      forall i | 0 <= i < |r| ensures r[i] == s[k + i] {
        assert r[i] == a[i];
      }
    }
    forall i | k + |r| <= i < |s| ensures IsSpace(s[i]) {
      assert s[i] == a[i - k];
    }
  }

  /** `r` is `s[k..k + |r|]` and everything of `s` outside that segment is whitespace. */
  ghost predicate TrimCut(s: string, r: string, k: int) {
    && 0 <= k && k + |r| <= |s|
    && r == s[k..k + |r|]
    && (forall i :: 0 <= i < k ==> IsSpace(s[i]))
    && (forall i :: k + |r| <= i < |s| ==> IsSpace(s[i]))
  }

  /** Trimming leaves an already trimmed string alone, so `trim` is idempotent. */
  lemma TrimOfTrimmed(s: string)
    requires Trimmed(s)
    ensures Trim(s) == s
  {
    assert TrimStart(s) == s;
  }

  lemma TrimIdempotent(s: string)
    ensures Trim(Trim(s)) == Trim(s)
  {
    TrimOfTrimmed(Trim(s));
  }

  /** ASCII `toLowerCase` on one character. */
  function LowerChar(c: char): char {
    if 'A' <= c <= 'Z' then (c as int + 32) as char else c
  }

  predicate IsLower(s: string) {
    forall i :: 0 <= i < |s| ==> !('A' <= s[i] <= 'Z')
  }

  /** ASCII `toLowerCase`: each upper-case letter becomes its lower-case
      letter (32 code points further on), every other character is kept in
      place, so no upper-case letter is left. */
  function Lower(s: string): (r: string)
    ensures |r| == |s|
    ensures forall i :: 0 <= i < |s| ==>
      if 'A' <= s[i] <= 'Z' then r[i] as int == s[i] as int + 32 && 'a' <= r[i] <= 'z' else r[i] == s[i]
    ensures IsLower(r)
    ensures IsLower(s) ==> r == s
  {
    seq(|s|, i requires 0 <= i < |s| => LowerChar(s[i]))
  }

  /** `needle` occurs in `hay` starting at index `i`. */
  ghost predicate OccursAt(hay: string, needle: string, i: int) {
    0 <= i && i + |needle| <= |hay| && hay[i..i + |needle|] == needle
  }

  predicate StartsWith(s: string, prefix: string) {
    |prefix| <= |s| && s[..|prefix|] == prefix
  }

  /** `String.prototype.includes`: true exactly when `needle` occurs
      somewhere in `hay` (the empty needle occurs everywhere). */
  function Contains(hay: string, needle: string): (r: bool)
    ensures r <==> exists i :: OccursAt(hay, needle, i)
    decreases |hay|
  {
    if StartsWith(hay, needle) then
      assert OccursAt(hay, needle, 0);
      true
    else if |hay| == 0 then
      false
    else
      var r := Contains(hay[1..], needle);
      if r then
        assert exists i :: OccursAt(hay, needle, i) by {
          var i :| OccursAt(hay[1..], needle, i);
          assert hay[1..][i..i + |needle|] == hay[i + 1..i + 1 + |needle|];
          assert OccursAt(hay, needle, i + 1);
        }
        true
      else
        assert forall i :: OccursAt(hay, needle, i) ==> OccursAt(hay[1..], needle, i - 1) by {
          forall i | OccursAt(hay, needle, i) ensures OccursAt(hay[1..], needle, i - 1) {
            assert i != 0;
            assert hay[1..][i - 1..i - 1 + |needle|] == hay[i..i + |needle|];
          }
        }
        false
  }

  /** Occurrence is transitive: a text containing `mid` contains everything `mid` contains. */
  lemma ContainsTransitive(hay: string, mid: string, needle: string)
    requires Contains(hay, mid) && Contains(mid, needle)
    ensures Contains(hay, needle)
  {
    var i :| OccursAt(hay, mid, i);
    var j :| OccursAt(mid, needle, j);
    forall k | 0 <= k < |needle|
      ensures hay[i + j..i + j + |needle|][k] == needle[k]
    {
      assert needle[k] == mid[j + k] == hay[i..i + |mid|][j + k];
    }
    assert OccursAt(hay, needle, i + j);
  }

  /** Number of UTF-16 code units of one character: two for a character
      outside the Basic Multilingual Plane (a surrogate pair), else one. */
  function CodeUnits(c: char): nat {
    if c as int >= 0x1_0000 then 2 else 1
  }

  /** JavaScript's `String.prototype.length`: the number of UTF-16 code units. */
  function JsLength(s: string): (n: nat)
    ensures |s| <= n <= 2 * |s|
    ensures (forall i :: 0 <= i < |s| ==> s[i] as int < 0x1_0000) ==> n == |s|
    decreases |s|
  {
    if |s| == 0 then 0 else CodeUnits(s[0]) + JsLength(s[1..])
  }

  /** `length` is additive over concatenation, so a string counts one code
      unit per BMP character and two per character outside it. */
  lemma {:induction false} JsLengthConcat(a: string, b: string)
    ensures JsLength(a + b) == JsLength(a) + JsLength(b)
    decreases |a|
  {
    if |a| > 0 {
      assert (a + b)[1..] == a[1..] + b;
      JsLengthConcat(a[1..], b);
    } else {
      assert a + b == b;
    }
  }

  /** One character counts as its code units: an emoji such as U+1F600 has
      length 2, a letter length 1. */
  lemma JsLengthOfChar(c: char)
    ensures JsLength([c]) == CodeUnits(c)
    ensures JsLength([c]) == if c as int >= 0x1_0000 then 2 else 1
  {
    assert [c][1..] == [];
  }

  /** A slice is no longer, in code units, than the string it is cut from. */
  lemma JsLengthSlice(s: string, lo: int, hi: int)
    requires 0 <= lo <= hi <= |s|
    ensures JsLength(s[lo..hi]) <= JsLength(s)
  {
    JsLengthPrefix(s, hi);
    JsLengthSuffix(s[..hi], lo);
    assert s[..hi][lo..] == s[lo..hi];
  }

  /** A prefix has no more code units than the whole string. */
  lemma JsLengthPrefix(s: string, k: int)
    requires 0 <= k <= |s|
    ensures JsLength(s[..k]) <= JsLength(s)
  {
    assert s[..k] + s[k..] == s;
    JsLengthConcat(s[..k], s[k..]);
  }

  /** A suffix has no more code units than the whole string. */
  lemma {:induction false} JsLengthSuffix(s: string, k: int)
    requires 0 <= k <= |s|
    ensures JsLength(s[k..]) <= JsLength(s)
    decreases k
  {
    if k == 0 {
      assert s[k..] == s;
    } else {
      JsLengthSuffix(s[1..], k - 1);
      assert s[1..][k - 1..] == s[k..];
    }
  }
}
