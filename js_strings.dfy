/**
  The JavaScript string primitives the extension relies on, with their
  ECMAScript edge cases written out: `lastIndexOf` clamps a negative start
  position to 0, `substring` clamps both bounds and swaps them when they are
  reversed, `split` on a one-character separator always yields at least one
  piece, and `localeCompare` is taken as code-unit lexicographic order.

  A string is a sequence of Unicode characters, while JavaScript counts
  UTF-16 code units: a character above U+FFFF is two units. `Utf16Length`
  is the JavaScript `length`, and `CodeUnitKey` orders characters as their
  encodings order.
 */
module JsStrings {

  function Max(a: int, b: int): int { if a < b then b else a }

  function Min(a: int, b: int): int { if a < b then a else b }

  /** Largest k' <= k with s[k'] == c, or -1. */
  function LastIndexAtOrBelow(s: string, c: char, k: int): (r: int)
    requires -1 <= k < |s|
    ensures -1 <= r <= k
    ensures r >= 0 ==> s[r] == c
    ensures forall j :: r < j <= k && 0 <= j ==> s[j] != c
    decreases k + 1
  {
    if k < 0 then -1
    else if s[k] == c then k
    else LastIndexAtOrBelow(s, c, k - 1)
  }

  /** `s.lastIndexOf(c, from)`: the search starts at max(from, 0), clipped to the last index. */
  function LastIndexOfFrom(s: string, c: char, from: int): (r: int)
    ensures -1 <= r < |s|
    ensures r >= 0 ==> s[r] == c && r <= Max(from, 0)
    ensures r == -1 <==> forall j :: 0 <= j < |s| && j <= Max(from, 0) ==> s[j] != c
    ensures forall j :: r < j < |s| && j <= Max(from, 0) ==> s[j] != c
  {
    LastIndexAtOrBelow(s, c, Min(Max(from, 0), |s| - 1))
  }

  /** `s.lastIndexOf(c)`: the search starts at the last index. */
  function LastIndexOf(s: string, c: char): (r: int)
    ensures -1 <= r < |s|
    ensures r >= 0 ==> s[r] == c
    ensures r == -1 <==> forall j :: 0 <= j < |s| ==> s[j] != c
    ensures forall j :: r < j < |s| ==> s[j] != c
  {
    LastIndexOfFrom(s, c, |s|)
  }

  /** Nothing after the last occurrence of c is c. */
  lemma AfterLastIndexOf(s: string, c: char)
    ensures c !in s[LastIndexOf(s, c) + 1..]
  {
    var k := LastIndexOf(s, c);
    var t := s[k + 1..];
    forall i | 0 <= i < |t|
      ensures t[i] != c
    {
      assert t[i] == s[k + 1 + i];
    }
  }

  function Clamp(k: int, n: nat): (r: nat)
    ensures r <= n
  {
    if k < 0 then 0 else if k > n then n else k
  }

  /** `s.substring(a, b)`: both bounds clamped to [0, |s|], swapped when reversed. */
  function Substring(s: string, a: int, b: int): (r: string)
    ensures 0 <= a <= b <= |s| ==> r == s[a..b]
    ensures 0 <= b <= a <= |s| ==> r == s[b..a]
    ensures |r| <= |s|
  {
    var lo, hi := Clamp(a, |s|), Clamp(b, |s|);
    if lo <= hi then s[lo..hi] else s[hi..lo]
  }

  /** `s.substring(a)`: from a (clamped) to the end. */
  function SubstringFrom(s: string, a: int): (r: string)
    ensures 0 <= a <= |s| ==> r == s[a..]
  {
    Substring(s, a, |s|)
  }

  predicate EndsWith(s: string, c: char)
  {
    |s| > 0 && s[|s| - 1] == c
  }

  /** `s.split(sep)` for a one-character separator. */
  function Split(s: string, sep: char): (r: seq<string>)
    ensures |r| >= 1
    ensures forall i :: 0 <= i < |r| ==> sep !in r[i]
  {
    if s == [] then [[]]
    else
      var rest := Split(s[1..], sep);
      if s[0] == sep then [[]] + rest
      else [[s[0]] + rest[0]] + rest[1..]
  }

  /** `parts.join(sep)`. */
  function Join(parts: seq<string>, sep: string): (r: string)
    ensures |parts| == 1 ==> r == parts[0]
    ensures |parts| == 0 ==> r == []
  {
    if |parts| == 0 then []
    else if |parts| == 1 then parts[0]
    else parts[0] + sep + Join(parts[1..], sep)
  }

  /** Joining the pieces of a split restores the original text. */
  lemma {:induction false} JoinSplit(s: string, sep: char)
    ensures Join(Split(s, sep), [sep]) == s
  {
    if s != [] {
      var rest := Split(s[1..], sep);
      JoinSplit(s[1..], sep);
      if s[0] == sep {
        assert Split(s, sep) == [[]] + rest;
        assert ([[]] + rest)[1..] == rest;
      } else {
        var parts := [[s[0]] + rest[0]] + rest[1..];
        assert Split(s, sep) == parts;
        if |rest| == 1 {
          assert Join(rest, [sep]) == rest[0];
        } else {
          assert parts[1..] == rest[1..];
          assert Join(rest, [sep]) == rest[0] + [sep] + Join(rest[1..], [sep]);
        }
      }
    }
  }

  lemma {:induction false} SplitWithoutSeparator(x: string, sep: char)
    requires sep !in x
    ensures Split(x, sep) == [x]
  {
    if x != [] {
      SplitWithoutSeparator(x[1..], sep);
      assert [x[0]] + x[1..] == x;
    }
  }

  lemma {:induction false} SplitAtSeparator(x: string, sep: char, y: string)
    requires sep !in x
    ensures Split(x + [sep] + y, sep) == [x] + Split(y, sep)
  {
    if x == [] {
      assert x + [sep] + y == [sep] + y;
      assert ([sep] + y)[1..] == y;
    } else {
      var s := x + [sep] + y;
      assert s[1..] == x[1..] + [sep] + y;
      SplitAtSeparator(x[1..], sep, y);
      assert [x[0]] + x[1..] == x;
    }
  }

  /** Splitting pieces that do not contain the separator, once joined, gives them back. */
  lemma {:induction false} SplitJoin(parts: seq<string>, sep: char)
    requires |parts| >= 1
    requires forall i :: 0 <= i < |parts| ==> sep !in parts[i]
    ensures Split(Join(parts, [sep]), sep) == parts
  {
    if |parts| == 1 {
      SplitWithoutSeparator(parts[0], sep);
    } else {
      SplitJoin(parts[1..], sep);
      SplitAtSeparator(parts[0], sep, Join(parts[1..], [sep]));
      assert [parts[0]] + parts[1..] == parts;
    }
  }

  /** The number of UTF-16 code units that encode c. */
  function CodeUnits(c: char): nat
  {
    if c as int < 0x1_0000 then 1 else 2
  }

  /** `s.length`: the number of UTF-16 code units of s. */
  function Utf16Length(s: string): (r: nat)
    ensures |s| <= r <= 2 * |s|
  {
    if s == [] then 0 else CodeUnits(s[0]) + Utf16Length(s[1..])
  }

  lemma {:induction false} Utf16LengthAppend(a: string, b: string)
    ensures Utf16Length(a + b) == Utf16Length(a) + Utf16Length(b)
  {
    if a != [] {
      assert (a + b)[0] == a[0] && (a + b)[1..] == a[1..] + b;
      Utf16LengthAppend(a[1..], b);
    } else {
      assert a + b == b;
    }
  }

  /** A text of characters up to U+FFFF has one code unit per character. */
  lemma {:induction false} Utf16LengthOfBmp(s: string)
    requires forall i :: 0 <= i < |s| ==> s[i] as int < 0x1_0000
    ensures Utf16Length(s) == |s|
  {
    if s != [] {
      Utf16LengthOfBmp(s[1..]);
    }
  }

  /**
    Where c sorts among characters when strings are compared by UTF-16 code
    units: below U+D800 a character is its own unit; a character above U+FFFF
    starts with a high surrogate (U+D800 to U+DBFF), so it sorts after those
    and in scalar order among its kind; a character from U+E000 to U+FFFF
    sorts after every surrogate.
   */
  function CodeUnitKey(c: char): (k: int)
    ensures 0 <= k
    ensures c as int < 0xD800 ==> k < 0xD800
    ensures 0x1_0000 <= c as int ==> 0xD800 <= k <= 0x10_FFFF
    ensures 0xE000 <= c as int < 0x1_0000 ==> 0x10_FFFF < k
  {
    if c as int < 0xD800 then c as int
    else if c as int < 0x1_0000 then c as int + 0x11_0000
    else c as int
  }

  /** Different characters have different keys. */
  lemma CodeUnitKeyInjective(c: char, d: char)
    requires CodeUnitKey(c) == CodeUnitKey(d)
    ensures c == d
  {
  }

  /** Code-unit lexicographic comparison: -1, 0 or 1. */
  function LexCompare(a: string, b: string): (r: int)
    ensures -1 <= r <= 1
  {
    if a == [] && b == [] then 0
    else if a == [] then -1
    else if b == [] then 1
    else if CodeUnitKey(a[0]) < CodeUnitKey(b[0]) then -1
    else if CodeUnitKey(a[0]) > CodeUnitKey(b[0]) then 1
    else LexCompare(a[1..], b[1..])
  }

  lemma {:induction false} LexCompareZero(a: string, b: string)
    ensures LexCompare(a, b) == 0 <==> a == b
  {
    if a != [] && b != [] && CodeUnitKey(a[0]) == CodeUnitKey(b[0]) {
      CodeUnitKeyInjective(a[0], b[0]);
      LexCompareZero(a[1..], b[1..]);
      assert a == [a[0]] + a[1..] && b == [b[0]] + b[1..];
    }
  }

  lemma {:induction false} LexCompareAntisymmetric(a: string, b: string)
    ensures LexCompare(a, b) == -LexCompare(b, a)
  {
    if a != [] && b != [] && CodeUnitKey(a[0]) == CodeUnitKey(b[0]) {
      LexCompareAntisymmetric(a[1..], b[1..]);
    }
  }

  lemma {:induction false} LexCompareTransitive(a: string, b: string, c: string)
    requires LexCompare(a, b) <= 0 && LexCompare(b, c) <= 0
    ensures LexCompare(a, c) <= 0
  {
    if a != [] && b != [] && c != [] && CodeUnitKey(a[0]) == CodeUnitKey(b[0]) == CodeUnitKey(c[0]) {
      LexCompareTransitive(a[1..], b[1..], c[1..]);
    }
  }
}
