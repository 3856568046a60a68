/**
  The ordering of localized-text matches: the comparator puts matches of
  the preferred language first and orders the rest by `localeCompare` of
  their file numbers (UTF-16 code-unit order here); `Array.prototype.sort` is
  stable, which an insertion sort models exactly.
 */
module MatchOrder {
  import opened JsStrings

  /** One localized-text match: its file number and its line-prefixed text. */
  datatype Match = Match(fileNumber: string, text: string)

  /** The sort callback: negative when a goes first, positive when b goes first. */
  function Compare(a: Match, b: Match, preferred: string): (r: int)
    ensures -1 <= r <= 1
  {
    if a.fileNumber == preferred && b.fileNumber != preferred then -1
    else if b.fileNumber == preferred && a.fileNumber != preferred then 1
    else LexCompare(a.fileNumber, b.fileNumber)
  }

  /** a may precede b in the sorted output. */
  predicate Precedes(a: Match, b: Match, preferred: string)
  {
    Compare(a, b, preferred) <= 0
  }

  /** The comparator is consistent: reversing the arguments negates it, and 0 means equal numbers. */
  lemma CompareAntisymmetric(a: Match, b: Match, preferred: string)
    ensures Compare(a, b, preferred) == -Compare(b, a, preferred)
    ensures Compare(a, b, preferred) == 0 <==> a.fileNumber == b.fileNumber
  {
    LexCompareAntisymmetric(a.fileNumber, b.fileNumber);
    LexCompareZero(a.fileNumber, b.fileNumber);
  }

  lemma PrecedesTotal(a: Match, b: Match, preferred: string)
    ensures Precedes(a, b, preferred) || Precedes(b, a, preferred)
  {
    CompareAntisymmetric(a, b, preferred);
  }

  lemma PrecedesTransitive(a: Match, b: Match, c: Match, preferred: string)
    requires Precedes(a, b, preferred) && Precedes(b, c, preferred)
    ensures Precedes(a, c, preferred)
  {
    var p := preferred;
    if a.fileNumber != p && b.fileNumber != p && c.fileNumber != p {
      LexCompareTransitive(a.fileNumber, b.fileNumber, c.fileNumber);
    } else if a.fileNumber == p && c.fileNumber == p {
      LexCompareZero(a.fileNumber, c.fileNumber);
    }
  }

  /** Equal file numbers compare as equal, so a stable sort keeps them in input order. */
  lemma SameNumberPrecedes(a: Match, b: Match, preferred: string)
    requires a.fileNumber == b.fileNumber
    ensures Precedes(a, b, preferred) && Precedes(b, a, preferred)
  {
    CompareAntisymmetric(a, b, preferred);
  }

  ghost predicate Sorted(s: seq<Match>, preferred: string)
  {
    forall i, j :: 0 <= i < j < |s| ==> Precedes(s[i], s[j], preferred)
  }

  /** The matches with file number n, in order: `filter(m => m.fileNumber == n)`. */
  function WithNumber(s: seq<Match>, n: string): (r: seq<Match>)
    ensures |r| <= |s|
    ensures forall i :: 0 <= i < |r| ==> r[i].fileNumber == n
  {
    if s == [] then []
    else WithNumber(s[..|s| - 1], n) + (if s[|s| - 1].fileNumber == n then [s[|s| - 1]] else [])
  }

  lemma {:induction false} WithNumberAppend(a: seq<Match>, b: seq<Match>, n: string)
    ensures WithNumber(a + b, n) == WithNumber(a, n) + WithNumber(b, n)
    decreases |b|
  {
    if b == [] {
      assert a + b == a;
    } else {
      var b' := b[..|b| - 1];
      assert (a + b)[..|a + b| - 1] == a + b';
      assert (a + b)[|a + b| - 1] == b[|b| - 1];
      WithNumberAppend(a, b', n);
    }
  }

  /** The filter keeps exactly the matches of number n. */
  lemma {:induction false} WithNumberMembers(s: seq<Match>, n: string)
    ensures forall m :: m in WithNumber(s, n) <==> m in s && m.fileNumber == n
    decreases |s|
  {
    if s != [] {
      var init := s[..|s| - 1];
      WithNumberMembers(init, n);
      assert s == init + [s[|s| - 1]];
    }
  }

  /** Matches that all carry number n pass the filter unchanged. */
  lemma {:induction false} WithNumberAll(s: seq<Match>, n: string)
    requires forall i :: 0 <= i < |s| ==> s[i].fileNumber == n
    ensures WithNumber(s, n) == s
    decreases |s|
  {
    if s != [] {
      WithNumberAll(s[..|s| - 1], n);
      assert s[..|s| - 1] + [s[|s| - 1]] == s;
    }
  }

  lemma {:induction false} WithNumberNone(s: seq<Match>, n: string)
    requires forall i :: 0 <= i < |s| ==> s[i].fileNumber != n
    ensures WithNumber(s, n) == []
    decreases |s|
  {
    if s != [] {
      WithNumberNone(s[..|s| - 1], n);
    }
  }

  /** Insert x into a sorted sequence after every element that may precede it. */
  function Insert(x: Match, s: seq<Match>, preferred: string): (r: seq<Match>)
    ensures |r| == |s| + 1
    ensures multiset(r) == multiset(s) + multiset{x}
  {
    if s == [] then [x]
    else if Compare(x, s[0], preferred) < 0 then [x] + s
    else
      assert s == [s[0]] + s[1..];
      [s[0]] + Insert(x, s[1..], preferred)
  }

  /** When x strictly precedes the head of a sorted s, it precedes all of s and shares no number with it. */
  lemma BeforeHead(x: Match, s: seq<Match>, preferred: string)
    requires Sorted(s, preferred) && s != [] && Compare(x, s[0], preferred) < 0
    ensures forall j :: 0 <= j < |s| ==> Precedes(x, s[j], preferred) && s[j].fileNumber != x.fileNumber
  {
    CompareAntisymmetric(x, s[0], preferred);
    forall j | 0 <= j < |s|
      ensures Precedes(x, s[j], preferred) && s[j].fileNumber != x.fileNumber
    {
      if j > 0 {
        PrecedesTransitive(x, s[0], s[j], preferred);
        if s[j].fileNumber == x.fileNumber {
          SameNumberPrecedes(s[j], x, preferred);
          PrecedesTransitive(s[0], s[j], x, preferred);
        }
      }
    }
  }

  /** Prepending an element that may precede every element of a sorted sequence keeps it sorted. */
  lemma ConsSorted(a: Match, rest: seq<Match>, preferred: string)
    requires Sorted(rest, preferred)
    requires forall j :: 0 <= j < |rest| ==> Precedes(a, rest[j], preferred)
    ensures Sorted([a] + rest, preferred)
  {
    var r := [a] + rest;
    forall i, j | 0 <= i < j < |r|
      ensures Precedes(r[i], r[j], preferred)
    {
      assert r[j] == rest[j - 1];
      if i > 0 { assert r[i] == rest[i - 1]; }
    }
  }

  /** When x goes after the head, the head may precede everything the rest becomes. */
  lemma HeadPrecedesInserted(x: Match, s: seq<Match>, rest: seq<Match>, preferred: string)
    requires Sorted(s, preferred) && s != [] && Compare(x, s[0], preferred) >= 0
    requires rest == Insert(x, s[1..], preferred)
    ensures forall j :: 0 <= j < |rest| ==> Precedes(s[0], rest[j], preferred)
  {
    CompareAntisymmetric(x, s[0], preferred);
    forall j | 0 <= j < |rest|
      ensures Precedes(s[0], rest[j], preferred)
    {
      assert rest[j] in multiset(rest);
      if rest[j] != x {
        assert rest[j] in multiset(s[1..]);
        var k :| 0 <= k < |s[1..]| && s[1..][k] == rest[j];
        assert s[k + 1] == rest[j];
      }
    }
  }

  /** Inserting into a sorted sequence keeps it sorted. */
  lemma {:induction false} InsertSorted(x: Match, s: seq<Match>, preferred: string)
    requires Sorted(s, preferred)
    ensures Sorted(Insert(x, s, preferred), preferred)
  {
    if s == [] {
    } else if Compare(x, s[0], preferred) < 0 {
      BeforeHead(x, s, preferred);
      ConsSorted(x, s, preferred);
    } else {
      assert Sorted(s[1..], preferred);
      InsertSorted(x, s[1..], preferred);
      var rest := Insert(x, s[1..], preferred);
      HeadPrecedesInserted(x, s, rest, preferred);
      ConsSorted(s[0], rest, preferred);
    }
  }

  /** Inserting x in front of a sorted s: its number filter gains x in front, where no match of its number is. */
  lemma InsertStableFront(x: Match, s: seq<Match>, preferred: string, n: string)
    requires Sorted(s, preferred) && s != [] && Compare(x, s[0], preferred) < 0
    ensures WithNumber([x] + s, n) == WithNumber(s, n) + (if x.fileNumber == n then [x] else [])
  {
    WithNumberAppend([x], s, n);
    assert [x][..0] == [];
    if x.fileNumber == n {
      BeforeHead(x, s, preferred);
      WithNumberNone(s, n);
    }
  }

  /** Insertion places x after every match of its own number: the order among equal numbers is kept. */
  lemma {:induction false} InsertStable(x: Match, s: seq<Match>, preferred: string, n: string)
    requires Sorted(s, preferred)
    ensures WithNumber(Insert(x, s, preferred), n) == WithNumber(s, n) + (if x.fileNumber == n then [x] else [])
  {
    if s == [] {
      assert [x][..0] == [];
    } else if Compare(x, s[0], preferred) < 0 {
      InsertStableFront(x, s, preferred, n);
    } else {
      var rest := Insert(x, s[1..], preferred);
      assert Sorted(s[1..], preferred);
      InsertStable(x, s[1..], preferred, n);
      InsertStableBehind(x, s, rest, n);
    }
  }

  /** Inserting x behind the head: the head's part of the number filter stays in front. */
  lemma InsertStableBehind(x: Match, s: seq<Match>, rest: seq<Match>, n: string)
    requires s != []
    requires WithNumber(rest, n) == WithNumber(s[1..], n) + (if x.fileNumber == n then [x] else [])
    ensures WithNumber([s[0]] + rest, n) == WithNumber(s, n) + (if x.fileNumber == n then [x] else [])
  {
    WithNumberAppend([s[0]], rest, n);
    WithNumberAppend([s[0]], s[1..], n);
    assert [s[0]] + s[1..] == s;
  }

  /** `allMatches.sort(comparator)`: a stable sort by the comparator. */
  function Sort(s: seq<Match>, preferred: string): (r: seq<Match>)
    decreases |s|
  {
    if s == [] then []
    else Insert(s[|s| - 1], Sort(s[..|s| - 1], preferred), preferred)
  }

  /** The sorted sequence is a permutation of the input. */
  lemma {:induction false} SortPermutes(s: seq<Match>, preferred: string)
    ensures multiset(Sort(s, preferred)) == multiset(s)
    decreases |s|
  {
    if s != [] {
      var init, last := s[..|s| - 1], s[|s| - 1];
      SortPermutes(init, preferred);
      assert init + [last] == s;
    }
  }

  /** The sorted sequence is ordered by the comparator. */
  lemma {:induction false} SortSorts(s: seq<Match>, preferred: string)
    ensures Sorted(Sort(s, preferred), preferred)
    decreases |s|
  {
    if s != [] {
      var init := s[..|s| - 1];
      SortSorts(init, preferred);
      InsertSorted(s[|s| - 1], Sort(init, preferred), preferred);
    }
  }

  /** The sort is stable: the matches of each file number keep their input order. */
  lemma {:induction false} SortStable(s: seq<Match>, preferred: string, n: string)
    ensures WithNumber(Sort(s, preferred), n) == WithNumber(s, n)
    decreases |s|
  {
    if s != [] {
      var init := s[..|s| - 1];
      SortStable(init, preferred, n);
      SortSorts(init, preferred);
      InsertStable(s[|s| - 1], Sort(init, preferred), preferred, n);
    }
  }

  /** In the sorted output every preferred-language match comes before every other match. */
  lemma PreferredFirst(s: seq<Match>, preferred: string, i: int, j: int)
    requires 0 <= i < j < |Sort(s, preferred)|
    requires Sort(s, preferred)[j].fileNumber == preferred
    ensures Sort(s, preferred)[i].fileNumber == preferred
  {
    SortSorts(s, preferred);
  }
}
