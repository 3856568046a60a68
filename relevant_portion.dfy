/**
  The completion tokenizer: the text before the cursor is cut right to left
  at `.` and `"` into the token before the last cut (the context) and the
  token after it (the partial word being typed).

  Indices here count characters, where JavaScript counts UTF-16 code units.
  Every index the tokenizer searches for, compares or cuts at holds a `.` or
  a `"`, both single code units, and the character-to-unit position map is
  strictly increasing, so the searches, the `Math.max` and the substrings
  agree. The two places the source uses `text.length` are stated in code
  units: the quote search's start (see `QuoteReachInCodeUnits`) and the
  `> 3` rule (`TokensAt`).
 */
module RelevantPortion {
  import opened Wrappers
  import opened JsStrings

  /** The `[previousToken, newToken]` pair the tokenizer returns. */
  datatype Tokens = Tokens(previous: string, current: string)

  predicate IsDelimiter(c: char) { c == '.' || c == '"' }

  /**
    Index i is a cut point: a `.` anywhere, or a `"` the second search
    reaches, which starts at max(|text| - 2, 0), so a quote in the last
    position counts only when the text is that single character.
   */
  predicate IsCut(text: string, i: int)
  {
    0 <= i < |text| && (text[i] == '.' || (text[i] == '"' && i <= Max(|text| - 2, 0)))
  }

  /**
    The quote search starts at code unit `text.length - 2` (clamped to 0). A
    `"` at character index i sits at code unit `Utf16Length(text[..i])`, and
    that unit is reached exactly when i is within `IsCut`'s character bound.
   */
  lemma QuoteReachInCodeUnits(text: string, i: int)
    requires 0 <= i < |text| && text[i] == '"'
    ensures Utf16Length(text[..i]) <= Max(Utf16Length(text) - 2, 0) <==> i <= Max(|text| - 2, 0)
  {
    assert text == text[..i] + [text[i]] + text[i + 1..];
    Utf16LengthAppend(text[..i] + [text[i]], text[i + 1..]);
    Utf16LengthAppend(text[..i], [text[i]]);
    assert Utf16Length([text[i]]) == 1;
  }

  /** pos is the rightmost cut point. */
  predicate IsLastCut(text: string, pos: int)
  {
    IsCut(text, pos) && forall j :: pos < j < |text| ==> !IsCut(text, j)
  }

  /** q is the rightmost delimiter strictly before pos. */
  predicate IsPreviousDelimiter(text: string, pos: int, q: int)
    requires 0 <= pos < |text|
  {
    0 <= q < pos && IsDelimiter(text[q]) && forall j :: q < j < pos ==> !IsDelimiter(text[j])
  }

  predicate NoDelimiterBefore(text: string, pos: int)
    requires 0 <= pos <= |text|
  {
    forall j :: 0 <= j < pos ==> !IsDelimiter(text[j])
  }

  /** `text.substring(pos + 1)` with one trailing quote removed. */
  function DropTrailingQuote(s: string): (r: string)
    ensures if EndsWith(s, '"') then r == s[..|s| - 1] else r == s
  {
    if EndsWith(s, '"') then Substring(s, 0, |s| - 1) else s
  }

  /** The first search: the later of the last `.` and the last `"` at or before |text| - 2. */
  function CutIndex(text: string): (pos: int)
    ensures pos == -1 <==> forall i :: 0 <= i < |text| ==> !IsCut(text, i)
    ensures pos != -1 ==> IsLastCut(text, pos)
  {
    var dot, quote := LastIndexOf(text, '.'), LastIndexOfFrom(text, '"', |text| - 2);
    var pos := Max(dot, quote);
    assert forall j :: pos < j < |text| ==> !IsCut(text, j) by {
      forall j | pos < j < |text|
        ensures !IsCut(text, j)
      {
        assert dot < j && quote < j;
      }
    }
    assert pos != -1 ==> IsCut(text, pos) by {
      if pos == dot && dot != -1 {
        assert text[pos] == '.';
      } else if pos != -1 {
        assert pos == quote && text[pos] == '"';
      }
    }
    pos
  }

  /**
    The second search, from pos - 1: the last delimiter before pos, or -1.
    At pos == 0 the start position -1 is clamped to 0, so the cut itself is found.
   */
  function PreviousCutIndex(text: string, pos: int): (prevPos: int)
    requires IsCut(text, pos)
    ensures pos == 0 ==> prevPos == 0
    ensures pos > 0 && prevPos == -1 ==> NoDelimiterBefore(text, pos)
    ensures pos > 0 && prevPos != -1 ==> IsPreviousDelimiter(text, pos, prevPos)
  {
    var dot, quote := LastIndexOfFrom(text, '.', pos - 1), LastIndexOfFrom(text, '"', pos - 1);
    var prevPos := Max(dot, quote);
    assert pos > 0 ==> forall j :: prevPos < j < pos ==> !IsDelimiter(text[j]) by {
      if pos > 0 {
        forall j | prevPos < j < pos
          ensures !IsDelimiter(text[j])
        {
          assert dot < j && quote < j;
        }
      }
    }
    prevPos
  }

  /**
    The token pair for the cut at pos and the earlier delimiter at prevPos
    (-1 for none). `text.length - pos` is the number of code units from the
    cut on.
   */
  function TokensAt(text: string, pos: int, prevPos: int): Tokens
    requires 0 <= pos < |text|
  {
    var newToken := DropTrailingQuote(SubstringFrom(text, pos + 1));
    if Utf16Length(text[pos..]) > 3 && prevPos == -1 then Tokens("", newToken)
    else Tokens(Substring(text, prevPos + 1, pos), newToken)
  }

  /** `findRelevantPortion(text)`: None stands for the source's `null`. */
  function FindRelevantPortion(text: string): (r: Option<Tokens>)
  {
    var pos := CutIndex(text);
    if pos == -1 then None
    else Some(TokensAt(text, pos, PreviousCutIndex(text, pos)))
  }

  /** The result is null exactly when the text has no cut point. */
  lemma NullIffNoCut(text: string)
    ensures FindRelevantPortion(text).None? <==> forall i :: 0 <= i < |text| ==> !IsCut(text, i)
  {
  }

  /** The rightmost cut point is unique, so the first search finds it. */
  lemma CutIndexIs(text: string, pos: int)
    requires IsLastCut(text, pos)
    ensures CutIndex(text) == pos
  {
    var p := CutIndex(text);
    assert p != -1 by { assert IsCut(text, pos); }
    assert !(p < pos) by { assert IsLastCut(text, p); }
    assert !(pos < p) by { assert IsCut(text, p); }
  }

  lemma PortionAt(text: string, pos: int)
    requires IsLastCut(text, pos)
    ensures FindRelevantPortion(text) == Some(TokensAt(text, pos, PreviousCutIndex(text, pos)))
  {
    CutIndexIs(text, pos);
  }

  /** The last delimiter before the cut is unique, so the second search finds it. */
  lemma PreviousCutIndexIs(text: string, pos: int, q: int)
    requires IsCut(text, pos) && pos > 0 && IsPreviousDelimiter(text, pos, q)
    ensures PreviousCutIndex(text, pos) == q
  {
    var p := PreviousCutIndex(text, pos);
    assert p != -1 by { assert IsDelimiter(text[q]); }
    assert !(p < q) by { assert IsPreviousDelimiter(text, pos, p); }
    assert !(q < p) by { assert IsDelimiter(text[p]); }
  }

  lemma PreviousCutIndexNone(text: string, pos: int)
    requires IsCut(text, pos) && pos > 0 && NoDelimiterBefore(text, pos)
    ensures PreviousCutIndex(text, pos) == -1
  {
  }

  /** The token pair's new token is what follows the cut, minus one trailing quote. */
  lemma TokensAtCurrent(text: string, pos: int, prevPos: int)
    requires 0 <= pos < |text|
    ensures TokensAt(text, pos, prevPos).current == DropTrailingQuote(text[pos + 1..])
  {
  }

  /** With an earlier delimiter, the previous token is the text between it and the cut. */
  lemma TokensAtPrevious(text: string, pos: int, prevPos: int)
    requires 0 <= prevPos < pos < |text|
    ensures TokensAt(text, pos, prevPos).previous == text[prevPos + 1..pos]
  {
  }

  /** After the last cut only the final character can be a delimiter, and then only a quote. */
  lemma AfterLastCut(text: string, pos: int)
    requires IsLastCut(text, pos)
    ensures forall j :: pos < j < |text| - 1 ==> !IsDelimiter(text[j])
    ensures pos < |text| - 1 ==> text[|text| - 1] != '.'
  {
    forall j | pos < j < |text| - 1
      ensures !IsDelimiter(text[j])
    {
      assert !IsCut(text, j) && j <= Max(|text| - 2, 0);
    }
    if pos < |text| - 1 {
      assert !IsCut(text, |text| - 1);
    }
  }

  /** Dropping the trailing quote of a text whose only possible delimiter is a final quote leaves no delimiter. */
  lemma DropTrailingQuoteClean(s: string)
    requires forall j :: 0 <= j < |s| - 1 ==> !IsDelimiter(s[j])
    requires s != [] ==> s[|s| - 1] != '.'
    ensures '.' !in DropTrailingQuote(s) && '"' !in DropTrailingQuote(s)
  {
    var r := DropTrailingQuote(s);
    forall k | 0 <= k < |r|
      ensures !IsDelimiter(r[k])
    {
      assert r[k] == s[k];
    }
  }

  /**
    With pos the rightmost cut point, the new token is what follows it minus
    one trailing quote, and it holds neither delimiter.
   */
  lemma CurrentToken(text: string, pos: int)
    requires IsLastCut(text, pos)
    ensures FindRelevantPortion(text).Some?
    ensures FindRelevantPortion(text).value.current == DropTrailingQuote(text[pos + 1..])
    ensures '.' !in FindRelevantPortion(text).value.current
    ensures '"' !in FindRelevantPortion(text).value.current
  {
    PortionAt(text, pos);
    TokensAtCurrent(text, pos, PreviousCutIndex(text, pos));
    AfterLastCut(text, pos);
    var tail := text[pos + 1..];
    forall j | 0 <= j < |tail|
      ensures tail[j] == text[pos + 1 + j]
    {
    }
    DropTrailingQuoteClean(tail);
  }

  /** A cut at index 0 makes the delimiter itself the previous token (the reversed substring swaps). */
  lemma PreviousTokenAtStart(text: string)
    requires IsLastCut(text, 0)
    ensures FindRelevantPortion(text) == Some(Tokens(text[..1], DropTrailingQuote(text[1..])))
  {
    PortionAt(text, 0);
    assert PreviousCutIndex(text, 0) == 0;
  }

  /** With an earlier delimiter at q, the previous token is the text between the two cuts. */
  lemma PreviousTokenBetweenCuts(text: string, pos: int, q: int)
    requires IsLastCut(text, pos) && IsPreviousDelimiter(text, pos, q)
    ensures FindRelevantPortion(text) == Some(Tokens(text[q + 1..pos], DropTrailingQuote(text[pos + 1..])))
  {
    PortionAt(text, pos);
    PreviousCutIndexIs(text, pos, q);
    TokensAtCurrent(text, pos, q);
    TokensAtPrevious(text, pos, q);
  }

  /**
    With no delimiter before the cut, the previous token is empty when more
    than three code units remain from the cut on, and otherwise everything
    before the cut.
   */
  lemma PreviousTokenWithoutEarlierCut(text: string, pos: int)
    requires IsLastCut(text, pos) && pos > 0 && NoDelimiterBefore(text, pos)
    ensures Utf16Length(text[pos..]) > 3 ==>
              FindRelevantPortion(text) == Some(Tokens("", DropTrailingQuote(text[pos + 1..])))
    ensures Utf16Length(text[pos..]) <= 3 ==>
              FindRelevantPortion(text) == Some(Tokens(text[..pos], DropTrailingQuote(text[pos + 1..])))
  {
    PortionAt(text, pos);
    PreviousCutIndexNone(text, pos);
  }

  lemma DottedPathCuts(text: string)
    requires text == "a.foo.bar"
    ensures IsLastCut(text, 5) && IsPreviousDelimiter(text, 5, 1)
  {
    assert text[5] == '.' && text[1] == '.';
    forall j | 5 < j < |text|
      ensures !IsCut(text, j)
    {
      assert text[j] == "bar"[j - 6];
    }
    forall j | 1 < j < 5
      ensures !IsDelimiter(text[j])
    {
      assert text[j] == "foo"[j - 2];
    }
  }

  /** Two cuts: the previous token lies between them. */
  lemma ExampleDottedPath(text: string)
    requires text == "a.foo.bar"
    ensures FindRelevantPortion(text) == Some(Tokens("foo", "bar"))
  {
    DottedPathCuts(text);
    PreviousTokenBetweenCuts(text, 5, 1);
    assert text[2..5] == "foo" && text[6..] == "bar";
  }

  /** One cut with more than three characters from it on: no previous context. */
  lemma ExampleBareToken(text: string)
    requires text == "foo.bar"
    ensures FindRelevantPortion(text) == Some(Tokens("", "bar"))
  {
    assert text[3] == '.';
    Utf16LengthOfBmp(text[3..]);
    PreviousTokenWithoutEarlierCut(text, 3);
    assert text[4..] == "bar";
  }

  /** A character above U+FFFF is two code units: five units follow from the cut on, so there is no previous context. */
  lemma ExampleAstralTail(text: string)
    requires text == "a.\U{1F600}\U{1F600}"
    ensures FindRelevantPortion(text) == Some(Tokens("", "\U{1F600}\U{1F600}"))
  {
    assert text[1] == '.';
    var tail := text[1..];
    assert tail == ".\U{1F600}\U{1F600}";
    var units, unit := tail[1..], tail[2..];
    assert units == "\U{1F600}\U{1F600}" && unit == units[1..] == "\U{1F600}" && unit[1..] == [];
    assert Utf16Length(unit) == 2;
    assert Utf16Length(units) == 4;
    assert Utf16Length(tail) == 5;
    PreviousTokenWithoutEarlierCut(text, 1);
  }

  /** One cut close to the end: everything before it is the previous token. */
  lemma ExampleShortTail(text: string)
    requires text == "a.b"
    ensures FindRelevantPortion(text) == Some(Tokens("a", "b"))
  {
    assert text[1] == '.';
    Utf16LengthOfBmp(text[1..]);
    PreviousTokenWithoutEarlierCut(text, 1);
    assert text[..1] == "a" && text[2..] == "b";
  }

  /** A lone dot: the clamped second search finds index 0 again. */
  lemma ExampleLoneDot(text: string)
    requires text == "."
    ensures FindRelevantPortion(text) == Some(Tokens(".", ""))
  {
    assert text[0] == '.';
    PreviousTokenAtStart(text);
    assert text[..1] == "." && text[1..] == [];
  }

  /** A quoted word: the opening quote is the cut, the closing quote is dropped. */
  lemma ExampleQuotedWord(text: string)
    requires text == "\"foo\""
    ensures FindRelevantPortion(text) == Some(Tokens("\"", "foo"))
  {
    assert text[0] == '"' && !IsCut(text, 4);
    PreviousTokenAtStart(text);
    var tail := text[1..];
    assert tail == "foo\"" && text[..1] == "\"";
    assert tail[..3] == "foo";
  }

  /** A quote in the last position is never a cut point. */
  lemma ExampleTrailingQuote(text: string)
    requires text == "foo\""
    ensures FindRelevantPortion(text) == None
  {
    forall i | 0 <= i < |text|
      ensures !IsCut(text, i)
    {
      assert i == 3 || text[i] == 'f' || text[i] == 'o';
    }
    assert CutIndex(text) == -1;
  }

  /** A leading cut: the clamped second search finds the cut itself, which becomes the previous token. */
  lemma ExampleLeadingDot(text: string)
    requires text == ".foo"
    ensures FindRelevantPortion(text) == Some(Tokens(".", "foo"))
  {
    assert text[0] == '.';
    PreviousTokenAtStart(text);
    assert text[..1] == "." && text[1..] == "foo";
  }

  /** The search for an earlier delimiter, confined to the indices before pos. */
  function PreviousCutIndexBefore(text: string, pos: int): (prevPos: int)
    requires IsCut(text, pos)
    ensures prevPos == -1 ==> NoDelimiterBefore(text, pos)
    ensures prevPos != -1 ==> IsPreviousDelimiter(text, pos, prevPos)
  {
    if pos == 0 then -1 else PreviousCutIndex(text, pos)
  }

  /** The tokenizer with the earlier-delimiter search kept strictly before the cut. */
  function FindRelevantPortionCorrected(text: string): (r: Option<Tokens>)
  {
    var pos := CutIndex(text);
    if pos == -1 then None
    else Some(TokensAt(text, pos, PreviousCutIndexBefore(text, pos)))
  }

  /** The corrected tokenizer never puts a delimiter into the previous token. */
  lemma CorrectedPreviousTokenHasNoDelimiter(text: string)
    requires FindRelevantPortionCorrected(text).Some?
    ensures '.' !in FindRelevantPortionCorrected(text).value.previous
    ensures '"' !in FindRelevantPortionCorrected(text).value.previous
  {
    var pos := CutIndex(text);
    var q := PreviousCutIndexBefore(text, pos);
    var prev := TokensAt(text, pos, q).previous;
    assert FindRelevantPortionCorrected(text).value.previous == prev;
    if q != -1 {
      TokensAtPrevious(text, pos, q);
      SliceWithoutDelimiter(text, q + 1, pos);
    } else if Utf16Length(text[pos..]) <= 3 {
      assert prev == text[0..pos];
      SliceWithoutDelimiter(text, 0, pos);
    }
  }

  lemma SliceWithoutDelimiter(text: string, lo: int, hi: int)
    requires 0 <= lo <= hi <= |text|
    requires forall j :: lo <= j < hi ==> !IsDelimiter(text[j])
    ensures '.' !in text[lo..hi] && '"' !in text[lo..hi]
  {
    var t := text[lo..hi];
    forall k | 0 <= k < |t|
      ensures !IsDelimiter(t[k])
    {
      assert t[k] == text[lo + k];
    }
  }

  /** The two tokenizers differ only when the last cut is at index 0: the source's result equals the corrected one elsewhere. */
  lemma CorrectedAgreesAwayFromStart(text: string)
    requires CutIndex(text) != 0
    ensures FindRelevantPortion(text) == FindRelevantPortionCorrected(text)
  {
  }

  /** On ".foo" the corrected tokenizer gives no previous context. */
  lemma ExampleLeadingDotCorrected(text: string)
    requires text == ".foo"
    ensures FindRelevantPortionCorrected(text) == Some(Tokens("", "foo"))
  {
    assert text[0] == '.';
    assert IsLastCut(text, 0);
    assert text[1..] == "foo";
  }
}
