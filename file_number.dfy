/**
  The language/file number of a localized-text file, derived from its file
  name: `0001.xml` is the default language 44; `0001-<letter><digits>.xml`
  and `0001-<digits>.xml` give their digits; anything else falls back to the
  first `0001-?[a-zA-Z]?(\d+)` match, or `Unknown`. Leading zeros are
  stripped from the digits.

  Each regular expression is written as a predicate "the pattern matches
  starting at index i"; the engine's leftmost match is the least such i.
 */
module FileNumbers {
  import opened Wrappers

  predicate IsDigit(c: char) { '0' <= c <= '9' }

  predicate IsLetter(c: char) { 'a' <= c <= 'z' || 'A' <= c <= 'Z' }

  predicate AllDigits(s: string) { forall i :: 0 <= i < |s| ==> IsDigit(s[i]) }

  /** A derived number: digits without a leading zero (possibly empty, as `/^0+/` can eat them all). */
  predicate IsCanonicalNumber(s: string) { AllDigits(s) && (s == [] || s[0] != '0') }

  /** `.replace(/^0+/, '')`. */
  function StripLeadingZeros(s: string): (r: string)
    ensures |r| <= |s| && r == s[|s| - |r|..]
    ensures forall i :: 0 <= i < |s| - |r| ==> s[i] == '0'
    ensures r == [] || r[0] != '0'
    ensures AllDigits(s) ==> IsCanonicalNumber(r)
  {
    if s != [] && s[0] == '0' then StripLeadingZeros(s[1..]) else s
  }

  /** The longest run of digits starting at index k: what a greedy `\d+` takes. */
  function DigitRun(f: string, k: nat): (r: string)
    requires k <= |f|
    ensures k + |r| <= |f| && r == f[k..k + |r|]
    ensures AllDigits(r)
    ensures k + |r| == |f| || !IsDigit(f[k + |r|])
    decreases |f| - k
  {
    if k < |f| && IsDigit(f[k]) then [f[k]] + DigitRun(f, k + 1) else []
  }

  /** `/0001-[a-zA-Z](\d+)\.xml$/` matches from index i; the group is f[i + 6..|f| - 4]. */
  predicate LetterFormAt(f: string, i: nat)
  {
    && i + 11 <= |f|
    && f[i..i + 5] == "0001-"
    && IsLetter(f[i + 5])
    && AllDigits(f[i + 6..|f| - 4])
    && f[|f| - 4..] == ".xml"
  }

  /** `/0001-(\d+)\.xml$/` matches from index i; the group is f[i + 5..|f| - 4]. */
  predicate DigitFormAt(f: string, i: nat)
  {
    && i + 10 <= |f|
    && f[i..i + 5] == "0001-"
    && AllDigits(f[i + 5..|f| - 4])
    && f[|f| - 4..] == ".xml"
  }

  /**
    The group of `/0001-?[a-zA-Z]?(\d+)/` when it matches from index i. The
    engine tries the optional `-` and letter present first and backtracks to
    leave them out; `\d+` is greedy and nothing follows it, so it takes the
    whole digit run.
   */
  function FallbackGroupAt(f: string, i: nat): (r: Option<string>)
    ensures r.Some? ==> |r.value| > 0 && AllDigits(r.value)
  {
    if !(i + 4 <= |f| && f[i..i + 4] == "0001") then None
    else
      var j := i + 4;
      if j + 2 < |f| && f[j] == '-' && IsLetter(f[j + 1]) && IsDigit(f[j + 2]) then Some(DigitRun(f, j + 2))
      else if j + 1 < |f| && f[j] == '-' && IsDigit(f[j + 1]) then Some(DigitRun(f, j + 1))
      else if j + 1 < |f| && IsLetter(f[j]) && IsDigit(f[j + 1]) then Some(DigitRun(f, j + 1))
      else if j < |f| && IsDigit(f[j]) then Some(DigitRun(f, j))
      else None
  }

  predicate FallbackAt(f: string, i: nat) { FallbackGroupAt(f, i).Some? }

  /** The three regular expressions of the derivation, in the order they are tried. */
  datatype Pattern = LetterForm | DigitForm | Fallback

  predicate MatchesAt(p: Pattern, f: string, i: nat)
  {
    match p
    case LetterForm => LetterFormAt(f, i)
    case DigitForm => DigitFormAt(f, i)
    case Fallback => FallbackAt(f, i)
  }

  /** The least index from `from` on where p matches: where a regular expression search succeeds. */
  function FirstMatch(p: Pattern, f: string, from: nat): (r: Option<nat>)
    ensures r.Some? ==> from <= r.value <= |f| && MatchesAt(p, f, r.value)
    ensures r.Some? ==> forall k :: from <= k < r.value ==> !MatchesAt(p, f, k)
    ensures r.None? ==> forall k :: from <= k ==> !MatchesAt(p, f, k)
    decreases |f| + 1 - from
  {
    if from > |f| then None
    else if MatchesAt(p, f, from) then Some(from)
    else FirstMatch(p, f, from + 1)
  }

  /** The file number derived from a file name. */
  function FileNumber(f: string): (r: string)
  {
    if f == "0001.xml" then "44"
    else match FirstMatch(LetterForm, f, 0)
      case Some(i) => StripLeadingZeros(f[i + 6..|f| - 4])
      case None =>
        match FirstMatch(DigitForm, f, 0)
        case Some(i) => StripLeadingZeros(f[i + 5..|f| - 4])
        case None =>
          match FirstMatch(Fallback, f, 0)
          case Some(i) => StripLeadingZeros(FallbackGroupAt(f, i).value)
          case None => "Unknown"
  }

  /** A pattern that matches at index 0 is found there. */
  lemma FirstMatchAtStart(p: Pattern, f: string)
    requires MatchesAt(p, f, 0)
    ensures FirstMatch(p, f, 0) == Some(0)
  {
  }

  /** A pattern that matches nowhere is not found. */
  lemma FirstMatchNowhere(p: Pattern, f: string)
    requires forall i: nat :: !MatchesAt(p, f, i)
    ensures FirstMatch(p, f, 0) == None
  {
  }

  lemma FileNumberByLetterForm(f: string, i: nat)
    requires f != "0001.xml" && FirstMatch(LetterForm, f, 0) == Some(i)
    ensures FileNumber(f) == StripLeadingZeros(f[i + 6..|f| - 4])
  {
  }

  lemma FileNumberByDigitForm(f: string, i: nat)
    requires f != "0001.xml" && FirstMatch(LetterForm, f, 0) == None
    requires FirstMatch(DigitForm, f, 0) == Some(i)
    ensures FileNumber(f) == StripLeadingZeros(f[i + 5..|f| - 4])
  {
  }

  lemma FileNumberByFallback(f: string, i: nat)
    requires f != "0001.xml" && FirstMatch(LetterForm, f, 0) == None && FirstMatch(DigitForm, f, 0) == None
    requires FirstMatch(Fallback, f, 0) == Some(i)
    ensures FileNumber(f) == StripLeadingZeros(FallbackGroupAt(f, i).value)
  {
  }

  /** Every file number is 44, Unknown, or a digit string without leading zeros; none holds a line break. */
  lemma FileNumberShape(f: string)
    ensures var r := FileNumber(f); r == "44" || r == "Unknown" || IsCanonicalNumber(r)
    ensures '\n' !in FileNumber(f)
  {
    var r := FileNumber(f);
    if r != "44" && r != "Unknown" {
      assert IsCanonicalNumber(r);
      assert forall k :: 0 <= k < |r| ==> r[k] != '\n';
    }
  }

  /** Where the letter form matches, the fallback matches too: `0001-`, a letter, then at least one digit. */
  lemma LetterFormIsFallback(f: string, i: nat)
    requires LetterFormAt(f, i)
    ensures FallbackAt(f, i)
  {
    assert f[i..i + 5][4] == f[i + 4] == '-';
    assert f[i..i + 4] == f[i..i + 5][..4];
    assert f[i + 6] == f[i + 6..|f| - 4][0];
  }

  /** Where the digit form matches, the fallback matches too: `0001-`, then at least one digit. */
  lemma DigitFormIsFallback(f: string, i: nat)
    requires DigitFormAt(f, i)
    ensures FallbackAt(f, i)
  {
    assert f[i..i + 5][4] == f[i + 4] == '-';
    assert f[i..i + 4] == f[i..i + 5][..4];
    assert f[i + 5] == f[i + 5..|f| - 4][0];
  }

  /** The number is `Unknown` exactly when the name is not `0001.xml` and the fallback matches nowhere. */
  lemma FileNumberUnknown(f: string)
    ensures FileNumber(f) == "Unknown" <==> f != "0001.xml" && forall i: nat :: !FallbackAt(f, i)
  {
    if f != "0001.xml" && forall i: nat :: !FallbackAt(f, i) {
      forall i: nat
        ensures !LetterFormAt(f, i) && !DigitFormAt(f, i)
      {
        if LetterFormAt(f, i) { LetterFormIsFallback(f, i); }
        if DigitFormAt(f, i) { DigitFormIsFallback(f, i); }
      }
      FirstMatchNowhere(LetterForm, f);
      FirstMatchNowhere(DigitForm, f);
      FirstMatchNowhere(Fallback, f);
    } else if f != "0001.xml" {
      var r := FileNumber(f);
      assert r != "Unknown" by {
        var i: nat :| FallbackAt(f, i);
        assert MatchesAt(Fallback, f, i);
        assert IsCanonicalNumber(r);
        assert !IsDigit("Unknown"[0]);
      }
    }
  }

  lemma LetterFormParts(letter: char, digits: string, f: string)
    requires IsLetter(letter) && |digits| > 0 && AllDigits(digits)
    requires f == "0001-" + [letter] + digits + ".xml"
    ensures f != "0001.xml" && LetterFormAt(f, 0) && f[6..|f| - 4] == digits
  {
    assert |f| != 8;
    assert f[0..5] == "0001-" && f[5] == letter;
    assert f[6..|f| - 4] == digits;
    assert f[|f| - 4..] == ".xml";
  }

  /** `0001-<letter><digits>.xml` gives its digits without leading zeros. */
  lemma FileNumberOfLetterForm(letter: char, digits: string)
    requires IsLetter(letter) && |digits| > 0 && AllDigits(digits)
    ensures FileNumber("0001-" + [letter] + digits + ".xml") == StripLeadingZeros(digits)
  {
    var f := "0001-" + [letter] + digits + ".xml";
    LetterFormParts(letter, digits, f);
    FirstMatchAtStart(LetterForm, f);
    FileNumberByLetterForm(f, 0);
  }

  lemma DigitFormParts(digits: string, f: string)
    requires |digits| > 0 && AllDigits(digits)
    requires f == "0001-" + digits + ".xml"
    ensures f != "0001.xml" && DigitFormAt(f, 0) && f[5..|f| - 4] == digits
  {
    assert |f| != 8;
    assert f[0..5] == "0001-";
    assert f[5..|f| - 4] == digits;
    assert f[|f| - 4..] == ".xml";
  }

  /** In `0001-<digits>.xml` the only '-' is at index 4 and index 5 holds a digit, so no letter form matches. */
  lemma DigitFormHasNoLetterForm(digits: string, f: string)
    requires |digits| > 0 && AllDigits(digits)
    requires f == "0001-" + digits + ".xml"
    ensures forall i: nat :: !LetterFormAt(f, i)
  {
    assert forall k :: 0 <= k < |f| && k != 4 ==> f[k] != '-' by {
      forall k | 0 <= k < |f| && k != 4
        ensures f[k] != '-'
      {
        if 5 <= k < |f| - 4 {
          assert f[k] == digits[k - 5];
        }
      }
    }
    assert !IsLetter(f[5]) by { assert f[5] == digits[0]; }
    forall i: nat
      ensures !LetterFormAt(f, i)
    {
      if i + 11 <= |f| && i != 0 {
        assert f[i..i + 5][4] == f[i + 4];
      }
    }
  }

  /** `0001-<digits>.xml` gives its digits without leading zeros. */
  lemma FileNumberOfDigitForm(digits: string)
    requires |digits| > 0 && AllDigits(digits)
    ensures FileNumber("0001-" + digits + ".xml") == StripLeadingZeros(digits)
  {
    var f := "0001-" + digits + ".xml";
    DigitFormParts(digits, f);
    DigitFormHasNoLetterForm(digits, f);
    FirstMatchNowhere(LetterForm, f);
    FirstMatchAtStart(DigitForm, f);
    FileNumberByDigitForm(f, 0);
  }

  lemma FileNumberOfDefaultFile()
    ensures FileNumber("0001.xml") == "44"
  {
  }

  /** The anchored forms need the name to end in `.xml`. */
  lemma AnchoredFormsNeedXml(f: string)
    requires |f| < 4 || f[|f| - 4..] != ".xml"
    ensures forall i: nat :: !LetterFormAt(f, i) && !DigitFormAt(f, i)
  {
  }

  lemma FallbackParts(f: string)
    requires f == "0001-l007.xml.bak"
    ensures f != "0001.xml"
    ensures |f| < 4 || f[|f| - 4..] != ".xml"
    ensures FallbackGroupAt(f, 0) == Some("007")
  {
    assert f[|f| - 4..] == ".bak";
    FallbackGroup(f);
  }

  lemma FallbackGroup(f: string)
    requires f == "0001-l007.xml.bak"
    ensures FallbackGroupAt(f, 0) == Some("007")
  {
    assert f[0..4] == "0001" && f[4] == '-' && IsLetter(f[5]) && IsDigit(f[6]);
    assert f[6] == '0' && f[7] == '0' && f[8] == '7' && !IsDigit(f[9]);
    assert DigitRun(f, 9) == [];
    assert DigitRun(f, 6) == "007";
  }

  /** A name that matches only the fallback: the digits after `0001-l`, the rest of the name ignored. */
  lemma FileNumberOfFallback(f: string)
    requires f == "0001-l007.xml.bak"
    ensures FileNumber(f) == "7"
  {
    FallbackParts(f);
    AnchoredFormsNeedXml(f);
    FirstMatchNowhere(LetterForm, f);
    FirstMatchNowhere(DigitForm, f);
    FirstMatchAtStart(Fallback, f);
    FileNumberByFallback(f, 0);
    assert StripLeadingZeros("007") == "7" by {
      assert "007"[1..] == "07" && "07"[1..] == "7";
    }
  }
}
