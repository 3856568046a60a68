/**
  Localized-text lookup for a `ReadText(page, line)` hover: every loaded
  language file is searched for the page and text id, each hit is tagged
  with the file's language number and its lines prefixed with it, the hits
  are sorted preferred-language first and joined with blank lines.
 */
module LanguageText {
  import opened Wrappers
  import opened JsStrings
  import opened FileNumbers
  import opened MatchOrder

  /** A parsed `<t id="...">body</t>` element; an absent attribute or body is None. */
  datatype TextElement = TextElement(id: Option<string>, body: Option<string>)

  /** A parsed `<page id="...">` element with its `t` children, if any. */
  datatype PageElement = PageElement(id: Option<string>, texts: Option<seq<TextElement>>)

  /** The `language` root element with its `page` children, if any. */
  datatype LanguageElement = LanguageElement(pages: Option<seq<PageElement>>)

  /** A parsed document: a `language` root, or any other root (None). */
  datatype LanguageDoc = LanguageDoc(language: Option<LanguageElement>)

  /** One entry of the loaded-files map: its path and its parse result (None for a null result). */
  datatype LoadedFile = LoadedFile(path: string, doc: Option<LanguageDoc>)

  /** `xmlData?.language?.page`. */
  function Pages(doc: Option<LanguageDoc>): Option<seq<PageElement>>
  {
    if doc.Some? && doc.value.language.Some? then doc.value.language.value.pages else None
  }

  function PageId(p: PageElement): Option<string> { p.id }

  function TextId(t: TextElement): Option<string> { t.id }

  /** `xs.find(x => x?.$?.id === id)`, as an index: the first element whose id is the given one. */
  function FirstWithId<T>(xs: seq<T>, idOf: T -> Option<string>, id: string): (r: Option<nat>)
    ensures r.Some? ==> r.value < |xs| && idOf(xs[r.value]) == Some(id)
    ensures r.Some? ==> forall k :: 0 <= k < r.value ==> idOf(xs[k]) != Some(id)
    ensures r.None? ==> forall k :: 0 <= k < |xs| ==> idOf(xs[k]) != Some(id)
  {
    if xs == [] then None
    else if idOf(xs[0]) == Some(id) then Some(0)
    else match FirstWithId(xs[1..], idOf, id)
      case None => None
      case Some(i) => Some(i + 1)
  }

  /** The body of the first matching `t` in the first matching page, when it is a non-empty string. */
  function LookupText(doc: Option<LanguageDoc>, pageId: string, textId: string): Option<string>
  {
    match Pages(doc)
    case None => None
    case Some(pages) =>
      match FirstWithId(pages, PageId, pageId)
      case None => None
      case Some(i) =>
        match pages[i].texts
        case None => None
        case Some(texts) =>
          match FirstWithId(texts, TextId, textId)
          case None => None
          case Some(j) =>
            if texts[j].body.Some? && texts[j].body.value != "" then texts[j].body else None
  }

  /** `path.basename(filePath)`: the text after the last `/`. */
  function Basename(path: string): (r: string)
    ensures '/' !in r
  {
    AfterLastIndexOf(path, '/');
    path[LastIndexOf(path, '/') + 1..]
  }

  /** `.map(line => `${fileNumber}: ${line}`)`. */
  function PrefixEach(fileNumber: string, lines: seq<string>): (r: seq<string>)
    ensures |r| == |lines|
    ensures forall i :: 0 <= i < |r| ==> r[i] == fileNumber + ": " + lines[i]
  {
    if lines == [] then [] else [fileNumber + ": " + lines[0]] + PrefixEach(fileNumber, lines[1..])
  }

  /** `body.split('\n').map(...).join('\n')`. */
  function PrefixLines(fileNumber: string, body: string): string
  {
    Join(PrefixEach(fileNumber, Split(body, '\n')), "\n")
  }

  /** The match a file contributes before the language limit, if any. */
  function FileMatch(file: LoadedFile, pageId: string, textId: string): Option<Match>
  {
    match LookupText(file.doc, pageId, textId)
    case None => None
    case Some(body) =>
      var fileNumber := FileNumber(Basename(file.path));
      Some(Match(fileNumber, PrefixLines(fileNumber, body)))
  }

  /** What one file pushes onto `allMatches`. */
  function Contribution(file: LoadedFile, pageId: string, textId: string, preferred: string, limit: bool): seq<Match>
  {
    match FileMatch(file, pageId, textId)
    case None => []
    case Some(m) => if !limit || m.fileNumber == preferred then [m] else []
  }

  /** `allMatches` after the loop over the files, in file order. */
  function AllMatches(files: seq<LoadedFile>, pageId: string, textId: string, preferred: string, limit: bool): seq<Match>
  {
    if files == [] then []
    else
      var last := files[|files| - 1];
      AllMatches(files[..|files| - 1], pageId, textId, preferred, limit)
        + Contribution(last, pageId, textId, preferred, limit)
  }

  function Texts(ms: seq<Match>): (r: seq<string>)
    ensures |r| == |ms|
    ensures forall i :: 0 <= i < |r| ==> r[i] == ms[i].text
  {
    if ms == [] then [] else [ms[0].text] + Texts(ms[1..])
  }

  /** The hover text: the sorted matches joined with blank lines, or '' when there are none. */
  function LanguageTextOf(files: seq<LoadedFile>, pageId: string, textId: string, preferred: string, limit: bool): string
  {
    var sorted := Sort(AllMatches(files, pageId, textId, preferred, limit), preferred);
    if |sorted| > 0 then Join(Texts(sorted), "\n\n") else ""
  }

  /** `config.get("languageNumber") || "44"`: unset or empty means 44. */
  function PreferredLanguage(setting: Option<string>): (r: string)
    ensures r != ""
    ensures setting.Some? && setting.value != "" ==> r == setting.value
    ensures setting.None? || setting.value == "" ==> r == "44"
  {
    if setting.Some? && setting.value != "" then setting.value else "44"
  }

  /** `config.get("limitLanguageOutput") || false`. */
  function LimitOutput(setting: Option<bool>): (r: bool)
    ensures r <==> setting == Some(true)
  {
    setting.Some? && setting.value
  }

  /** `findLanguageText(pageId, textId)` over the loaded files and the two settings. */
  method FindLanguageText(files: seq<LoadedFile>, pageId: string, textId: string,
                          languageSetting: Option<string>, limitSetting: Option<bool>)
    returns (text: string)
    ensures text == LanguageTextOf(files, pageId, textId, PreferredLanguage(languageSetting), LimitOutput(limitSetting))
  {
    var preferred := PreferredLanguage(languageSetting);
    var limit := LimitOutput(limitSetting);
    var allMatches: seq<Match> := [];
    for i := 0 to |files|
      invariant allMatches == AllMatches(files[..i], pageId, textId, preferred, limit)
    {
      AllMatchesStep(files, i, pageId, textId, preferred, limit);
      var file := files[i];
      var found := LookupText(file.doc, pageId, textId);
      if found.Some? {
        var fileNumber := FileNumber(Basename(file.path));
        var m := Match(fileNumber, PrefixLines(fileNumber, found.value));
        assert FileMatch(file, pageId, textId) == Some(m);
        if limit {
          if fileNumber == preferred {
            allMatches := allMatches + [m];
          }
        } else {
          allMatches := allMatches + [m];
        }
      }
    }
    assert files[..|files|] == files;
    allMatches := Sort(allMatches, preferred);
    text := if |allMatches| > 0 then Join(Texts(allMatches), "\n\n") else "";
  }

  /** One more file appends its contribution. */
  lemma AllMatchesStep(files: seq<LoadedFile>, i: nat, pageId: string, textId: string, preferred: string, limit: bool)
    requires i < |files|
    ensures AllMatches(files[..i + 1], pageId, textId, preferred, limit)
         == AllMatches(files[..i], pageId, textId, preferred, limit) + Contribution(files[i], pageId, textId, preferred, limit)
  {
    assert files[..i + 1][..i] == files[..i];
  }

  /** A document without `language.page`, or without a page of the id, contributes nothing. */
  lemma LookupWithoutPage(doc: Option<LanguageDoc>, pageId: string, textId: string)
    requires Pages(doc).None? || forall k :: 0 <= k < |Pages(doc).value| ==> Pages(doc).value[k].id != Some(pageId)
    ensures LookupText(doc, pageId, textId).None?
  {
  }

  /**
    Only the first page with the id and the first `t` with the id in it are
    consulted, and their body counts only when it is a non-empty string.
   */
  lemma LookupUsesFirstMatches(doc: Option<LanguageDoc>, pageId: string, textId: string, i: nat, j: nat)
    requires Pages(doc).Some?
    requires var pages := Pages(doc).value;
      && i < |pages| && pages[i].id == Some(pageId)
      && (forall k :: 0 <= k < i ==> pages[k].id != Some(pageId))
      && pages[i].texts.Some?
      && j < |pages[i].texts.value| && pages[i].texts.value[j].id == Some(textId)
      && (forall k :: 0 <= k < j ==> pages[i].texts.value[k].id != Some(textId))
    ensures var body := Pages(doc).value[i].texts.value[j].body;
      LookupText(doc, pageId, textId) == if body.Some? && body.value != "" then body else None
  {
    var pages := Pages(doc).value;
    var found := FirstWithId(pages, PageId, pageId);
    assert found == Some(i);
    var texts := pages[i].texts.value;
    var foundText := FirstWithId(texts, TextId, textId);
    assert foundText == Some(j);
  }

  /** The first matching page without `t` children, or without a `t` of the id, gives nothing. */
  lemma LookupWithoutText(doc: Option<LanguageDoc>, pageId: string, textId: string, i: nat)
    requires Pages(doc).Some?
    requires var pages := Pages(doc).value;
      && i < |pages| && pages[i].id == Some(pageId)
      && (forall k :: 0 <= k < i ==> pages[k].id != Some(pageId))
      && (pages[i].texts.None? ||
          forall k :: 0 <= k < |pages[i].texts.value| ==> pages[i].texts.value[k].id != Some(textId))
    ensures LookupText(doc, pageId, textId).None?
  {
    var pages := Pages(doc).value;
    var found := FirstWithId(pages, PageId, pageId);
    assert found == Some(i);
  }

  /** Every line of the body becomes one line prefixed with `<fileNumber>: `; the line count is kept. */
  lemma PrefixLinesPerLine(fileNumber: string, body: string)
    requires '\n' !in fileNumber
    ensures |Split(PrefixLines(fileNumber, body), '\n')| == |Split(body, '\n')|
    ensures forall i :: 0 <= i < |Split(body, '\n')| ==>
              Split(PrefixLines(fileNumber, body), '\n')[i] == fileNumber + ": " + Split(body, '\n')[i]
  {
    var lines := Split(body, '\n');
    var prefixed := PrefixEach(fileNumber, lines);
    forall i | 0 <= i < |prefixed|
      ensures '\n' !in prefixed[i]
    {
      assert prefixed[i] == fileNumber + ": " + lines[i];
      assert '\n' !in lines[i];
    }
    SplitJoin(prefixed, '\n');
  }

  /** Removing the prefixes gives back the body: the prefixing loses nothing. */
  lemma PrefixLinesKeepsBody(fileNumber: string, body: string)
    requires '\n' !in fileNumber
    ensures var prefix := fileNumber + ": ";
      Join(Unprefix(|prefix|, Split(PrefixLines(fileNumber, body), '\n')), "\n") == body
  {
    var prefix := fileNumber + ": ";
    var lines := Split(body, '\n');
    var out := Split(PrefixLines(fileNumber, body), '\n');
    PrefixLinesPerLine(fileNumber, body);
    var stripped := Unprefix(|prefix|, out);
    assert stripped == lines by {
      forall i | 0 <= i < |lines|
        ensures stripped[i] == lines[i]
      {
        assert out[i] == prefix + lines[i];
      }
    }
    JoinSplit(body, '\n');
  }

  /** Drop the first k characters of each line (of those that have them). */
  function Unprefix(k: nat, lines: seq<string>): (r: seq<string>)
    ensures |r| == |lines|
    ensures forall i :: 0 <= i < |r| && k <= |lines[i]| ==> r[i] == lines[i][k..]
  {
    if lines == [] then []
    else [if k <= |lines[0]| then lines[0][k..] else lines[0]] + Unprefix(k, lines[1..])
  }

  /** With the limit on, the collected matches are exactly the preferred-language ones of the unlimited run. */
  lemma {:induction false} LimitKeepsPreferredOnly(files: seq<LoadedFile>, pageId: string, textId: string, preferred: string)
    ensures AllMatches(files, pageId, textId, preferred, true)
         == WithNumber(AllMatches(files, pageId, textId, preferred, false), preferred)
    decreases |files|
  {
    if files != [] {
      var init, last := files[..|files| - 1], files[|files| - 1];
      LimitKeepsPreferredOnly(init, pageId, textId, preferred);
      var unlimited := AllMatches(init, pageId, textId, preferred, false);
      var c := Contribution(last, pageId, textId, preferred, false);
      WithNumberAppend(unlimited, c, preferred);
      if c != [] {
        assert c[..0] == [];
      }
    }
  }

  /** Each file contributes at most one match, in file order. */
  lemma {:induction false} AtMostOneMatchPerFile(files: seq<LoadedFile>, pageId: string, textId: string, preferred: string, limit: bool)
    ensures |AllMatches(files, pageId, textId, preferred, limit)| <= |files|
    decreases |files|
  {
    if files != [] {
      AtMostOneMatchPerFile(files[..|files| - 1], pageId, textId, preferred, limit);
    }
  }

  /** Every collected match carries a non-empty text, since each line starts with its number and ": ". */
  lemma {:induction false} MatchTextsNonEmpty(files: seq<LoadedFile>, pageId: string, textId: string, preferred: string, limit: bool)
    ensures forall m :: m in AllMatches(files, pageId, textId, preferred, limit) ==> m.text != ""
    decreases |files|
  {
    if files != [] {
      MatchTextsNonEmpty(files[..|files| - 1], pageId, textId, preferred, limit);
      var fm := FileMatch(files[|files| - 1], pageId, textId);
      if fm.Some? {
        var lines := Split(LookupText(files[|files| - 1].doc, pageId, textId).value, '\n');
        var prefixed := PrefixEach(fm.value.fileNumber, lines);
        assert |prefixed[0]| > 0;
        assert |prefixed| == 1 || Join(prefixed, "\n") == prefixed[0] + "\n" + Join(prefixed[1..], "\n");
      }
    }
  }

  /** The hover text is empty exactly when no file matched. */
  lemma EmptyIffNoMatch(files: seq<LoadedFile>, pageId: string, textId: string, preferred: string, limit: bool)
    ensures LanguageTextOf(files, pageId, textId, preferred, limit) == ""
        <==> AllMatches(files, pageId, textId, preferred, limit) == []
  {
    var all := AllMatches(files, pageId, textId, preferred, limit);
    var sorted := Sort(all, preferred);
    SortPermutes(all, preferred);
    if all != [] {
      assert all[0] in multiset(all);
      assert |sorted| > 0;
      MatchTextsNonEmpty(files, pageId, textId, preferred, limit);
      assert sorted[0] in multiset(sorted);
      var texts := Texts(sorted);
      assert |texts[0]| > 0;
      assert |texts| == 1 || Join(texts, "\n\n") == texts[0] + "\n\n" + Join(texts[1..], "\n\n");
    }
  }

  /** A document holding one page with one `t`. */
  function SingleTextDoc(pageId: string, textId: string, body: string): LanguageDoc
  {
    LanguageDoc(Some(LanguageElement(Some([PageElement(Some(pageId), Some([TextElement(Some(textId), Some(body))]))]))))
  }

  lemma LookupSingleText(pageId: string, textId: string, body: string)
    requires body != ""
    ensures LookupText(Some(SingleTextDoc(pageId, textId, body)), pageId, textId) == Some(body)
  {
  }

  lemma PrefixSingleLine(fileNumber: string, line: string)
    requires '\n' !in line
    ensures PrefixLines(fileNumber, line) == fileNumber + ": " + line
  {
    SplitWithoutSeparator(line, '\n');
  }

  /** The base name of `dir/name` is `name`. */
  lemma BasenameOfJoinedPath(dir: string, name: string)
    requires '/' !in name
    ensures Basename(dir + "/" + name) == name
  {
    var path := dir + "/" + name;
    assert path[|dir|] == '/';
    forall j | |dir| < j < |path|
      ensures path[j] != '/'
    {
      assert path[j] == name[j - |dir| - 1];
    }
    assert LastIndexOf(path, '/') == |dir|;
    assert path[|dir| + 1..] == name;
  }

  lemma ExampleDefaultFileNumber(path: string)
    requires path == "t/0001.xml"
    ensures FileNumber(Basename(path)) == "44"
  {
    BasenameOfJoinedPath("t", "0001.xml");
    assert "t" + "/" + "0001.xml" == "t/0001.xml";
  }

  /** A file whose text is one line contributes that line prefixed with the file's number. */
  lemma SingleLineFileMatch(file: LoadedFile, pageId: string, textId: string, body: string, number: string)
    requires LookupText(file.doc, pageId, textId) == Some(body) && '\n' !in body
    requires FileNumber(Basename(file.path)) == number
    ensures FileMatch(file, pageId, textId) == Some(Match(number, number + ": " + body))
  {
    PrefixSingleLine(number, body);
  }

  lemma NumberedNameHasNoSlash(digits: string, name: string)
    requires AllDigits(digits) && name == "0001-" + digits + ".xml"
    ensures '/' !in name
  {
    forall k | 0 <= k < |name|
      ensures name[k] != '/'
    {
      if k < 5 {
        assert name[k] == "0001-"[k];
      } else if k < 5 + |digits| {
        assert name[k] == digits[k - 5];
      } else {
        assert name[k] == ".xml"[k - 5 - |digits|];
      }
    }
  }

  /** A file named `0001-<digits>.xml` in any directory has its digits, without leading zeros, as number. */
  lemma NumberedFileNumber(dir: string, digits: string)
    requires |digits| > 0 && AllDigits(digits)
    ensures FileNumber(Basename(dir + "/" + ("0001-" + digits + ".xml"))) == StripLeadingZeros(digits)
  {
    var name := "0001-" + digits + ".xml";
    NumberedNameHasNoSlash(digits, name);
    BasenameOfJoinedPath(dir, name);
    FileNumberOfDigitForm(digits);
  }

  /** Such a file's one-line text is tagged with that number. */
  lemma NumberedFileMatch(dir: string, digits: string, doc: Option<LanguageDoc>, pageId: string, textId: string, body: string)
    requires |digits| > 0 && AllDigits(digits)
    requires LookupText(doc, pageId, textId) == Some(body) && '\n' !in body
    ensures var n := StripLeadingZeros(digits);
      FileMatch(LoadedFile(dir + "/" + ("0001-" + digits + ".xml"), doc), pageId, textId) == Some(Match(n, n + ": " + body))
  {
    var path := dir + "/" + ("0001-" + digits + ".xml");
    NumberedFileNumber(dir, digits);
    SingleLineFileMatch(LoadedFile(path, doc), pageId, textId, body, StripLeadingZeros(digits));
  }

  /** Two files, each with one match: both are collected in file order, or only the preferred one under the limit. */
  lemma TwoFileMatches(files: seq<LoadedFile>, pageId: string, textId: string, m0: Match, m1: Match, preferred: string)
    requires |files| == 2
    requires FileMatch(files[0], pageId, textId) == Some(m0)
    requires FileMatch(files[1], pageId, textId) == Some(m1)
    ensures AllMatches(files, pageId, textId, preferred, false) == [m0, m1]
    ensures m0.fileNumber != preferred && m1.fileNumber == preferred ==>
              AllMatches(files, pageId, textId, preferred, true) == [m1]
  {
    assert files[..1][..0] == [] && files[..1] == files[..|files| - 1];
    assert AllMatches(files[..1], pageId, textId, preferred, false) == [m0];
    if m0.fileNumber != preferred && m1.fileNumber == preferred {
      assert AllMatches(files[..1], pageId, textId, preferred, true) == [];
    }
  }

  /** A preferred match collected first stays first. */
  lemma SortPreferredThenOther(m0: Match, m1: Match, preferred: string)
    requires m0.fileNumber == preferred && m1.fileNumber != preferred
    ensures Sort([m0, m1], preferred) == [m0, m1]
  {
    assert [m0, m1][..1] == [m0];
    assert Sort([m0], preferred) == [m0];
    assert Compare(m1, m0, preferred) == 1;
    assert [m0][1..] == [];
    assert Insert(m1, [m0], preferred) == [m0] + Insert(m1, [], preferred);
  }

  /** The texts of two matches, joined with a blank line between them. */
  lemma JoinTwoTexts(m0: Match, m1: Match)
    ensures Join(Texts([m0, m1]), "\n\n") == m0.text + "\n\n" + m1.text
  {
    assert Texts([m0, m1]) == [m0.text, m1.text];
    assert [m0.text, m1.text][1..] == [m1.text];
  }

  lemma ExampleSortedText(m44: Match, m49: Match)
    requires m44 == Match("44", "44: Hello") && m49 == Match("49", "49: Bonjour")
    ensures Join(Texts(Sort([m44, m49], "44")), "\n\n") == "44: Hello\n\n49: Bonjour"
    ensures Join(Texts(Sort([m49], "49")), "\n\n") == "49: Bonjour"
  {
    SortPreferredThenOther(m44, m49, "44");
    JoinTwoTexts(m44, m49);
    assert Sort([m49], "49") == [m49];
    assert Texts([m49]) == [m49.text];
  }

  /**
    Two files hold the same text, in languages 44 and 49: without the limit
    both appear, the preferred 44 first; limited to 49, only the 49 text appears.
   */
  lemma ExampleTwoLanguages(files: seq<LoadedFile>, pageId: string, textId: string)
    requires |files| == 2
    requires FileMatch(files[0], pageId, textId) == Some(Match("44", "44: Hello"))
    requires FileMatch(files[1], pageId, textId) == Some(Match("49", "49: Bonjour"))
    ensures LanguageTextOf(files, pageId, textId, "44", false) == "44: Hello\n\n49: Bonjour"
    ensures LanguageTextOf(files, pageId, textId, "49", true) == "49: Bonjour"
  {
    var m44, m49 := Match("44", "44: Hello"), Match("49", "49: Bonjour");
    TwoFileMatches(files, pageId, textId, m44, m49, "44");
    TwoFileMatches(files, pageId, textId, m44, m49, "49");
    ExampleSortedText(m44, m49);
  }
}
