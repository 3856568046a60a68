# X4CodeComplete core, modelled in Dafny

X4CodeComplete is a VS Code extension for X4: Foundations scripting. It
offers completions and hovers. This project models the pure and stateful
core of its `src/extension.ts`:

- **The completion tokenizer** `findRelevantPortion` (module `RelevantPortion`).
  It cuts the text before the cursor, right to left, at `.` and `"`. The
  result is a pair: the previous token (the context) and the new token (the
  partial word being typed). When the text has no cut point, the result is
  `null`.
- **The symbol-graph node** `TypeEntry` (module `TypeEntries`). It holds an
  insertion-ordered property map, an optional supertype and a set of
  literals. `addProperty` and `addLiteral` update it in place. Here it is a
  class whose methods are specified against the pure `EntryValue` updates.
- **The localized-text lookup** `findLanguageText` (modules `LanguageText`,
  `FileNumbers`, `MatchOrder`). For a `ReadText(page, line)` hover it:
  - searches every loaded language document for the page and text id;
  - derives a language number from the file name;
  - applies the "limit to preferred language" setting;
  - prefixes every line of each match with its number;
  - sorts the matches with the preferred language first;
  - joins them with blank lines.

  The method `FindLanguageText` keeps the source's loop over the loaded
  files and its `push`es. It is proved equal to the function
  `LanguageTextOf`, and the lemmas state their properties about that
  function.

Module `JsStrings` gives the JavaScript string primitives these use, with
their ECMAScript edge cases:

- `lastIndexOf` clamps a negative start position to 0.
- `substring` clamps both bounds and swaps them when they are reversed.
- `split` on a one-character separator always yields at least one piece.
- `join` is defined on sequences of pieces.
- `length` is `Utf16Length`: a character above U+FFFF counts as two UTF-16
  code units.
- `localeCompare` is modelled as UTF-16 code-unit lexicographic order, an
  assumption. `CodeUnitKey` places each character where its first code unit
  sorts. The locale-dependent collation is not modelled.

A Dafny string is a sequence of Unicode characters, so indices count
characters where JavaScript counts code units. The tokenizer only searches
for, compares and cuts at `.` and `"`, which are one code unit each, and
the character-to-unit position map is strictly increasing. So its searches,
its `Math.max` and its substrings give the same tokens either way. The two
places that use `text.length` are stated in code units: the start of the
quote search (`QuoteReachInCodeUnits`) and the `> 3` rule (`TokensAt`).

`Array.prototype.sort` is stable (ECMAScript 2019 and later). It is modelled
as the stable insertion sort `MatchOrder.Sort`.

The loaded-files map is the input: a sequence of `(path, parsed document)`
pairs in the map's insertion order. The parsed document is the shape xml2js
produces: `language.page[]` with `$.id`, and `t[]` with `$.id` and body `_`.
Any absent part is `None`. The two settings are parameters:

- `languageNumber`: unset or `""` means `"44"`.
- `limitLanguageOutput`: unset means `false`.

Two consequences of the code that a reader may not expect:

- The limit keeps only matches whose number equals the preferred number
  (src/extension.ts:174-175). So the `44` of `0001.xml` is dropped unless
  44 is the preferred number.
- Only `language.page` is read (src/extension.ts:136-140). A document of
  any other shape contributes nothing.

## Model

| member | source | states |
|---|---|---|
| JsStrings.LastIndexAtOrBelow | src/extension.ts:38 | the result is the largest index at or below k holding c, or -1 when there is none |
| JsStrings.LastIndexOfFrom | src/extension.ts:46 | `lastIndexOf(c, from)`: searches from max(from, 0); -1 exactly when no index up to there holds c; no later index up to there holds c |
| JsStrings.LastIndexOf | src/extension.ts:38 | `lastIndexOf(c)`: the last index holding c; -1 exactly when c does not occur |
| JsStrings.AfterLastIndexOf | src/extension.ts:147 | no character after the last occurrence of c is c |
| JsStrings.Substring | src/extension.ts:42-44 | `substring(a, b)` is the slice between the bounds in either order; never longer than the text |
| JsStrings.SubstringFrom | src/extension.ts:42 | `substring(a)` is the suffix from a |
| JsStrings.Split | src/extension.ts:178 | `split('\n')` gives at least one piece, and no piece holds the separator |
| JsStrings.Join | src/extension.ts:178 | joining one piece gives that piece; joining none gives the empty string |
| JsStrings.JoinSplit | src/extension.ts:178 | joining the pieces of a split with the separator restores the text |
| JsStrings.SplitWithoutSeparator | src/extension.ts:178 | a text without the separator splits into itself alone |
| JsStrings.SplitAtSeparator | src/extension.ts:178 | splitting `x + sep + y` gives x followed by the pieces of y |
| JsStrings.SplitJoin | src/extension.ts:178 | splitting the join of separator-free pieces gives the pieces back |
| JsStrings.Utf16Length | src/extension.ts:48 | `text.length`: at least one and at most two code units per character |
| JsStrings.Utf16LengthAppend | src/extension.ts:48 | the code-unit length of a concatenation is the sum of the lengths |
| JsStrings.Utf16LengthOfBmp | src/extension.ts:48 | a text of characters up to U+FFFF has as many code units as characters |
| JsStrings.CodeUnitKey | src/extension.ts:195 | characters below U+D800 sort by value and below every other character; characters above U+FFFF sort after them, as their high surrogate does; characters from U+E000 to U+FFFF sort last |
| JsStrings.CodeUnitKeyInjective | src/extension.ts:195 | different characters have different keys |
| JsStrings.LexCompare | src/extension.ts:195 | the UTF-16 code-unit comparison gives -1, 0 or 1; its order is fixed by the three lemmas below |
| JsStrings.LexCompareZero | src/extension.ts:195 | the comparison is 0 exactly when the strings are equal |
| JsStrings.LexCompareAntisymmetric | src/extension.ts:195 | swapping the arguments negates the comparison |
| JsStrings.LexCompareTransitive | src/extension.ts:195 | the comparison is a transitive order |
| RelevantPortion.DropTrailingQuote | src/extension.ts:43-45 | a trailing `"` is removed; a text that does not end in `"` is returned unchanged |
| RelevantPortion.QuoteReachInCodeUnits | src/extension.ts:38 | a `"` at character index i lies at or before code unit `length - 2` (clamped to 0) exactly when i is within the character bound `IsCut` uses |
| RelevantPortion.CutIndex | src/extension.ts:38-41 | -1 exactly when there is no cut point: no `.` anywhere and no `"` at an index at most max(length - 2, 0); otherwise the rightmost cut point |
| RelevantPortion.PreviousCutIndex | src/extension.ts:46 | at a cut at index 0 the clamped search returns 0; otherwise the last delimiter before the cut, or -1 when there is none |
| RelevantPortion.CutIndexIs | src/extension.ts:38 | the first search returns the rightmost cut point whenever there is one |
| RelevantPortion.PreviousCutIndexIs | src/extension.ts:46 | for a cut after index 0, the second search returns the last delimiter before it |
| RelevantPortion.PreviousCutIndexNone | src/extension.ts:46 | for a cut after index 0 with no delimiter before it, the second search returns -1 |
| RelevantPortion.AfterLastCut | src/extension.ts:38 | after the last cut no character is a delimiter except possibly a final `"` |
| RelevantPortion.TokensAt | src/extension.ts:42-52 | the token pair for a cut and an earlier delimiter, with the `> 3` rule in code units; what it yields is stated by `CurrentToken` and the three `PreviousToken` lemmas |
| RelevantPortion.FindRelevantPortion | src/extension.ts:37-53 | `findRelevantPortion`; it is fixed over all inputs by `NullIffNoCut`, `CurrentToken`, `PreviousTokenAtStart`, `PreviousTokenBetweenCuts` and `PreviousTokenWithoutEarlierCut` |
| RelevantPortion.NullIffNoCut | src/extension.ts:37-41 | the result is null exactly when the text has no cut point |
| RelevantPortion.CurrentToken | src/extension.ts:42-45 | the new token is the text after the last cut minus one trailing `"`, and it holds neither `.` nor `"` |
| RelevantPortion.PreviousTokenAtStart | src/extension.ts:46-52 | with the last cut at index 0, the previous token is the delimiter itself (the reversed substring is swapped) |
| RelevantPortion.PreviousTokenBetweenCuts | src/extension.ts:46-52 | with an earlier delimiter at q, the previous token is the text strictly between q and the cut |
| RelevantPortion.PreviousTokenWithoutEarlierCut | src/extension.ts:46-52 | with no earlier delimiter, the previous token is empty when more than three UTF-16 code units remain from the cut on, otherwise everything before the cut |
| RelevantPortion.ExampleDottedPath | src/extension.ts:37-53 | `a.foo.bar` gives `["foo", "bar"]` |
| RelevantPortion.ExampleBareToken | src/extension.ts:48-49 | `foo.bar` gives `["", "bar"]` |
| RelevantPortion.ExampleAstralTail | src/extension.ts:48-49 | `a.` followed by two characters above U+FFFF gives `["", <those two>]`: five code units remain from the cut on |
| RelevantPortion.ExampleShortTail | src/extension.ts:51-52 | `a.b` gives `["a", "b"]` |
| RelevantPortion.ExampleLoneDot | src/extension.ts:46-52 | `.` gives `[".", ""]` |
| RelevantPortion.ExampleQuotedWord | src/extension.ts:38-52 | `"foo"` gives `["\"", "foo"]`: the closing quote is dropped |
| RelevantPortion.ExampleTrailingQuote | src/extension.ts:38-41 | `foo"` gives null: a quote in the last position is not a cut point |
| RelevantPortion.ExampleLeadingDot | src/extension.ts:46-52 | `.foo` gives `[".", "foo"]`, as the code is written |
| RelevantPortion.PreviousCutIndexBefore | src/extension.ts:46 | the corrected search: -1 exactly when no delimiter precedes the cut, otherwise the last delimiter before it |
| RelevantPortion.FindRelevantPortionCorrected | src/extension.ts:46-52 | the tokenizer with the corrected search; its properties are `CorrectedPreviousTokenHasNoDelimiter` and `CorrectedAgreesAwayFromStart` |
| RelevantPortion.CorrectedPreviousTokenHasNoDelimiter | src/extension.ts:46-52 | with the corrected search, the previous token never holds `.` or `"` |
| RelevantPortion.CorrectedAgreesAwayFromStart | src/extension.ts:46-52 | the source's tokenizer and the corrected one agree unless the last cut is at index 0 |
| RelevantPortion.ExampleLeadingDotCorrected | src/extension.ts:46-52 | with the corrected search, `.foo` gives `["", "foo"]` |
| TypeEntries.EntryValue.WithProperty | src/extension.ts:59-61 | `properties.set(name, type)`: name maps to type and every other key is unchanged; a new key is appended to the key order, an existing key keeps its place; supertype and literals are unchanged |
| TypeEntries.EntryValue.WithLiteral | src/extension.ts:62-64 | `literals.add(value)`: the literal set gains value; properties, key order and supertype are unchanged |
| TypeEntries.LastWriteWins | src/extension.ts:59-61 | setting a property twice equals setting it to the second type only |
| TypeEntries.AddLiteralIdempotent | src/extension.ts:62-64 | adding a literal twice equals adding it once |
| TypeEntries.PropertyAndLiteralCommute | src/extension.ts:56-64 | a property update and a literal update commute |
| TypeEntries.RegisterAll | src/extension.ts:59-61 | successive `addProperty(name, type)` calls; stated by `OrderOfRegistration`, `TypesOfRegistration` and `RegisterAllKeepsValid` |
| TypeEntries.OrderOfRegistration | src/extension.ts:56-61 | registering distinct new names, each with its own type, one after another appends them to the key order in that order |
| TypeEntries.TypesOfRegistration | src/extension.ts:59-61 | after registering distinct names, each name maps to the type it was registered with, and every other property keeps its type |
| TypeEntries.WithPropertyKeepsValid | src/extension.ts:59-61 | setting a property keeps the key order a duplicate-free listing of exactly the keys |
| TypeEntries.RegisterAllKeepsValid | src/extension.ts:59-61 | any sequence of `(name, type)` registrations keeps the key order a duplicate-free listing of exactly the keys |
| TypeEntries.TypeEntry.constructor | src/extension.ts:55-58 | a new entry has no properties, no supertype and no literals |
| TypeEntries.TypeEntry.AddProperty | src/extension.ts:59-61 | the new state is the old one with the property set (type defaults to `""`); well-formedness is kept |
| TypeEntries.TypeEntry.AddLiteral | src/extension.ts:62-64 | the new state is the old one with the literal added; well-formedness is kept |
| FileNumbers.StripLeadingZeros | src/extension.ts:156 | `replace(/^0+/, '')`: the result is a suffix of the input, only `0`s are removed, the result does not start with `0`, and digits become a canonical number (possibly empty) |
| FileNumbers.DigitRun | src/extension.ts:164 | a greedy `\d+`: the longest run of digits from k |
| FileNumbers.FallbackGroupAt | src/extension.ts:164 | a group the fallback expression captures is a non-empty digit string |
| FileNumbers.FirstMatch | src/extension.ts:154-164 | a regular-expression search: the least index from which the pattern matches, or none when no index does |
| FileNumbers.LetterFormAt | src/extension.ts:154 | `/0001-[a-zA-Z](\d+)\.xml$/` matches from index i; used by `FileNumberByLetterForm` and `LetterFormParts` |
| FileNumbers.DigitFormAt | src/extension.ts:159 | `/0001-(\d+)\.xml$/` matches from index i; used by `FileNumberByDigitForm` and `DigitFormParts` |
| FileNumbers.FileNumber | src/extension.ts:150-170 | the number derived from a file name; stated by `FileNumberByLetterForm`, `FileNumberByDigitForm`, `FileNumberByFallback`, `FileNumberUnknown` and `FileNumberShape` |
| FileNumbers.FirstMatchAtStart | src/extension.ts:154-164 | a pattern that matches at index 0 is found there |
| FileNumbers.FirstMatchNowhere | src/extension.ts:154-164 | a pattern that matches at no index is not found |
| FileNumbers.AnchoredFormsNeedXml | src/extension.ts:154-159 | a name not ending in `.xml` matches neither anchored form |
| FileNumbers.FileNumberByLetterForm | src/extension.ts:153-156 | when `0001-<letter><digits>.xml` matches, the number is its digits without leading zeros |
| FileNumbers.FileNumberByDigitForm | src/extension.ts:158-161 | when only `0001-<digits>.xml` matches, the number is its digits without leading zeros |
| FileNumbers.FileNumberByFallback | src/extension.ts:163-167 | when only the fallback matches, the number is its first match's digits without leading zeros |
| FileNumbers.FileNumberShape | src/extension.ts:150-170 | every number is `44`, `Unknown` or a digit string without leading zeros, and none holds a line break |
| FileNumbers.LetterFormIsFallback | src/extension.ts:154-164 | wherever the letter form matches, the fallback matches too |
| FileNumbers.DigitFormIsFallback | src/extension.ts:159-164 | wherever the digit form matches, the fallback matches too |
| FileNumbers.FileNumberUnknown | src/extension.ts:163-167 | the number is `Unknown` exactly when the name is not `0001.xml` and the fallback matches at no index |
| FileNumbers.LetterFormParts | src/extension.ts:154 | `0001-<letter><digits>.xml` matches the letter form at index 0 with group `<digits>` |
| FileNumbers.FileNumberOfLetterForm | src/extension.ts:153-156 | `0001-<letter><digits>.xml` has its digits without leading zeros as number |
| FileNumbers.DigitFormParts | src/extension.ts:159 | `0001-<digits>.xml` matches the digit form at index 0 with group `<digits>` |
| FileNumbers.DigitFormHasNoLetterForm | src/extension.ts:154 | the letter form matches nowhere in `0001-<digits>.xml` |
| FileNumbers.FileNumberOfDigitForm | src/extension.ts:158-161 | `0001-<digits>.xml` has its digits without leading zeros as number |
| FileNumbers.FileNumberOfDefaultFile | src/extension.ts:150-151 | `0001.xml` has number `44` |
| FileNumbers.FallbackParts | src/extension.ts:164 | `0001-l007.xml.bak` does not end in `.xml`, and the fallback captures `007` at index 0 |
| FileNumbers.FileNumberOfFallback | src/extension.ts:163-167 | `0001-l007.xml.bak` has number `7` |
| MatchOrder.Compare | src/extension.ts:192-196 | the comparator returns -1, 0 or 1 |
| MatchOrder.CompareAntisymmetric | src/extension.ts:193-195 | swapping the arguments negates the comparator, and it is 0 exactly for equal numbers |
| MatchOrder.PrecedesTotal | src/extension.ts:192-196 | of two matches one may always precede the other |
| MatchOrder.PrecedesTransitive | src/extension.ts:192-196 | the comparator's order is transitive |
| MatchOrder.SameNumberPrecedes | src/extension.ts:195 | matches with equal numbers compare as equal |
| MatchOrder.WithNumber | src/extension.ts:174-175 | the matches kept by a number filter all carry that number, and there are no more of them than matches |
| MatchOrder.WithNumberMembers | src/extension.ts:174-175 | the filter keeps exactly the matches of the number: a match is in the result if and only if it is in the input and carries the number |
| MatchOrder.WithNumberAll | src/extension.ts:174-175 | matches that all carry the number pass the filter unchanged |
| MatchOrder.WithNumberAppend | src/extension.ts:174-175 | filtering a concatenation is concatenating the filtered parts |
| MatchOrder.WithNumberNone | src/extension.ts:174-175 | filtering matches that all carry other numbers gives nothing |
| MatchOrder.Insert | src/extension.ts:192 | inserting adds exactly one element to the multiset of matches |
| MatchOrder.Sort | src/extension.ts:192-196 | `allMatches.sort(comparator)`; stated by `SortPermutes`, `SortSorts`, `SortStable` and `PreferredFirst` |
| MatchOrder.BeforeHead | src/extension.ts:192-196 | a match that strictly precedes the head of a sorted sequence precedes all of it and shares its number with none of it |
| MatchOrder.InsertSorted | src/extension.ts:192-196 | inserting into a sorted sequence keeps it sorted |
| MatchOrder.InsertStable | src/extension.ts:192-196 | insertion places a match after every match of its own number |
| MatchOrder.SortPermutes | src/extension.ts:192-196 | the sorted matches are a permutation of the collected ones |
| MatchOrder.SortSorts | src/extension.ts:192-196 | the sorted matches are ordered by the comparator |
| MatchOrder.SortStable | src/extension.ts:192-196 | the sort is stable: the matches of each number keep their collection order |
| MatchOrder.PreferredFirst | src/extension.ts:193-194 | in the sorted output every preferred-language match comes before every other match |
| LanguageText.FirstWithId | src/extension.ts:138-145 | `find(x => x?.$?.id === id)` on pages and on texts: the first element with the id, or none when no element has it |
| LanguageText.LookupText | src/extension.ts:136-146 | the body of the first `t` of the id in the first page of the id; stated by `LookupWithoutPage`, `LookupUsesFirstMatches`, `LookupWithoutText` and `LookupSingleText` |
| LanguageText.Basename | src/extension.ts:147 | the base name holds no `/` |
| LanguageText.PrefixEach | src/extension.ts:178 | each line becomes `<number>: <line>`, and the count is kept |
| LanguageText.PrefixLines | src/extension.ts:178 | the line-prefixed text; stated by `PrefixLinesPerLine`, `PrefixLinesKeepsBody` and `PrefixSingleLine` |
| LanguageText.FileMatch | src/extension.ts:146-186 | the match a file yields before the limit; stated by `SingleLineFileMatch` and `NumberedFileMatch` |
| LanguageText.Contribution | src/extension.ts:174-187 | what one file pushes, with or without the limit; stated by `LimitKeepsPreferredOnly` and `AtMostOneMatchPerFile` |
| LanguageText.AllMatches | src/extension.ts:135-190 | the matches collected over the files, in file order; stated by `AllMatchesStep`, `LimitKeepsPreferredOnly`, `AtMostOneMatchPerFile` and `MatchTextsNonEmpty` |
| LanguageText.LanguageTextOf | src/extension.ts:192-200 | the hover text; stated by `EmptyIffNoMatch`, `ExampleTwoLanguages` and, for the loop, `FindLanguageText` |
| LanguageText.PreferredLanguage | src/extension.ts:126 | never empty: an unset or empty setting gives `"44"`, and a non-empty setting is taken as it is |
| LanguageText.LimitOutput | src/extension.ts:127 | the limit is on exactly when the setting is `true` |
| LanguageText.Texts | src/extension.ts:199 | `map(match => match.text)`: the texts of the matches, in order |
| LanguageText.FindLanguageText | src/extension.ts:124-201 | the loop over the loaded files, the sort and the join give exactly `LanguageTextOf` for the preferred number and limit the settings give |
| LanguageText.AllMatchesStep | src/extension.ts:135-187 | one more file appends exactly its contribution to the collected matches |
| LanguageText.LookupWithoutPage | src/extension.ts:136-140 | a document without `language.page`, or without a page of the id, contributes nothing |
| LanguageText.LookupUsesFirstMatches | src/extension.ts:138-146 | only the first page with the id and its first text with the id are consulted; the body counts only when it is a non-empty string |
| LanguageText.LookupWithoutText | src/extension.ts:142-146 | when the first page with the id has no `t` children, or no `t` of the id, the file contributes nothing |
| LanguageText.PrefixLinesPerLine | src/extension.ts:178 | the prefixed text has as many lines as the body, and each is the body's line prefixed with `<number>: ` |
| LanguageText.PrefixLinesKeepsBody | src/extension.ts:178 | removing the prefixes from the lines gives back the body |
| LanguageText.LimitKeepsPreferredOnly | src/extension.ts:174-187 | with the limit on, the matches are exactly the preferred-number ones of the unlimited run, in the same order |
| LanguageText.AtMostOneMatchPerFile | src/extension.ts:135-190 | each file contributes at most one match |
| LanguageText.MatchTextsNonEmpty | src/extension.ts:176-186 | every collected match has a non-empty text |
| LanguageText.EmptyIffNoMatch | src/extension.ts:198-200 | the hover text is `''` exactly when no file matched |
| LanguageText.LookupSingleText | src/extension.ts:135-146 | a document whose one page holds one `t` of the ids gives that `t`'s non-empty body |
| LanguageText.PrefixSingleLine | src/extension.ts:178 | a one-line body becomes `<number>: <body>` |
| LanguageText.BasenameOfJoinedPath | src/extension.ts:147 | the base name of `dir/name` is `name` |
| LanguageText.ExampleDefaultFileNumber | src/extension.ts:147-151 | `t/0001.xml` is tagged `44` |
| LanguageText.SingleLineFileMatch | src/extension.ts:146-186 | a file whose found text is one line contributes that line prefixed with the file's number |
| LanguageText.NumberedFileNumber | src/extension.ts:147-161 | a file `<dir>/0001-<digits>.xml` is tagged with its digits without leading zeros |
| LanguageText.NumberedFileMatch | src/extension.ts:146-186 | such a file's one-line text is contributed prefixed with that number |
| LanguageText.TwoFileMatches | src/extension.ts:135-187 | two matching files give both matches in file order; under the limit only the one of the preferred number |
| LanguageText.SortPreferredThenOther | src/extension.ts:192-196 | a preferred match collected before another one stays first |
| LanguageText.ExampleSortedText | src/extension.ts:192-200 | the matches of 44 and 49, with 44 preferred, join to `44: Hello`, a blank line, then `49: Bonjour`; the 49 match alone gives its text |
| LanguageText.ExampleTwoLanguages | src/extension.ts:124-201 | with two files holding "Hello" for 44 and "Bonjour" for 49: unlimited with 44 preferred gives both, 44 first; limited to 49 gives only the 49 text |

## Left out

- `loadLanguageFiles` (src/extension.ts:68-122) is not modelled. It walks directories, reads files and parses them with xml2js, which is I/O and a foreign library. Its output, the loaded-files map, is the input of `FindLanguageText`.
- `validateSettings` and `activate` (src/extension.ts:18-35, 204-270) are not modelled. They are VS Code configuration, error pop-ups and hover and completion registration.
- The `console.log`/`console.error` logging carries no semantics and is not modelled.
- `FindLanguageText`: the assignment to the module-level `limitLanguage` variable (src/extension.ts:127) is a side effect on a global that nothing in the core reads back. The setting is only passed on as a value.
- `FindLanguageText`: the configuration read is replaced by the two setting parameters. The preferred number is assumed to be a string, so the loose `==` at src/extension.ts:175 and the strict `===` at src/extension.ts:193 agree.
- `MatchOrder.Compare`: `localeCompare` is locale-dependent collation and is modelled as UTF-16 code-unit lexicographic order. Any collation that is a total order behaves the same way in the lemmas, but the concrete order of non-preferred numbers may differ.
- `MatchOrder.Sort`: the in-place `Array.prototype.sort` on the local `allMatches` array is modelled as a function on the sequence. The array is local and is not aliased, so only its final contents matter. The sort is stable, as ECMAScript requires.
- `JsStrings`: `lastIndexOf`, `substring` and the indices they take and return count characters, not UTF-16 code units. The tokenizer uses them only at `.` and `"`, where both counts give the same tokens; that correspondence is argued above, not proved. Of the two steps that use `length`, the quote search's start is proved to agree (`QuoteReachInCodeUnits`) and the `> 3` rule is computed in code units (`TokensAt`).
- `LanguageText.Basename` takes the text after the last `/` only. Windows separators and trailing separators are not modelled.
- `LanguageText.LookupText`: the body counts when xml2js gives a non-empty string. Other truthy non-string values are not modelled.
- `TypeEntries.TypeEntry`: nothing in this file sets `supertype`, so only its preservation is stated. The iteration order of the literal set is not modelled; it is a plain set.

## Findings

| source | as written | input that shows it | evidently intended | confidence | as-written member | corrected member |
|---|---|---|---|---|---|---|
| src/extension.ts:46 | when the last cut is at index 0, `lastIndexOf(c, pos - 1)` is called with -1. That start position is clamped to 0, so the search finds the cut itself. `substring(1, 0)` is then swapped, and the delimiter becomes the previous token | `.foo` gives `[".", "foo"]` | the search covers only the indices before the cut, so there is no previous context: `.foo` gives `["", "foo"]` | medium, not executed | RelevantPortion.ExampleLeadingDot | RelevantPortion.CorrectedPreviousTokenHasNoDelimiter |
