# Resume text structurer

This project models the text-structuring engine of the resume service's
`parseResume` handler in `controllers/resumeController.js`, and proves
properties of that model. Once an uploaded document has been turned into one
string, the engine turns the string into a record
`{personalInfo, summary, experience, education, skills}` in four steps.

- **Section locator** (`identifySections`). The text is split into lines. A
  line is a header when its trimmed, lower-cased form is longer than 2 and
  shorter than 40 characters and contains a keyword of one of the section
  types. The types are tried in the order summary, experience, education,
  skills, and the first one that matches wins. The anchors are collected in
  line order and then sorted by line index.
- **Section slicer** (`extractSectionText`). It takes the first anchor of
  the requested type and returns the lines after it, up to the next anchor
  in the list or to the end of the text, joined by `\n` and trimmed. It
  returns `""` when no anchor of that type exists.
- **Field extractors.**
  - Personal information: the email is the first match of the email pattern
    and the phone the first match of the phone pattern. The full name is the
    first non-blank line, trimmed, unless it mentions "resume".
  - Skills: dictionary terms found case-insensitively anywhere in the text,
    then the tokens of the skills section. The section is split on `,`, `•`
    and newline, and a token is kept when its trimmed length is between 3
    and 24. Everything goes into an insertion-ordered set, cut to 20
    entries.
  - Experience and education: the section is cut into blocks at blank lines
    (the separator `\n\s*\n`). Blocks whose trimmed length is at most 20
    (experience) or 10 (education) are dropped. Each kept block becomes one
    entry, filled from its non-blank trimmed lines by position.
- **Assembly** of the record.

The modules follow that structure.

- `Text` holds the JavaScript string built-ins the engine uses:
  - `trim`, over the ECMAScript white-space and line-terminator set;
  - ASCII `toLowerCase`;
  - `includes`;
  - `split` on single characters and `join`;
  - array `slice`.
- `Sections` holds the keyword table, the header classifier, the locator
  (method `IdentifySections`, a loop with a `break` and a sort) and the
  slicer.
- `Patterns` holds exact leftmost-match scanners for the two regular
  expressions of the service:
  - the email pattern is matched greedily with backtracking to the last
    `.`;
  - the phone pattern is enumerated as its 144 alternatives, in the order
    the backtracking engine tries them.
- `Personal` holds the name heuristic and the personal-information object.
- `Skills` holds the dictionary pass and the token pass. Method
  `CollectSkills` fills the set in two loops.
- `Blocks` holds `split(/\n\s*\n/)`, following the regular-expression split
  algorithm of ECMA-262: find the next separator, cut there, and resume
  after the match.
- `Entries` holds the block filter and the positional fields of experience
  and education entries.
- `Parser` holds the record and the whole pipeline. `Structure` is the pure
  function. Method `ParseResume` fills the record field by field, as the
  handler does.

The section keywords and the skills dictionary are parameters, gathered in
`Parser.Config`. `Parser.DefaultConfig` holds the tables the service ships
with.

The fallbacks `'Unknown Company'` and `'Unknown School'` are written into the
model, but they can never be used. A block is kept only when its trimmed
text is non-empty, so it always has at least one non-blank line
(`Entries.NonBlankBlockHasLine`).

Only tokens longer than two characters are kept, so a two-character skill
such as "Go" can only come from the dictionary pass (`Skills.SkillsSpec`,
last clause).

Every `filter` of the engine keeps the order of its input. The model states
this once, for the generic `Text.Kept`: `Text.KeptSelect` lists the kept
positions, in increasing order. Each filter of the engine is then proved equal
to `Kept` of its input and test (`Personal.NonBlankLinesKept`,
`Entries.TrimmedLinesKept`, `Entries.LongBlocksKept`,
`Skills.DictionaryHitsKept`, `Skills.KeepTokensKept`, `Skills.AddAllKept`).

The blank-line split is pinned down completely. `Blocks.SplitBlocksSpec` shows
that its cuts are leftmost and longest: each cut is made at the first blank
line, and the separator runs to the last line feed of the white-space run
that follows. `Blocks.LeftmostLongestUnique` shows that only one way of
cutting has these properties. So "a\n\n\nb" splits into "a" and "b" only.

## Model

| member | source | states |
|---|---|---|
| Sections.ClassifyIff | controllers/resumeController.js:19-27 | a line is classified as type t exactly when its trimmed lower-cased form has length in (2, 40), mentions a keyword of t, and mentions no keyword of a type tried before t |
| Sections.Classify | controllers/resumeController.js:19-27 | the header test of one line; its meaning is stated by `Sections.ClassifyIff` |
| Sections.LineKinds | controllers/resumeController.js:18-28 | one classification per line of the text; `Sections.LineKindsAt` states that each is the line's own |
| Sections.LineKindsAt | controllers/resumeController.js:18-28 | the per-line kinds computed over all lines agree with classifying each line on its own |
| Sections.IdentifySections | controllers/resumeController.js:14-33 | the forEach/push/break loop followed by the sort returns exactly the anchor list `SectionAnchors` |
| Sections.Scan | controllers/resumeController.js:18-29 | the anchors pushed while scanning the first n lines; specified by `ScanIncreasing`, `ScanSound` and `ScanComplete` |
| Sections.SortByIndex | controllers/resumeController.js:32 | the stable sort by line index; `SortSortedIsIdentity` states what it does to the scan output |
| Sections.SectionAnchors | controllers/resumeController.js:14-33 | the result of `identifySections`; specified by `Sections.AnchorsFaithful` |
| Sections.SortSortedIsIdentity | controllers/resumeController.js:32 | sorting by line index leaves an already strictly increasing anchor list unchanged, so the sort after the line-order scan changes nothing |
| Sections.ScanIncreasing | controllers/resumeController.js:18-29 | the scan pushes anchors in strictly increasing line order, all below the number of lines scanned |
| Sections.ScanSound | controllers/resumeController.js:19-24 | every pushed anchor names a line of the text, the type that line classifies as, and the line's trimmed text |
| Sections.ScanComplete | controllers/resumeController.js:18-29 | every line that classifies as some type has an anchor |
| Sections.AnchorsFaithful | controllers/resumeController.js:18-32 | the anchors are strictly increasing by line index; each names a line of the text, its type and its trimmed text; every header line has an anchor |
| Sections.AnchorAt | controllers/resumeController.js:18-32 | a header line has an anchor at that line carrying its type |
| Sections.AnchorsIncreasing | controllers/resumeController.js:18-32 | the anchor list is strictly increasing by line index |
| Sections.AnchorSound | controllers/resumeController.js:21-24 | every anchor's index is a line of the text that classifies as the anchor's type |
| Sections.FirstOfKind | controllers/resumeController.js:37 | `find` returns the first anchor of the requested type at or after the start, and none exists when it finds nothing |
| Sections.SectionBounds | controllers/resumeController.js:37-45 | the line range [first anchor of the type + 1, next anchor or end); its properties are stated by `LocatedSlice`, `SliceHasNoHeaders` and `MissingSection` |
| Sections.ExtractSectionText | controllers/resumeController.js:36-38 | with no anchor of the requested type the slice is empty |
| Sections.MissingSection | controllers/resumeController.js:37-38 | there are no section bounds exactly when no line classifies as the requested type, and then the slice is `""` |
| Sections.LocatedSlice | controllers/resumeController.js:40-47 | when the type is present, 0 < start <= end <= number of lines, line start-1 is the first header of that type, and the slice is the trimmed join of lines [start, end) |
| Sections.NextAnchorBelow | controllers/resumeController.js:40-45 | the anchor after any anchor lies at a later line, inside the text |
| Sections.NoEarlierHeader | controllers/resumeController.js:37 | no line before the first anchor of a type is a header of that type |
| Sections.SliceHasNoHeaders | controllers/resumeController.js:40-47 | no line in the slice range is a header of any type, and the range ends at the end of the text or at a header line |
| Sections.SliceStopsBeforeNextAnchor | controllers/resumeController.js:40-45 | the slice of an anchor's type ends no later than the line of the anchor that follows it |
| Sections.NoHeadersNoSlices | controllers/resumeController.js:36-48 | a text without header lines has no anchors, and every slice of it is `""` |
| Sections.FirstAnchorIsHeader | controllers/resumeController.js:18-32 | the first anchor, when there is one, names a header line of the text |
| Patterns.RunEnd | controllers/resumeController.js:97 | a greedy character-class run ends at the first character outside the class |
| Patterns.LastDot | controllers/resumeController.js:97 | the backtracking point of the email pattern is the last `.` followed by a top-level-domain character within the domain run |
| Patterns.EmailAt | controllers/resumeController.js:97 | a match found at position i is a well-formed email span starting there and ends before a non-domain character or at the end |
| Patterns.EmailAtComplete | controllers/resumeController.js:97 | whenever an email span starts at position i, the scanner finds a match at i |
| Patterns.EmailAtLongest | controllers/resumeController.js:97 | the match the scanner finds at a position is the longest email span starting there |
| Patterns.EmailFirstLongest | controllers/resumeController.js:97-101 | a match at i, with no match before i, is the leftmost email span and the longest one starting at i |
| Patterns.Email | controllers/resumeController.js:97-101 | the result of `text.match(emailRegex)`; specified by `Patterns.EmailSpec` |
| Patterns.EmailSpec | controllers/resumeController.js:97-101 | the email, when set, is a substring of the text, an email span at the leftmost position where one starts and the longest span starting there; it is unset exactly when the text holds no email span |
| Patterns.FirstFound | controllers/resumeController.js:100 | the leftmost position where a scanner matches, with no match before it, and none at all when it finds nothing |
| Patterns.FirstAlternativeAt | controllers/resumeController.js:98 | the first alternative, in backtracking order, that matches at a position, and none when nothing matches there |
| Patterns.FirstMatchSpec | controllers/resumeController.js:98-104 | a first match is a substring of the text matched at the leftmost position where any alternative matches, by the first alternative in the list that matches there; there is none exactly when no alternative matches anywhere |
| Patterns.FirstMatch | controllers/resumeController.js:103 | the leftmost match of a list of alternatives, the first alternative winning at that position; specified by `Patterns.FirstMatchSpec` |
| Patterns.Phone | controllers/resumeController.js:98-104 | the result of `text.match(phoneRegex)`; specified by `Patterns.PhoneSpec` |
| Patterns.PhoneSpec | controllers/resumeController.js:98-104 | the phone, when set, is a substring of the text matched by the phone pattern at the leftmost possible position, by the first alternative in priority order that matches there; it is unset exactly when the pattern matches nowhere |
| Patterns.ThenWithin | controllers/resumeController.js:98 | concatenating two groups of alternatives adds their digit counts and lengths, and multiplies their numbers |
| Patterns.CountryCodeShape | controllers/resumeController.js:98 | the optional country-code group has 9 alternatives with 0 to 2 digits and at most 4 characters |
| Patterns.NumberShape | controllers/resumeController.js:98 | the main number has 16 alternatives, each with exactly 10 digits and at most 14 characters |
| Patterns.PhoneAlternativesShape | controllers/resumeController.js:98 | the phone pattern has 144 alternatives, each with 10 to 12 digits and at most 18 characters |
| Patterns.MatchedDigits | controllers/resumeController.js:98 | text matched by an alternative holds at least as many digits as the alternative demands |
| Patterns.FoundWithin | controllers/resumeController.js:103 | a first match of such alternatives holds at least the minimum digit count and is at most the maximum length |
| Patterns.PhoneHasTenDigits | controllers/resumeController.js:98-104 | a phone, when set, holds at least 10 digits and at most 18 characters |
| Personal.NonBlankLinesHead | controllers/resumeController.js:107-109 | the filtered lines are empty exactly when every line is blank, and otherwise start with the first non-blank line |
| Personal.NonBlankLines | controllers/resumeController.js:107 | `filter(l => l.trim().length > 0)` over the lines; specified by `NonBlankLinesKept`, and its head, the only part the parser uses, by `NonBlankLinesHead` |
| Personal.NonBlankLinesKept | controllers/resumeController.js:107 | the filter is the order-keeping filter of the lines by "not all white space" |
| Personal.FullName | controllers/resumeController.js:106-113 | the name heuristic; specified by `Personal.FullNameIff` and `Personal.FullNameShape` |
| Personal.FullNameIff | controllers/resumeController.js:107-113 | a full name is set exactly when some line is non-blank and the first such line, trimmed and lower-cased, does not contain "resume" |
| Personal.FullNameShape | controllers/resumeController.js:109-111 | the full name is the first non-blank line trimmed: non-empty, without line breaks, without white space at either end |
| Personal.FillPersonalInfo | controllers/resumeController.js:100-113 | setting email, phone and full name one after the other on an empty object gives exactly `ExtractPersonalInfo` |
| Personal.ExtractPersonalInfo | controllers/resumeController.js:100-113 | the three heuristics together; each part is specified by `FullNameIff`, `EmailSpec` and `PhoneSpec` |
| Skills.DefaultDictionaryNonEmpty | controllers/resumeController.js:117 | no term of the shipped dictionary is empty |
| Skills.AddAllGrows | controllers/resumeController.js:119-129 | adding values to the ordered set keeps the old contents as a prefix, holds exactly the old and the new values, and appends only values that are new; the order of the appended values is stated by `AddAllOrder` |
| Skills.AddAllDistinct | controllers/resumeController.js:119-129 | the ordered set never holds a value twice, and adding distinct new values appends them in order |
| Skills.AddUnique | controllers/resumeController.js:123 | `set.add(x)` on an insertion-ordered set; specified through `AddAllGrows`, `AddAllDistinct` and `AddAllOrder` |
| Skills.AddAll | controllers/resumeController.js:121-129 | `xs.forEach(x => set.add(x))`; specified by `AddAllGrows`, `AddAllDistinct` and `AddAllOrder` |
| Skills.AddAllKept | controllers/resumeController.js:119-129 | the values appended to the set are `xs` filtered by "not in the set yet and not earlier in `xs`" |
| Skills.AddAllOrder | controllers/resumeController.js:119-129 | the old contents stay in front, then come, in order, exactly the values of `xs` at their first occurrence that were not there yet |
| Skills.DictionaryHits | controllers/resumeController.js:121-125 | the hits are exactly the dictionary terms whose lower-case form occurs in the lower-cased text, with no repeats when the dictionary has none, and empty exactly when no term occurs |
| Skills.DictionaryHitsKept | controllers/resumeController.js:121-125 | the dictionary pass is `filter` of the dictionary by case-insensitive occurrence in the text |
| Skills.DictionaryHitsSelect | controllers/resumeController.js:121-125 | the hits list, in dictionary order, exactly the terms found in the text |
| Skills.KeepTokens | controllers/resumeController.js:128 | the kept tokens are exactly the trimmed pieces of length 3 to 24 |
| Skills.KeepTokensKept | controllers/resumeController.js:128 | the token filter is `filter` of the trimmed pieces by length 3 to 24 |
| Skills.KeepTokensSelect | controllers/resumeController.js:128 | the tokens list, in order, the trim of exactly the pieces whose trimmed length is 3 to 24 |
| Skills.SkillTokens | controllers/resumeController.js:127-128 | an empty skills section gives no tokens; otherwise the tokens are exactly the trimmed pieces of length 3 to 24 after splitting on `,`, `•` and newline |
| Skills.SkillTokensSelect | controllers/resumeController.js:127-128 | for a non-empty section the tokens list, in section order, the trim of exactly the pieces of the split on `,`, `•` and newline whose trimmed length is 3 to 24 (the pieces themselves are pinned down by `Text.SplitSeparators` and `Text.SplitInterleave`) |
| Skills.CollectSkills | controllers/resumeController.js:119-131 | the two `add` loops and the cut to 20 return exactly `Skills` |
| Skills.AllSkills | controllers/resumeController.js:119-130 | the set after both passes, before the cut; specified by `SkillsOrder` |
| Skills.Skills | controllers/resumeController.js:131 | the reported skills; specified by `SkillsSpec`, `SkillsOrder` and `SkillsComplete` |
| Skills.SkillsSpec | controllers/resumeController.js:117-131 | at most 20 skills, no two equal; each is a dictionary term found in the text or a token of length 3 to 24 from the skills section; a skill of length at most 2 is a dictionary term |
| Skills.OrderOf | controllers/resumeController.js:119-131 | after the cut come first the distinct hits, each at its first occurrence, then the tokens that are not hits, each at its first occurrence, and the length is the smaller of their total and 20 |
| Skills.SkillsOrder | controllers/resumeController.js:117-131 | the same for the two passes of the parser: dictionary hits first, then section tokens that are not hits, each value once at its first occurrence, cut to 20; with `DictionaryHitsSelect` and `SkillTokensSelect` this is dictionary order, then section order |
| Skills.SkillsComplete | controllers/resumeController.js:121-131 | when nothing is cut, every dictionary term found in the text and every section token is a skill |
| Blocks.LastNewline | controllers/resumeController.js:137 | the backtracking point of `\s*` in the separator: the last line feed in a range |
| Blocks.SeparatorAt | controllers/resumeController.js:137 | a separator matched at a position is a line feed, white space and a line feed; `SeparatorAtComplete` and `SeparatorAtLongest` state where it matches and how far it runs |
| Blocks.SeparatorAtLongest | controllers/resumeController.js:137 | the greedy `\s*` runs to the last line feed of the white-space run: the match at a position goes past every blank line that starts there |
| Blocks.SeparatorAtComplete | controllers/resumeController.js:137 | wherever a blank line starts, the separator matches there |
| Blocks.NextSeparator | controllers/resumeController.js:137 | the split finds the first separator at or after a position, and none before it |
| Blocks.SplitBlocks | controllers/resumeController.js:137 | `split(/\n\s*\n/)`; specified completely by `SplitBlocksSpec` with `SplitBlocksCuts`, and also by `SplitWeave`, `SplitNoBlankLine` and `NoBlankLineOneBlock` |
| Blocks.Spans | controllers/resumeController.js:137 | the pieces start at the given position, end at the end of the text, stay in bounds and are disjoint and in order |
| Blocks.SpansCut | controllers/resumeController.js:137 | consecutive pieces are separated by exactly one separator match |
| Blocks.SpansUncut | controllers/resumeController.js:137 | no separator matches inside a piece |
| Blocks.WeaveTiles | controllers/resumeController.js:137 | the pieces interleaved with the gaps between them give back the text |
| Blocks.SeparatorIsBlankLine | controllers/resumeController.js:137 | a separator match is a blank line |
| Blocks.SplitWeave | controllers/resumeController.js:137 | the blocks (also at line 153), rejoined with blank-line separators in between, give back the text |
| Blocks.GapsAreSeparators | controllers/resumeController.js:137 | every gap between two blocks is a blank-line separator |
| Blocks.BlankLineMatches | controllers/resumeController.js:137 | a blank line inside a piece of the text is a place where the separator matches |
| Blocks.SplitNoBlankLine | controllers/resumeController.js:137 | no block (also at line 153) contains a blank line |
| Blocks.NoBlankLineOneBlock | controllers/resumeController.js:137 | a text without blank lines (also at line 153) is one block |
| Blocks.SpansLeftmostLongest | controllers/resumeController.js:137 | the pieces of the split tile the text; each gap is a blank-line separator; no blank line starts inside a piece; and no blank line starting where a gap starts reaches past that gap |
| Blocks.LeftmostLongestUnique | controllers/resumeController.js:137 | only one way of cutting the text has those properties, the split's |
| Blocks.SplitBlocksSpec | controllers/resumeController.js:137 | the blocks are the pieces of a leftmost-longest cutting of the text |
| Blocks.SplitBlocksCuts | controllers/resumeController.js:137 | the blocks are the pieces of every leftmost-longest cutting of the text, so the specification determines them |
| Entries.TrimmedLines | controllers/resumeController.js:139 | the result holds exactly the non-empty trimmed pieces |
| Entries.TrimmedLinesKept | controllers/resumeController.js:139 | `map(l => l.trim()).filter(l => l)` is `filter` of the trimmed pieces by non-emptiness |
| Entries.TrimmedLinesSelect | controllers/resumeController.js:139 | the lines list, in order, the trim of exactly the pieces that are not blank |
| Entries.TrimmedLinesLeading | controllers/resumeController.js:139-142 | there are no lines exactly when every piece is blank; the first line is the first non-blank piece trimmed and the second the next non-blank piece trimmed |
| Entries.BlockLines | controllers/resumeController.js:139 | the lines of one block; specified by `BlockLinesShape` and `BlockLinesLeading` |
| Entries.BlockLinesLeading | controllers/resumeController.js:139-142 | a block has no lines exactly when all its lines are blank; its first line is its first non-blank line trimmed, its second the next non-blank line trimmed |
| Entries.BlockLinesShape | controllers/resumeController.js:139 | every line of a block (also at line 155) is non-empty, has no line break and no white space at either end |
| Entries.NonBlankBlockHasLine | controllers/resumeController.js:137-141 | a block with non-blank text has a line, so the "Unknown Company" and "Unknown School" fallbacks are never used |
| Entries.LongBlocks | controllers/resumeController.js:137 | `filter(b => b.trim().length > minLength)` over the blocks; specified by `LongBlocksSelect` |
| Entries.LongBlocksKept | controllers/resumeController.js:137 | the block filter is `filter` of the blocks by trimmed length |
| Entries.LongBlocksSelect | controllers/resumeController.js:137 | the filter (also at line 153) keeps, in order, exactly the blocks whose trimmed length exceeds the threshold |
| Entries.SectionEntriesSpec | controllers/resumeController.js:135-139 | an empty slice (also at lines 152-155) has no entries; otherwise there is one non-empty line list per kept block, in block order |
| Entries.SectionEntries | controllers/resumeController.js:135-139 | the line lists of the kept blocks of a slice; specified by `SectionEntriesSpec` |
| Entries.LineOr | controllers/resumeController.js:141-142 | `lines[k] || fallback`; its use is specified by `ToExperienceSpec` and `ToEducationSpec` |
| Entries.ToExperience | controllers/resumeController.js:140-146 | one experience entry from a block's lines; specified by `ToExperienceSpec` |
| Entries.ToEducation | controllers/resumeController.js:156-161 | one education entry from a block's lines; specified by `ToEducationSpec` |
| Entries.ExtractExperience | controllers/resumeController.js:134-135 | an empty experience slice gives no entries |
| Entries.ExtractEducation | controllers/resumeController.js:151-152 | an empty education slice gives no entries |
| Entries.ToExperienceSpec | controllers/resumeController.js:140-146 | company is the first line, position the second or "Role", dates are empty, and the description splits back into the lines from the third on (empty when there are at most two lines) |
| Entries.ToEducationSpec | controllers/resumeController.js:156-161 | school is the first line, degree the second or "Degree", dates are empty |
| Entries.ExperienceSpec | controllers/resumeController.js:134-148 | one experience entry per block of trimmed length over 20, in order, each built from that block's lines |
| Entries.EducationSpec | controllers/resumeController.js:151-163 | one education entry per block of trimmed length over 10, in order, each built from that block's lines |
| Entries.SingleLineExperience | controllers/resumeController.js:141-145 | a one-line block gives that line as company, "Role" as position and empty dates and description |
| Parser.ParseResume | controllers/resumeController.js:86-163 | the record built field by field is exactly `Structure` of the text |
| Parser.Structure | controllers/resumeController.js:86-163 | the record the parser builds; specified through `ParseResume`, `NoHeadersNoSections` and `EmptyText`, and field by field by the lemmas above |
| Parser.NoHeadersNoSections | controllers/resumeController.js:86-94 | a text without header lines gives an empty summary and no experience or education entries, since the guards at lines 135 and 152 see empty slices |
| Parser.EmptyTextPersonalInfo | controllers/resumeController.js:100-113 | the empty text sets no personal field |
| Parser.EmptyTextNoSkills | controllers/resumeController.js:116-131 | the empty text yields no skills for any dictionary of non-empty terms |
| Parser.EmptyText | controllers/resumeController.js:86-163 | the empty text yields the empty record for any keyword table and any dictionary of non-empty terms |
| Parser.EmptyTextDefault | controllers/resumeController.js:86-163 | with the shipped keyword table and dictionary, the empty text yields the empty record |
| Text.TrimSpec | controllers/resumeController.js:19 | trim removes exactly the white space at both ends and is empty only for all-white-space input |
| Text.Trim | controllers/resumeController.js:19 | `String.prototype.trim`; specified by `TrimSpec` |
| Text.ToLower | controllers/resumeController.js:19 | `toLowerCase` on ASCII: same length, each character lower-cased |
| Text.Contains | controllers/resumeController.js:23 | `includes`; specified by `ContainsIff` |
| Text.Split | controllers/resumeController.js:14 | `split` on a set of single characters: at least one piece, and no piece holds a separator; `SplitSeparators` and `SplitInterleave` pin the pieces down |
| Text.Join | controllers/resumeController.js:47 | `join`; `JoinSplit` and `SplitJoin` state that it inverts `Split` |
| Text.SliceOf | controllers/resumeController.js:47 | `slice(start, end)` with clamping: the plain sub-sequence when the range is in bounds |
| Text.Take | controllers/resumeController.js:131 | `slice(0, n)`: at most n elements, the first ones, and all of them when there are at most n |
| Text.Drop | controllers/resumeController.js:145 | `slice(n)`, the elements from position n on |
| Text.Kept | controllers/resumeController.js:137 | `filter` given the test's outcome on each element; specified by `KeptSelect` |
| Text.PositionsIncreasing | controllers/resumeController.js:137 | the kept positions are listed from left to right |
| Text.PositionsComplete | controllers/resumeController.js:137 | a position is listed exactly when its element passes the test |
| Text.KeptAt | controllers/resumeController.js:137 | the kept elements are the elements at the kept positions |
| Text.KeptSelect | controllers/resumeController.js:137 | `filter` keeps order: the result lists, left to right, exactly the elements that pass the test |
| Text.TrimmedLineShape | controllers/resumeController.js:107 | a trimmed line (also at lines 139 and 155) is non-empty exactly when the line has a non-space character, and it then has no white space at either end |
| Text.ContainsIff | controllers/resumeController.js:23 | `includes` holds exactly when the substring occurs at some position |
| Text.JoinSplit | controllers/resumeController.js:47 | joining the pieces of a split with the same character gives back the text |
| Text.SplitJoin | controllers/resumeController.js:14 | splitting a join of pieces without that character gives back the pieces |
| Text.SplitSeparators | controllers/resumeController.js:128 | a split on a set of characters loses nothing: the pieces, with the separator characters that stood between them put back, give back the text |
| Text.SplitInterleave | controllers/resumeController.js:128 | pieces free of separators, put together with separator characters between them, split back into exactly those pieces |

## Left out

- PDF text extraction, OCR and file handling are foreign calls. They run before the engine, so the text is the model's input. The low-text branch at controllers/resumeController.js:73-83 only logs and changes nothing.
- The HTTP layer is left out: the request checks, the JSON response, the error responses and the exception handler.
- `uploadPhoto` is left out. It only builds a URL from request fields.
- `controllers/authController.js`, `controllers/atsController.js`, the models, the mailer, the routes and `server.js` are not part of this model. They are I/O glue, a mock scorer and framework wiring.
- The regular-expression engine is not modelled in general. Only the two patterns of the service (email and phone) and the blank-line separator are modelled, each as a scanner derived by hand from the pattern's leftmost, backtracking semantics.
- Text.ToLower: lower-cases ASCII letters only. JavaScript's `toLowerCase` also folds other Unicode letters.
- Lengths count characters. JavaScript counts UTF-16 code units, which differ for characters outside the Basic Multilingual Plane. This affects the header bounds (> 2 and < 40), the token bounds (> 2 and < 25) and the block thresholds (> 20 and > 10).
- Personal.PersonalInfo: a field the handler never sets is a missing key in the JSON output. The model shows it as `None`.
- Parser.ParseResume: the record is a value that is rebuilt field by field, not a shared mutable object. The handler never lets the object escape before the response, so aliasing does not arise.
- Patterns.PhoneHasTenDigits: states a lower bound on digits and an upper bound on length, not the full shape of the matched text. The full shape is the `MatchesAt` clause of `Patterns.PhoneSpec`.
