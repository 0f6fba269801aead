# BibtexParser in Dafny

A model of `BibtexParser` (js/bibtex-parser.js), the script that turns a
publication's BibTeX entry and its Markdown summary into the records a
publications page shows, and that formats author lists and APA-style citations
from those records.

What is modelled:

- `parse`: comment lines (`//` after trimming) are dropped. Then:
  - `/@(\w+)\s*\{([^,]*),/` finds the header, which gives the entry type
    (lower-cased) and the citation key (trimmed).
  - The text after the first comma is cut at `,\s*\n\s*`.
  - Each piece yields a `name={value}` field. The value ends at the `}` that
    balances its braces, or takes the rest of the piece when no `}` balances
    them.
  - A `links` field becomes a label-to-url map, and a `url` field fills
    `links.url`, `links.journal` and `links.pdf`.
  - The `type` is taken from a `type` field or derived from the entry type.
- `parseSummary`: comment lines are dropped and the trimmed, non-blank lines
  are walked with the four Markdown patterns of the constructor. This yields a
  title, the sections (lower-cased name to content lines) and the resources
  (`[title](url)` items of a "resources" section).
- `formatAuthors`, `formatSingleAuthor`, `formatAuthorsForCitation` and
  `generateCitation`, including the final trim and the `/\s+/g` collapse.

Modules:

| module | file | role |
|---|---|---|
| `Options` | options.dfy | `Option` |
| `Text` | text.dfy | `trim`, `toLowerCase`, `indexOf`, `split`/`join`, comment removal |
| `Assoc` | assoc.dfy | writes to a JavaScript object, last writer wins |
| `Search` | search.dfy | leftmost match, as `RegExp.prototype.exec` scans |
| `Bibtex` | bibtex.dfy | `parse` |
| `Summary` | summary.dfy | `parseSummary` |
| `Citation` | citation.dfy | the four static formatters |

Regular expressions are modelled as explicit scans that return what the
backtracking matcher returns. Each scan comes with a lemma relating it to a
declarative description of a match: `HeaderShape`, `DelimSpan`, the layout of
`[title](url)`, and so on. The leftmost-match search is shared, in `Search`.

Two consequences of the code as written, which its comments do not announce,
are kept in the model:

- An entry written on one line, with its fields separated by `, ` and no
  line feed, is one piece for the field split. At most one field is read
  (`Bibtex.ParseSingleLine`): its name is the text before the first `=`, and
  its value is scanned from the first `{` after that `=`, which belongs to a
  later field when the first field's value has no brace: `year=2021,
  title={A}}` and `year=2021, title={A` both yield the field `year` with the
  value `A`.
- In `parseSummary` a `## ...` line matches the header pattern too. While no
  title has been found, the first such line becomes the title, not a section
  (`Summary.SubHeaderIsHeader`, `Summary.SummaryTitle`).

## Model

| member | source | states |
|---|---|---|
| Text.Trim | js/bibtex-parser.js:71 | the result has no whitespace at either end and is no longer than the input |
| Text.TrimSlice | js/bibtex-parser.js:71 | trimming removes exactly the leading and the trailing whitespace run and keeps the middle |
| Text.TrimFixesTrimmed | js/bibtex-parser.js:71 | trimming leaves a string unchanged exactly when it has no whitespace at either end |
| Text.TrimPadded | js/bibtex-parser.js:295 | trimming a trimmed text padded with whitespace on both sides gives the text back |
| Text.Lower | js/bibtex-parser.js:49 | `toLowerCase` keeps the length and maps every character through the ASCII lower-case map |
| Text.IndexOf | js/bibtex-parser.js:75 | `indexOf` reports the first position holding the character, and -1 (None) exactly when there is none |
| Text.IndexOfFromFirst | js/bibtex-parser.js:82 | `indexOf(c, from)` stops at the first `c` at or after `from`, and finds none exactly when there is none there |
| Text.IndexOfFromIs | js/bibtex-parser.js:82 | the first `c` at or after `from` is the position `indexOf(c, from)` reports |
| Text.Find | js/bibtex-parser.js:269 | the first occurrence of a pattern string; none exactly when the text does not contain it |
| Text.SplitOn | js/bibtex-parser.js:29 | `split` always yields at least one piece, even for empty text |
| Text.SplitOnJoins | js/bibtex-parser.js:29-31 | the pieces of `split(sep)` joined with `sep` give the text back |
| Text.SplitOnCuts | js/bibtex-parser.js:269 | every piece of `split(sep)` except the last is cut at the first separator after its start |
| Text.SplitOnLast | js/bibtex-parser.js:269 | the last piece of `split(sep)` holds no separator |
| Text.SplitJoin | js/bibtex-parser.js:269 | splitting a join gives the list back when each piece ends at the first separator after it |
| Text.SplitJoinChar | js/bibtex-parser.js:323 | splitting on one character undoes joining on it when no piece holds that character |
| Text.DropComments | js/bibtex-parser.js:30 | the filter keeps only lines that are not comment lines, all taken from the input, and keeps every line when none is a comment |
| Text.DropCommentsAppend | js/bibtex-parser.js:30 | the filter works line by line: filtering two lists one after the other is filtering their concatenation, so the kept lines stay in order |
| Text.DropCommentsOne | js/bibtex-parser.js:30 | a single line is dropped exactly when, trimmed, it starts with `//`, and is kept unchanged otherwise |
| Text.StripComments | js/bibtex-parser.js:29-31 | no line of the comment-free text is a comment line |
| Text.StripCommentsJoin | js/bibtex-parser.js:29-31 | for lines without a line feed, removing the comments from their join joins exactly the non-comment lines, in order |
| Text.StripCommentsIdempotent | js/bibtex-parser.js:29-31 | removing comment lines a second time changes nothing |
| Assoc.CollectDomain | js/bibtex-parser.js:126 | a key is in the object exactly when some assignment writes it |
| Assoc.CollectLastWins | js/bibtex-parser.js:126 | a key's value is the one written by its last assignment |
| Search.FirstMatchLeftmost | js/bibtex-parser.js:43 | `exec` reports the leftmost match: the pattern fails everywhere before it, and everywhere when nothing is reported |
| Search.FirstMatchIs | js/bibtex-parser.js:43 | a match with no match before it is the one `exec` reports |
| Bibtex.HeaderAtComplete | js/bibtex-parser.js:43 | at a position with the header's shape (`@`, word characters, whitespace, `{`, a key without comma, `,`) the pattern matches, capturing that word and key |
| Bibtex.HeaderAtSound | js/bibtex-parser.js:43 | whatever the header pattern captures at a position has the header's shape there |
| Bibtex.FindHeaderLeftmost | js/bibtex-parser.js:43-47 | the header search reports the leftmost matching position, and no position matches when it reports nothing |
| Bibtex.FindHeaderFindsShape | js/bibtex-parser.js:43-47 | the header search succeeds exactly when some position of the text has the header's shape |
| Bibtex.FindHeader | js/bibtex-parser.js:43 | a reported header is what the header pattern captures at the reported position, which lies inside the text |
| Bibtex.DelimAt | js/bibtex-parser.js:68 | the separator `,\s*\n\s*` anchored at a position matches exactly when a comma is followed by a whitespace run holding a line feed; the match takes the whole run |
| Bibtex.FirstDelimLeftmost | js/bibtex-parser.js:68 | the separator search stops at the leftmost match: no separator starts between the start and the one found, and none anywhere when none is found |
| Bibtex.SplitFields | js/bibtex-parser.js:68 | the field split yields at least one piece, and text without a line feed is a single piece |
| Bibtex.MatchingCloseFirstZero | js/bibtex-parser.js:86-96 | the brace scan stops at the first index where the counter, started at one, returns to zero; it finds nothing exactly when the counter never does |
| Bibtex.MatchingCloseIs | js/bibtex-parser.js:86-96 | the first index after the `{` where the counter returns to zero is the index the scan reports |
| Bibtex.MatchingCloseBalanced | js/bibtex-parser.js:86-96 | after `{`, a balanced text and `}`, the scan stops at that `}`: nested braces do not end the value |
| Bibtex.DropClosingBrace | js/bibtex-parser.js:104-106 | one trailing `}` is removed when present, and the value is kept otherwise |
| Bibtex.ExtractField | js/bibtex-parser.js:70-109 | a field name is always lower-case |
| Bibtex.ExtractFieldSkips | js/bibtex-parser.js:71-83 | a piece yields no field exactly when its trimmed text is empty, is `}`, has no `=`, or has no `{` after the `=` |
| Bibtex.ExtractNested | js/bibtex-parser.js:70-109 | `name={value}` with balanced braces in the value yields the lower-cased trimmed name and the whole trimmed value |
| Bibtex.ExtractUnclosed | js/bibtex-parser.js:70-109 | a value whose braces never close on its piece yields the rest of the piece, trimmed, less one trailing `}` |
| Bibtex.ExtractFieldMarks | js/bibtex-parser.js:70-83 | with `eq` the first `=` of the trimmed piece and `open` the first `{` after it, the field is named by the trimmed, lower-cased text before `eq` and its value is read from `open` |
| Bibtex.ExtractFieldClosed | js/bibtex-parser.js:70-109 | for any piece with those marks whose brace counter first returns to zero at `close`, the value is the trimmed text strictly between `open` and `close`, whatever gap surrounds the `=` and whatever follows the `}` |
| Bibtex.ExtractFieldOpen | js/bibtex-parser.js:70-109 | for any piece with those marks whose brace counter never returns to zero, the value is the trimmed rest after `open`, less one trailing `}` |
| Bibtex.LinkPairKept | js/bibtex-parser.js:119-122 | a links part is kept exactly when its trimmed text has a colon that is not its first character |
| Bibtex.LinkPairSplitsAtFirstColon | js/bibtex-parser.js:120-126 | the label is the trimmed text before the first colon and the url the trimmed rest, later colons included |
| Bibtex.LinksOfMeaning | js/bibtex-parser.js:119-127 | a label is in the links map exactly when some part carries it, with the url of the last such part |
| Bibtex.ParseLinksMeaning | js/bibtex-parser.js:114-128 | a label is in the links map of a `links` value exactly when some comma-separated part of the value carries it, and its url is the one from the last such part |
| Bibtex.ApplyUrl | js/bibtex-parser.js:131-139 | a url field sets `links.url`; `journal` and `pdf` take the url only when unset or empty; no other link changes |
| Bibtex.AbsorbFields | js/bibtex-parser.js:140-142 | the plain fields are exactly the last-writer-wins map of the non-link fields |
| Bibtex.AbsorbLinksPresent | js/bibtex-parser.js:114-139 | the record has a links map exactly when some field is named `links` or `url` |
| Bibtex.AbsorbLastLinks | js/bibtex-parser.js:114-115 | a `links` field with no later `links` or `url` field decides the links map alone, discarding earlier links |
| Bibtex.Classify | js/bibtex-parser.js:147-150 | `article` is journal; `inproceedings` and `conference` are conference; `techreport` and `unpublished` are preprint; anything else is other |
| Bibtex.ResolveKind | js/bibtex-parser.js:146-151 | a non-empty `type` field is kept; otherwise the entry type decides |
| Bibtex.Body | js/bibtex-parser.js:65 | the field body is what follows the first comma of the text, or the whole text when it has no comma |
| Bibtex.Parse | js/bibtex-parser.js:23-155 | at most one record; it keeps the comment-free text, a lower-case entry type, a trimmed key and a non-empty type |
| Bibtex.ParseFailsIffNoHeader | js/bibtex-parser.js:24-47 | `parse` returns nothing exactly on empty input or when the comment-free text has no header |
| Bibtex.ParseHeader | js/bibtex-parser.js:43-62 | with the header shape at `i` and none before it, the record's entry type is the lower-cased word and its key the trimmed key |
| Bibtex.ParseIdempotent | js/bibtex-parser.js:29-62 | parsing a record's kept text gives the same record back |
| Bibtex.EntryOfSingleLine | js/bibtex-parser.js:65-68 | text without a line feed is one piece for the field split, so its record has at most one field, and then no links |
| Bibtex.ParseSingleLine | js/bibtex-parser.js:65-68 | an entry on one line gives at most one field, and then no links |
| Summary.AfterMarkerIs | js/bibtex-parser.js:9-11 | marker, non-empty whitespace, then text starting with non-space and without line terminator: the capture is that text |
| Summary.AfterMarkerSound | js/bibtex-parser.js:9-11 | a capture is the end of the line after a non-empty whitespace gap, with no line terminator and no leading whitespace |
| Summary.HashEnd | js/bibtex-parser.js:9 | `#+` consumes exactly the run of `#` |
| Summary.HeaderTextIs | js/bibtex-parser.js:9 | one or more `#`, a whitespace gap and a text starting with no whitespace and holding no line terminator: the header pattern captures that text |
| Summary.HeaderTextSound | js/bibtex-parser.js:9 | a header capture follows a run of `#` that opens the line and a non-empty whitespace gap, and runs to the end of the line |
| Summary.SubHeaderTextIs | js/bibtex-parser.js:10 | `##`, a whitespace gap and a text starting with no whitespace and holding no line terminator: the section pattern captures that text |
| Summary.SubHeaderTextSound | js/bibtex-parser.js:10 | a section capture follows `##` at the start of the line and a non-empty whitespace gap, and runs to the end of the line |
| Summary.ListItemTextIs | js/bibtex-parser.js:11 | `-`, a whitespace gap and a text starting with no whitespace and holding no line terminator: the list-item pattern captures that text |
| Summary.ListItemTextSound | js/bibtex-parser.js:11 | a list-item capture follows `-` at the start of the line and a non-empty whitespace gap, and runs to the end of the line |
| Summary.SubHeaderIsHeader | js/bibtex-parser.js:9-10 | every line the section pattern matches is matched by the header pattern with the same capture |
| Summary.CaptureNotEmpty | js/bibtex-parser.js:175 | on a trimmed line a capture is never empty |
| Summary.LinkAtComplete | js/bibtex-parser.js:12 | at `p` with the link shape (`[`; a title with no line terminator up to the first position followed by `](` and a url closed by a `)` on the same line; the url up to its first `)`), the pattern anchored at `p` captures that title and url |
| Summary.LinkAtSound | js/bibtex-parser.js:12 | whatever the pattern anchored at `p` captures has the link shape there, with the title and url read from those positions |
| Summary.FindLinkAt | js/bibtex-parser.js:223 | a reported link is what the pattern captures at the reported position, which lies inside the item |
| Summary.LinkIn | js/bibtex-parser.js:223 | an item has no link exactly when the pattern matches at no position of it |
| Summary.LinkInLeftmost | js/bibtex-parser.js:223 | the reported link is the match at the leftmost matching position: the pattern matches at no earlier position |
| Summary.LinkInIs | js/bibtex-parser.js:223 | a match at a position with no match before it is the link the item reports |
| Summary.LazyTitle | js/bibtex-parser.js:12 | the title is lazy: `[PDF] [S](u)` gives the title `PDF] [S` and the url `u` |
| Summary.LinkInFinds | js/bibtex-parser.js:12 | an item `pre[title](url)post`, with no `[` in pre, no `]` in the title, no `)` in the url and no line terminator, yields that title and url |
| Summary.LinkInSound | js/bibtex-parser.js:12 | a reported link occurs in the item as `[title](url)`, with no line terminator and no `)` in the url |
| Summary.NonBlank | js/bibtex-parser.js:175 | the kept lines are non-empty, trimmed, and no more than the input lines |
| Summary.NonBlankAppend | js/bibtex-parser.js:175 | blank lines are dropped line by line: the kept lines of a concatenation are those of each part, in order |
| Summary.NonBlankOne | js/bibtex-parser.js:175 | a single line is dropped exactly when it is blank, and is kept trimmed otherwise |
| Summary.ParseSummary | js/bibtex-parser.js:162-258 | only empty input gives the empty object; section names are lower-case and section contents non-empty |
| Summary.RunKeepsSections | js/bibtex-parser.js:200-254 | the walk and the final save keep every section lower-case-named and non-empty |
| Summary.RunTitle | js/bibtex-parser.js:191-196 | once set the title never changes; before that the first header line sets it |
| Summary.SummaryTitle | js/bibtex-parser.js:168-196 | the title is the capture of the first header line among the comment-free, non-blank lines |
| Summary.RunResources | js/bibtex-parser.js:221-230 | resources are only appended, and each is the first link of some walked list item |
| Summary.ContentBeforeSectionDiscarded | js/bibtex-parser.js:241-254 | content gathered while no section is open never reaches the result |
| Summary.Step | js/bibtex-parser.js:186-247 | no line changes a title once it is set, and resources are only ever appended |
| Summary.StepLaterHeader | js/bibtex-parser.js:191-247 | once the title is set, a `#` line that is not a `##` line is ordinary content of the open section, and is dropped when no section is open |
| Summary.StepOpensSection | js/bibtex-parser.js:199-212 | once the title is set, a `##` line saves the open section and opens an empty one named by its capture |
| Summary.StepResourceLink | js/bibtex-parser.js:215-230 | in the resources section, a list item holding a link appends that link to the resources and leaves the section content unchanged |
| Summary.StepOtherItem | js/bibtex-parser.js:215-238 | any other list item is appended, without its marker, to the section content |
| Summary.StepPlainLine | js/bibtex-parser.js:241-247 | any other line leaves the title, sections, resources and open section alone; it is appended to the content of the open section, or dropped when none is open |
| Summary.CommitOverwrites | js/bibtex-parser.js:201-205 | saving a section files its content under the lower-cased name, replacing an earlier section of that name, and leaves every other name as it was |
| Summary.PreambleKeeps | js/bibtex-parser.js:186-248 | with no section open and no `##` line, the walk changes neither the sections, the resources nor the open section |
| Summary.PreambleNeverSaved | js/bibtex-parser.js:182-254 | lines before the first `##` line contribute nothing to the result except possibly the title |
| Citation.CollapseSpace | js/bibtex-parser.js:295 | `replace(/\s+/g, ' ')` leaves only plain spaces, never two in a row, preserves emptiness and the space-ness of both ends, never grows |
| Citation.CollapseSplit | js/bibtex-parser.js:295 | a whitespace run between two words becomes exactly one space, and the text on either side is collapsed on its own |
| Citation.CollapseKeepsVisible | js/bibtex-parser.js:295 | collapsing whitespace keeps every non-whitespace character, in order |
| Citation.TrimKeepsVisible | js/bibtex-parser.js:295 | trimming keeps every non-whitespace character, in order |
| Citation.CollapseFixes | js/bibtex-parser.js:295 | a text already in normal form is unchanged by the collapse |
| Citation.CollapseIdempotent | js/bibtex-parser.js:295 | collapsing twice is collapsing once |
| Citation.DisplayNameTurnsRound | js/bibtex-parser.js:271-275 | `Last, First` is shown as `First Last`, each part trimmed |
| Citation.DisplayNameKeepsPlain | js/bibtex-parser.js:271-276 | an author with no comma is shown trimmed |
| Citation.FormatAuthors | js/bibtex-parser.js:265-266 | no authors give the empty string |
| Citation.FormatAuthorsByName | js/bibtex-parser.js:265-279 | names joined with ` and ` are shown as their display names joined with `, ` |
| Citation.Initial | js/bibtex-parser.js:328 | an initial is the first character and a dot, or only the dot for an empty part |
| Citation.SingleAuthorInverted | js/bibtex-parser.js:323-329 | `Last, G1 G2 ...` gives the trimmed last name, a comma, and the initials of the given names |
| Citation.SingleAuthorNatural | js/bibtex-parser.js:332-335 | `G1 ... Gn Last` gives the last word, a comma, and the initials of the words before it |
| Citation.SingleWordAuthor | js/bibtex-parser.js:332-335 | a single-word name gives the name, a comma and a space |
| Citation.EmptyGivenName | js/bibtex-parser.js:323-329 | `Last,` with nothing after the comma gives `Last, .` |
| Citation.DoeJane | js/bibtex-parser.js:322-329 | `Doe, Jane` is cited as `Doe, J.` |
| Citation.FormatSingleAuthorEnding | js/bibtex-parser.js:322-336 | a name with a comma or with more than one space-separated part ends with the full stop of an initial; a single word `w` gives the trimmed `w` and `, ` |
| Citation.FormatAuthorsForCitation | js/bibtex-parser.js:303-304 | no authors give the empty string |
| Citation.CitationAuthorsByCount | js/bibtex-parser.js:306-314 | one author is formatted alone, two are joined with ` & `, more give the first and `et al.` |
| Citation.Venue | js/bibtex-parser.js:289 | the venue is the journal when it is non-empty, else the booktitle when that is non-empty, else the publisher; it is empty exactly when all three are missing or empty |
| Citation.GenerateCitation | js/bibtex-parser.js:286-296 | the citation is trimmed, holds only plain spaces and never two in a row |
| Citation.CitationKeepsText | js/bibtex-parser.js:286-296 | the citation has the same non-whitespace characters, in order, as the filled template |
| Citation.CitationOfFullRecord | js/bibtex-parser.js:286-296 | for clean fields, the citation is `authors (year). title. journal Volume v (n) pp. p` |
| Citation.CitationWithoutDetails | js/bibtex-parser.js:286-296 | without volume, number and pages, the citation ends with the venue and no stray spaces |

## Left out

- Console logging, the `debug` flag and the `window.BibtexParser` global:
  they have no effect on the results.
- Whitespace: `trim` and `\s` cover the ASCII whitespace characters only.
  The Unicode spaces (U+00A0, U+FEFF, the U+2000 block and others) and the
  line terminators U+2028/U+2029 are not modelled.
- Case mapping: `toLowerCase` maps only ASCII letters.
- Property names: a parsed record is a map from field names to strings.
  JavaScript's object prototype keys (`__proto__`, `constructor`) are not
  modelled.
- The `type` property: the source writes the plain fields into the same
  object as the header data (js/bibtex-parser.js:141), and then replaces a
  missing or empty `type` with the type derived from the entry type (146).
  The model keeps the plain fields in their own map. A `type` field that is
  present but empty therefore stays empty in `fields`, and the derived type
  is the separate `kind`. Field names are lower-cased, so no other field can
  collide with `entryType`, `citationKey` or `rawBibtex`, and `links` and
  `url` are routed as the source routes them.
- Citation.Initial: strings are sequences of Unicode scalar values, while
  `charAt(0)` takes the first UTF-16 code unit. For a name part that starts
  with a character outside the Basic Multilingual Plane, the source takes
  half a surrogate pair and the model takes the whole character.
- Summary.ParseSummary: empty input gives `None` where the source returns
  the empty object `{}`.
- Citation.GenerateCitation: a missing `author` is taken as the empty
  string, which `formatAuthorsForCitation` treats the same way. A missing
  `title` appears as the text `undefined`, as JavaScript's template
  interpolation writes it. Non-string field values are not modelled.
- Citation.FormatAuthors: authors are a string. `null` and `undefined`,
  which the source also maps to `''`, are modelled as the empty string.
- Bibtex.SplitFields: its contract states the piece count and the no-line-feed
  case only. Each cut is at the leftmost separator (`FirstDelim`,
  `FirstDelimLeftmost`), and `DelimAt` characterises the separator, but no
  lemma states that the pieces joined with their separators give the text
  back.
