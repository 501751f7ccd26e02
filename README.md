# Roster record extraction, modelled in Dafny

The repository turns one sports-roster web page into a CSV file of player
records. It does this in two alternative ways:

- `parse_roster.py` walks the parsed HTML tree (BeautifulSoup). It runs two
  passes, *detailed player-header blocks* first and *list-card items* second,
  and concatenates their records.
- `parse_roster_no_bs4.py` works on the raw text. It splits the page on the
  list-card opening tag and reads each piece with a fixed set of regular
  expressions. It has no header-block pass.

Each record has nine string fields: number, first name, last name, position,
weight, height, hometown, class and high school. A lookup that finds nothing
gives `""`. The CSV file always starts with the header row and lists the
columns in a fixed order.

The model is split into modules, one per concept:

| module | file | contents |
|---|---|---|
| `Text` | `Text.dfy` | The Python string operations the code relies on: `strip()`, `rstrip(c)`, `split()`, `sep.join`, `split(pat)`, `replace`. `str.isspace()` is given code point by code point. |
| `Document` | `Document.dfy` | The parsed page as a tree of elements (tag, classes, attributes, children) and text leaves. It also defines `get_text(strip=True)`, `get`, and `select`/`select_one`/`find`/`find_all` for the simple selectors used, plus the descendant combinator `.cls tag`. |
| `Record` | `Record.dfy` | The player record, the column order, the written table, weight normalisation and the first-non-empty fallback. |
| `TreeParser` | `TreeParser.dfy` | `parse_roster.py`: `get_text_or_empty`, the header-block loop (name split, the `dl` dictionary filled in place, projection of six labels), the list-card loop (number fallback, the high-school chain), and the two appending loops. |
| `Patterns` | `Patterns.dfy` | The regular expressions of `parse_roster_no_bs4.py`, written out as the match each one denotes under Python's backtracking semantics. It also defines `re.search` (the leftmost match), `extract`, and `re.split` on the list-card marker. |
| `RegexParser` | `RegexParser.dfy` | `parse_roster_no_bs4.py`: the loop over `items[1:]`, the fallback steps for the number and the high school, and the record list. |
| `Wrappers` | `Wrappers.dfy` | `Option`. |

The steps that change state are methods, proved against a specification
function of the inputs, and the loops among them carry loop invariants:

- `parse()`'s appending loops and the `dl` loop that fills a dictionary
  (loops);
- the step-by-step reassignment of `number` and `highschool` (straight-line
  methods);
- the CSV writing loop.

The rest are functions, with lemmas about them.

## Model

| member | source | states |
|---|---|---|
| `TreeParser.GetTextOrEmpty` | parse_roster.py:9-10 | An absent tag gives `""`. A present tag gives its `get_text(strip=True)`. The result never has whitespace at either end. |
| `Document.GetText` | parse_roster.py:10 | `get_text(strip=True)` joins the stripped, non-empty text leaves of the subtree, so the result is itself stripped. |
| `Document.GetTextOfLeaf` | parse_roster.py:10 | An element holding one text leaf yields exactly that text, stripped. |
| `Text.ConcatStripped` | parse_roster.py:10 | Joining non-empty stripped pieces gives a stripped string. It is empty exactly when there are no pieces. |
| `Text.Strip` | parse_roster_no_bs4.py:11 | `strip()` leaves no whitespace at either end. |
| `Text.StripSlice` | parse_roster_no_bs4.py:11 | What `strip()` keeps is a contiguous slice of the input with only whitespace before and after it. |
| `Text.StripUnique` | parse_roster_no_bs4.py:11 | Any stripped slice with only whitespace around it is the result of `strip()`, so that characterisation determines it. |
| `Text.StripStripped` | parse_roster.py:21 | Stripping an already stripped string changes nothing. |
| `Text.StripIdempotent` | parse_roster.py:21 | Stripping twice is stripping once. |
| `TreeParser.NumberStripIsNoOp` | parse_roster.py:21 | The extra `.strip()` on the header-block number never changes it. |
| `Document.Filter` | parse_roster.py:19 | `select`: the result holds exactly the nodes that match the selector, and is no longer than the input. |
| `Document.FirstMatch` | parse_roster.py:20 | `select_one`: nothing exactly when no node matches. Otherwise it is the first matching node, with no match before it. |
| `Document.SelectOneIsFirstOfSelect` | parse_roster.py:20 | `select_one` is the head of `select`, and is nothing when `select` is empty. |
| `Document.SelectOneNestedFindsTag` | parse_roster.py:61 | There are two facts. (1) `select_one('.jersey span')` returns a `span` descendant. (2) When the item itself carries the class, it is the first `span` descendant. |
| `Document.NestedUnderIsTagFilter` | parse_roster.py:61 | Below an element with the class, the descendant combinator selects exactly the elements with the tag, in document order. |
| `Document.PlacedDescendantsMeaning` | parse_roster.py:61 | Each descendant is listed in document order together with its ancestor chain. The chain starts at the list item and each entry's children hold the next entry, ending with the node's parent. |
| `Document.NestedInIsCandidates` | parse_roster.py:61 | The descendant combinator finds exactly the nodes with the tag that have an ancestor carrying the class, in document order. |
| `Document.CandidatesFirst` | parse_roster.py:61 | There is no candidate exactly when no entry qualifies. Otherwise the first candidate is the node of the first qualifying entry. |
| `Document.SelectOneNestedIsFirstQualifying` | parse_roster.py:61 | `select_one('.jersey span')` is the first descendant in document order that is a `span` with an ancestor carrying the class. It is nothing exactly when no such `span` exists. |
| `TreeParser.CardNumberIsFirstJerseySpan` | parse_roster.py:60-66 | The card number is the text of the first `span` below a jersey-class element. The `data-player-id` attribute is used exactly when no such `span` exists. |
| `Document.Attr` | parse_roster.py:66 | `get(name, default)` gives the attribute's value when the element has it, and the default otherwise. |
| `TreeParser.NameFromTwoSpans` | parse_roster.py:27-29 | Two or more spans give the first and second span texts, and later spans do not matter. |
| `TreeParser.NameWithoutSpans` | parse_roster.py:23-26 | No name block, or a block without spans, gives two empty names. |
| `TreeParser.OneSpanFirstWord` | parse_roster.py:30-33 | One span starting with a word and whitespace: the word is the first name, and the remaining words joined by single spaces are the last name. |
| `TreeParser.OneSpanOneWord` | parse_roster.py:30-33 | A one-word span is all first name, and the last name is empty. |
| `TreeParser.OneSpanBlank` | parse_roster.py:30-33 | A whitespace-only span gives two empty names. |
| `TreeParser.OneSpanRejoins` | parse_roster.py:30-33 | With two or more words, first name, a space and last name give back the words joined by single spaces. |
| `TreeParser.OneSpanThreeWords` | parse_roster.py:30-33 | Three words separated by single spaces give the first word as first name and the other two, joined by a space, as last name. This is the `Jordan Lee Smith` case. |
| `Text.WordsAreWords` | parse_roster.py:31 | Each token of `split()` is a non-empty run of non-whitespace characters. |
| `Text.WordsKeepNonSpace` | parse_roster.py:31 | `split()` loses only whitespace: its tokens concatenated are the input with whitespace removed. |
| `Text.WordsOfJoin` | parse_roster.py:31-33 | Splitting words that were joined by single spaces gives back those words. |
| `Text.RStripChar` | parse_roster.py:40 | `rstrip(':')` drops exactly the trailing run of colons: the result is a prefix, only colons follow it, and it does not end in a colon. |
| `TreeParser.DlEntry` | parse_roster.py:37-41 | A `dl` lacking its `dt` or `dd` gives nothing. Otherwise it gives the `dt` text without its trailing colons as the label, and the `dd` text as the value. |
| `TreeParser.CollectFields` | parse_roster.py:35-42 | The `dl` loop fills the dictionary in place. Its result is the dictionary built from the block's `dl` elements in document order. |
| `TreeParser.FieldsKeys` | parse_roster.py:35-42 | A label is a key exactly when some `dl` has both parts and that label (both directions). |
| `TreeParser.FieldsLastWins` | parse_roster.py:42 | When several `dl` elements share a label, the last one decides its value. |
| `TreeParser.OtherLabelsIgnored` | parse_roster.py:39-42 | A `dl` with another label, or without both parts, leaves the value for a label unchanged. |
| `TreeParser.Lookup` | parse_roster.py:48-53 | `fields.get(key, '')`: the stored value when the key is present, and `""` otherwise. |
| `TreeParser.OnlyKnownLabelsRead` | parse_roster.py:44-54 | Only Position, Weight, Height, Hometown, Class and High School are read. Two dictionaries that agree on those six give the same record. |
| `TreeParser.MissingLabelIsEmpty` | parse_roster.py:48-53 | Each of the six labels, when missing, yields an empty field: position, weight, height, hometown, class and high school. |
| `TreeParser.HeaderRecordFields` | parse_roster.py:19-55 | The header-block number is the jersey element's text. The weight is the `Weight` value unnormalised. |
| `TreeParser.ParseHeaderBlock` | parse_roster.py:19-55 | One pass of the header-block loop computes the block's record. |
| `TreeParser.CardNumberRules` | parse_roster.py:60-66 | The jersey span's text is used whenever the span exists, even when its text is empty. `data-player-id` is used only when the span is absent, and `""` results when both are absent. |
| `TreeParser.FindCardNumber` | parse_roster.py:60-66 | The number step of the loop computes the card number. |
| `Record.FirstNonEmpty` | parse_roster.py:83-87 | It is empty exactly when every candidate is empty. Otherwise it is the first non-empty candidate, with all earlier ones empty. |
| `Record.FirstOfThree` | parse_roster.py:83-87 | The three-candidate fallback is the chain of `if not highschool` steps. |
| `TreeParser.HighSchoolFallsBackOnEmptyText` | parse_roster.py:83-87 | The fallback is driven by empty text: an empty highschool text defers to the previous-school text. |
| `TreeParser.FindHighSchool` | parse_roster.py:82-87 | The reassignment steps compute the high school. It is empty exactly when all three sources are. |
| `TreeParser.ParseListCard` | parse_roster.py:58-100 | One pass of the list-card loop computes the card's record. |
| `Text.ReplaceIsSplitJoin` | parse_roster.py:94 | `replace(pat, rep)` is `rep.join(split(pat))`, so it replaces exactly the occurrences that `split` cuts at. |
| `Text.SplitOnJoin` | parse_roster.py:94 | Joining the pieces of `split(pat)` with `pat` gives back the string. |
| `Text.SplitOnPiecesLackPat` | parse_roster.py:94 | No piece of `split(pat)` contains `pat`: every occurrence is cut, none is left inside a piece. |
| `Text.ReplaceAbsent` | parse_roster.py:94 | Replacing a pattern that does not occur changes nothing. |
| `Text.ReplaceSkipsPrefix` | parse_roster.py:94 | A prefix lacking the pattern's first character is copied unchanged. |
| `Text.ReplaceDeletes` | parse_roster.py:94 | Replacing with `""` introduces no character. |
| `Record.NormalizeWeight` | parse_roster.py:94 | The normalised weight is stripped and uses only characters of the input. |
| `Record.WeightWithoutUnit` | parse_roster.py:94 | A stripped weight without the letter `l` is unchanged. |
| `Record.WeightWithLbs` | parse_roster.py:94 | A trailing `lbs` is removed, with the whitespace before it. |
| `Record.WeightWithLbsDot` | parse_roster.py:94 | A trailing `lbs.` loses only `lbs`, and the full stop stays. |
| `Record.WeightExamples` | parse_roster_no_bs4.py:42 | The concrete results: `185 lbs` gives `185`. `185lbs` gives `185`, `185` stays `185`, and `185 lbs.` gives `185 .`. |
| `TreeParser.RecordsLayout` | parse_roster.py:16-100 | The output is the header-block records in document order followed by the list-card records in document order. Its length is the number of blocks plus items, with no de-duplication. |
| `TreeParser.NoEntriesNoRecords` | parse_roster.py:16-100 | A page with neither layout yields no record. |
| `TreeParser.AppendHeaderRecords` | parse_roster.py:19-55 | The header-block loop appends exactly one record per block, in order. |
| `TreeParser.AppendCardRecords` | parse_roster.py:58-100 | The list-card loop appends exactly one record per item, in order. |
| `TreeParser.Parse` | parse_roster.py:12-100 | `parse()` builds exactly the record list described by `RecordsLayout`. |
| `TreeParser.Run` | parse_roster.py:103-109 | The table is the header row followed by one row per record, in order, and the reported count is the number of records. |
| `Record.ColumnsCoverEveryKey` | parse_roster.py:104 | There are nine columns: every key appears exactly once and the header names them in order. |
| `Record.Row` | parse_roster.py:106-107 | A row holds the record's value for each column, in column order. |
| `Record.RowRoundTrip` | parse_roster.py:106-107 | Reading a row back gives the record, and a row reads back to a record exactly when it is that record's row. |
| `Record.WriteCsv` | parse_roster.py:103-107 | It writes the header row first, even with no records, then one row per record in order, and returns the count. |
| `Record.TableRoundTrip` | parse_roster.py:104-107 | Every data row of a written table reads back to its record. |
| `Patterns.FirstMatchFrom` | parse_roster_no_bs4.py:10 | `re.search` finds the leftmost matching position. There is no match before it, and it finds nothing only when no position matches. |
| `Patterns.SearchFindsMatch` | parse_roster_no_bs4.py:10 | The group reported by the search is the group of a match at some position. |
| `Patterns.ExtractLeftmost` | parse_roster_no_bs4.py:9-11 | `extract` gives the default when nothing matches. Otherwise it gives the stripped group of the leftmost match. |
| `Patterns.CaptureGroupNoLt` | parse_roster_no_bs4.py:27-35 | A `[^<]+` group is non-empty, has no `<`, and is immediately followed by `<` in the text. |
| `Patterns.ExtractNoLt` | parse_roster_no_bs4.py:27-39 | A value extracted with a `[^<]+` pattern has no `<` and no whitespace at either end. |
| `Patterns.ExtractSpanNoLtNl` | parse_roster_no_bs4.py:23 | A number read through the span pattern has no `<` and no newline. |
| `Patterns.ExtractDigits` | parse_roster_no_bs4.py:25 | A number read through the `roster_jerseynum` pattern consists of digits only. |
| `Patterns.CaptureReads` | parse_roster_no_bs4.py:27-28 | `P([^<]+)<` on the literal, a value without `<`, and `<` captures that value. |
| `Patterns.CaptureSkipReads` | parse_roster_no_bs4.py:30 | `P\s*([^<]+)<` skips leading whitespace and captures the value starting at a non-space character. |
| `Patterns.CaptureSkipBlank` | parse_roster_no_bs4.py:30 | When only whitespace comes before the `<`, backtracking captures its last character, and the extracted position is `""`. |
| `Patterns.DigitsReads` | parse_roster_no_bs4.py:25 | `P\s*([0-9]+)` captures the whole digit run after the whitespace. |
| `Patterns.SpanReads` | parse_roster_no_bs4.py:23 | The span pattern captures the value after the rest of the tag, `>`, whitespace, `<span>` and more whitespace. |
| `Patterns.MarkerStaysInTag` | parse_roster_no_bs4.py:20 | The class attribute contains no `>`, so limiting the search for it to the opening tag loses no match. |
| `Patterns.NextMarkerLeftmost` | parse_roster_no_bs4.py:20 | The next marker found is the leftmost marker match, and none is reported only when none exists. |
| `Patterns.SplitCount` | parse_roster_no_bs4.py:20 | `re.split` gives one more piece than there are marker matches. |
| `Patterns.SplitReassembles` | parse_roster_no_bs4.py:20 | Interleaving the pieces with the matched markers gives back the text, so splitting loses nothing. |
| `Patterns.MarkersShape` | parse_roster_no_bs4.py:20 | Every matched marker starts with `<li`, ends with the class attribute and contains no `>`. |
| `Patterns.FirstPiece` | parse_roster_no_bs4.py:20-21 | The discarded first piece is the text before the first marker, or the whole page when there is none. |
| `RegexParser.CardNumber` | parse_roster_no_bs4.py:23-25 | The `roster_jerseynum` pattern is used only when the span pattern yields `""`. |
| `RegexParser.CardNumberChars` | parse_roster_no_bs4.py:23-25 | A number has no `<` and no newline, and a fallback number consists of digits only. |
| `RegexParser.CardFieldsClean` | parse_roster_no_bs4.py:27-42 | All eight text fields of a record have no `<` and no whitespace at either end. That includes the normalised weight. |
| `RegexParser.HighSchoolClean` | parse_roster_no_bs4.py:35-39 | The high-school fallback keeps the three candidates' cleanliness. |
| `RegexParser.FindHighSchool` | parse_roster_no_bs4.py:35-39 | The reassignment steps compute the first non-empty of the three patterns. It is empty exactly when all three are. |
| `RegexParser.ParseCard` | parse_roster_no_bs4.py:22-54 | One pass of the item loop computes the item's record, weight normalised. |
| `RegexParser.RecordsPerMarker` | parse_roster_no_bs4.py:20-54 | There is exactly one record per marker occurrence, in order. Record `i` is read from the text between marker `i` and the next marker. |
| `RegexParser.NoMarkerNoRecords` | parse_roster_no_bs4.py:20-21 | A page without the marker yields no record. |
| `RegexParser.Parse` | parse_roster_no_bs4.py:13-54 | `parse()` builds exactly one record per piece after the first. |
| `RegexParser.Run` | parse_roster_no_bs4.py:56-64 | The table is the header row followed by one row per record, and the printed count is the number of records. |

## Left out

- File reading, file writing and the printed summary line are not modelled. The page is a parameter. `Run` returns the table of cells and the count instead of writing a file and printing.
- The global `INPUT` and `OUTPUT` paths are configuration only.
- `csv.DictWriter` quoting and escaping are not modelled. A row is the sequence of its nine cells, so the round trip is stated at cell level.
- HTML parsing is not modelled. The document is the abstract tree of `Document.dfy`, so entity decoding, comments, scripts and malformed markup are outside the model.
- Only the selector shapes the code uses are modelled: `tag`, `.class`, `tag.class` and `.class tag`.
- `Document.SelectOneNested`: for `.sidearm-roster-player-jersey span`, only the list item and its descendants count as the ancestor with the class. An ancestor above the list item is not consulted.
- The regex engine is not modelled in general. Each pattern the code uses is written out as the match it denotes, including the one backtracking outcome that can succeed. The `re.S` flag changes nothing here, because no pattern uses `.`.
- On `185 lbs.` the model follows the code, which gives `185 .`, not `185`. The code removes `lbs` before it tries `lbs.`, so the full stop stays. See `Record.WeightWithLbsDot` and `Record.WeightExamples`.
- Running the extractor twice on the same page gives the same output. Every operation is a function of the page, so this holds by construction and has no lemma of its own.
- No concrete page is built as a literal document. Instead, general lemmas cover the record layout, the fallbacks and the weight rule: `TreeParser.RecordsLayout`, `TreeParser.HeaderRecordFields`, `TreeParser.HighSchoolFallsBackOnEmptyText` and `Record.WeightWithLbs`.
