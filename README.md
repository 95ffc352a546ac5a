# Daily devotional bot: the text rules, verified

The bot looks up today's Bible reading in a spreadsheet plan, fetches the
passage in English (World English Bible, from a JSON API) and in Korean
(Easy-to-Read Version, scraped from a passage page), and posts both as embed
fields to a Discord webhook. Nearly all of it is I/O; this project models the
deterministic rules inside it and proves what they promise:

- **Schedule** — the scan of the plan's rows for the first one dated today.
- **English** — the rendering of a `verses` array as `**n** text` lines joined
  by newlines, with the plain `text` field and the error string as fallbacks.
- **Korean** — the choice of the first passage container found among four
  searches, the per-span segment rules (footnote markers `[a]` removed,
  numbered spans kept when non-empty, unnumbered ones when longer than three
  characters), the single-space join, and the last-resort full-text fallback
  (whitespace collapsed, markers removed, accepted above 100 characters).
- **Discord** — the normalisation of each field value (blank text replaced by
  a fixed error string, text over 2000 characters cut to 1950 plus a suffix)
  and the 200/204 success test.
- **Text** — the string operations they share, each written to match Python:
  `str.isspace` whitespace (which is also what `\s` and `str.strip()` use),
  `re.sub` as one left-to-right scan, `str.join`, `str.split`, `str(n)`.

Everything outside the script's own logic is a parameter: today's date
string, the plan's rows, the outcome of each HTTP request, and what the HTML
parser found (four optional containers; per container its `span.text`
elements as an optional verse number plus text, and its remaining text).

Other revisions of this bot pack verses into 1024-character chunks and also
strip `(A)` cross-reference markers; this script does neither (it cuts one
value at 2000 characters and removes only `[a]` markers), and the model
follows the script.

## Model

| member | source | states |
|---|---|---|
| Schedule.ScheduledReference | src/daily_qt.py:29-33 | None exactly when no row's date equals today's string; otherwise the reference of a row dated today before which no row is dated today |
| Schedule.FindTodaysReference | src/daily_qt.py:29-33 | the scan with its early return yields exactly that first-match reference |
| Schedule.ScheduledReferenceAppend | src/daily_qt.py:29-33 | first match wins: rows after a block that holds a match never change the answer; a block without one defers to the rows after it |
| English.VerseLine | src/daily_qt.py:45 | one verse rendered as `**verse** text`; `EnglishVerseLines` states the lines it yields |
| English.FormatVerses | src/daily_qt.py:43-46 | the verse lines joined by newlines; `EnglishVerseLines` proves the join splits back into exactly one line per verse, in order, and `EnglishNoVerses` that no verses give the empty text |
| English.EnglishText | src/daily_qt.py:36-51 | an exception, a status other than 200 or an undecodable body give "Error fetching English text."; a body without `verses` gives its `text` unchanged |
| English.EnglishVerseLines | src/daily_qt.py:43-46 | N verses whose fields hold no newline give a text that splits on newlines into exactly N lines, the i-th being `**verse** text` of the i-th verse |
| English.EnglishNoVerses | src/daily_qt.py:43-46 | an empty `verses` array gives the empty text |
| Text.Join | src/daily_qt.py:45 | `sep.join(parts)`, also used for the Korean segments at line 135; `SplitJoin` proves splitting undoes it and `JoinNonEmpty` that a non-empty part makes it non-empty |
| Text.SplitJoin | src/daily_qt.py:45 | joining parts with a one-character separator none of them contains and splitting again gives the parts back |
| Text.IsBlank | src/daily_qt.py:180-183 | `not s or s.strip() == ""`: every character is `str.isspace` whitespace; `FieldValue` states what a blank text becomes |
| Text.StripFootnotes | src/daily_qt.py:123 | `re.sub(r'\[[a-zA-Z]\]', '', s)` as one left-to-right scan (also at lines 130 and 151); `StripFootnotesExact` characterises its result |
| Text.StripFootnotesExact | src/daily_qt.py:123 | the substitution removes exactly the characters that lie inside some `[letter]` occurrence of the input and keeps every other character, in order |
| Text.StripFootnotesSubsequence | src/daily_qt.py:123 | the footnote substitution only deletes characters; the rest stay in their original order |
| Text.StripFootnotesUnchangedIffFree | src/daily_qt.py:123 | the substitution leaves a text unchanged exactly when no `[letter]` occurs in it, and otherwise removes at least one whole three-character marker |
| Text.StripFootnotesSinglePass | src/daily_qt.py:130 | the scan is a single pass: on `[[a]b]` it removes `[a]` and leaves the newly joined `[b]` |
| Text.StripFootnotesJoinsNeighbours | src/daily_qt.py:151 | removing a marker brings its neighbours together: `a [b] c` becomes `a  c` |
| Text.CollapseIsCollapsed | src/daily_qt.py:150 | the collapsed text holds no whitespace but ' ' and never two whitespace characters in a row |
| Text.CollapseRun | src/daily_qt.py:150 | a maximal whitespace run between two texts becomes exactly one space, and the texts on either side are collapsed independently of each other |
| Text.CollapseFixesCollapsed | src/daily_qt.py:150 | a text with single ' ' as its only whitespace is left unchanged |
| Text.CollapseIdempotent | src/daily_qt.py:150 | collapsing twice is collapsing once |
| Text.CollapseKeepsNonSpace | src/daily_qt.py:150 | the collapse keeps every non-whitespace character, in order |
| Text.CollapseWhitespace | src/daily_qt.py:150 | `re.sub(r'\s+', ' ', s)`; its own contract keeps a leading non-whitespace character, and `CollapseIsCollapsed`, `CollapseRun` and `CollapseKeepsNonSpace` state the rest |
| Text.Decimal | src/daily_qt.py:76 | `str(status)` is a non-empty string of decimal digits without a leading zero |
| Text.DecimalRoundTrip | src/daily_qt.py:76 | reading the rendered status back as a decimal gives the status |
| Text.JoinNonEmpty | src/daily_qt.py:135 | joining a list with a non-empty element gives a non-empty text |
| Korean.Candidates | src/daily_qt.py:82-87 | the four container searches in the order the script tries them; `FirstPresent` and `PassageColFirst` state which one is chosen |
| Korean.FirstPresent | src/daily_qt.py:82-94 | None exactly when every candidate is missing; otherwise a candidate that was found, with none found before it |
| Korean.SelectContainer | src/daily_qt.py:89-94 | the loop that breaks at the first container found chooses exactly that first one |
| Korean.Segment | src/daily_qt.py:117-132 | what one `span.text` element contributes; `SpanContribution` states both rules in both directions |
| Korean.Segments | src/daily_qt.py:113-132 | the `verses_data` list: each span contributes at most one segment, so there are never more segments than spans; `SegmentsAppend` and `SegmentsNonEmpty` state order and non-emptiness |
| Korean.PassageColFirst | src/daily_qt.py:82-94 | a `passage-col` container that was found decides the text, whatever the later searches returned |
| Korean.SpanContribution | src/daily_qt.py:113-132 | a numbered span contributes `**num** cleaned` if and only if its cleaned text is non-empty; an unnumbered span contributes its cleaned text if and only if that is longer than 3 characters |
| Korean.SegmentsAppend | src/daily_qt.py:109-132 | the segments of spans in sequence are the segments of each part in sequence, so document order is kept |
| Korean.SegmentsNonEmpty | src/daily_qt.py:124-132 | no segment is empty |
| Korean.ExtractSegments | src/daily_qt.py:109-132 | the loop that appends to `verses_data` builds exactly the segment list of the spans |
| Korean.FallbackText | src/daily_qt.py:148-163 | the full-text fallback; `FallbackOutcome`, `FallbackAfterCollapse` and `FallbackIgnoresLayout` state what it accepts and what it ignores |
| Korean.SegmentsBeforeFallback | src/daily_qt.py:134-139 | whichever container is chosen, when its spans yield segments the text is those segments joined by single spaces, and any page whose chosen container has the same spans gives the same text whatever its remaining text |
| Korean.FallbackOutcome | src/daily_qt.py:148-163 | the fallback is accepted exactly when the cleaned text is longer than 100 characters, is then exactly the characters of the collapsed text that lie outside every `[letter]` marker, and is otherwise exactly "Error: Could not extract passage text" |
| Korean.FallbackAfterCollapse | src/daily_qt.py:150-157 | the fallback of a text is the fallback of its collapsed form |
| Korean.FallbackIgnoresLayout | src/daily_qt.py:150-157 | replacing any maximal whitespace run of the remaining text by any other non-empty whitespace run leaves the fallback's outcome unchanged |
| Korean.FallbackMayJoinSpaces | src/daily_qt.py:150-151 | the collapse alone leaves no double whitespace, but removing a marker afterwards can leave two spaces together |
| Korean.KoreanText | src/daily_qt.py:54-169 | the text `fetch_korean_text` returns; `KoreanErrors`, `SegmentsBeforeFallback`, `KoreanTextNonEmpty` and `FetchKoreanText` state its cases |
| Korean.KoreanErrors | src/daily_qt.py:75-103 | a raised request and a non-200 status give an `Error: ` text (`Error: HTTP <status>` for the latter); no container found gives exactly "Error: No passage container found" |
| Korean.FetchKoreanText | src/daily_qt.py:54-169 | the function with its early returns computes the modelled Korean text |
| Korean.KoreanTextNonEmpty | src/daily_qt.py:54-169 | the Korean text is never empty |
| Discord.FieldValue | src/daily_qt.py:179-189 | the value is at most the limit long and non-blank; blank input becomes the missing-text message; non-blank input within the limit is unchanged; longer input becomes its first limit-50 characters followed by the suffix |
| Discord.FieldValueIdempotent | src/daily_qt.py:179-189 | normalising a normalised value changes nothing |
| Discord.PrepareFields | src/daily_qt.py:179-189 | both values end non-blank and at most 2000 characters long; a cut English value is 1990 characters, a cut Korean one 1953 |
| Discord.AsWrittenPassesOversizedText | src/daily_qt.py:185-189 | every non-blank text of 1025 to 2000 characters is posted whole, in both fields, past Discord's 1024-character field limit |
| Discord.AsWrittenExceedsDiscordLimit | src/daily_qt.py:185-187 | one concrete input: a non-blank 1500-character English text is posted whole, past Discord's 1024-character field limit |
| Discord.DiscordFieldValue | src/daily_qt.py:185-189 | with Discord's 1024-character limit the value always fits and a fitting non-blank text is unchanged |
| Discord.PostSucceeded | src/daily_qt.py:231 | the status test `in [200, 204]`; `PostSucceededStatuses` states it as an if-and-only-if |
| Discord.PostSucceededStatuses | src/daily_qt.py:231 | a post counts as successful if and only if the status is 200 or 204 |

## Left out

- Google Sheets access and the service-account credentials: the plan's rows are a parameter, each row's `Date` already turned into a string by `str`.
- The clock: today's `%Y-%m-%d` string is a parameter.
- HTTP requests, JSON decoding and exception types: each fetch is given its outcome (an exception with its message, or a status and a decoded body).
- BeautifulSoup: parsing, `find`, `find_all`, `decompose` and `get_text` are not modelled. A container is given as its `span.text` elements (optional verse number, text after `get_text(strip=True)`) and its remaining text (after the verse numbers, headings and publisher notes are removed).
- English.EnglishText: a `verses` element missing its `verse` or `text` key (a `KeyError` the same handler catches) is not modelled; every element has both. The verse number is taken as already rendered by `str`.
- The payload itself: username, thread name, title, links built with `quote`, colour and footer are static layout or library calls.
- The environment-variable check at start-up and the webhook URL: process configuration.
- `main`: the order of the calls and the skip when no reference is found are not modelled as a member.
- Discord.PostSucceededStatuses: the response body and the log lines on failure are not modelled.
- Debug output, the traceback dump and the HTML snippet dump: they do not affect any result.

## Findings

| source | as written | input that shows it | evidently intended | confidence | as-written member | corrected member |
|---|---|---|---|---|---|---|
| src/daily_qt.py:185-189 | a field value is cut only above 2000 characters, the comment taking 2000 to be Discord's per-field limit | a non-blank English text of 1500 characters is posted whole, while Discord accepts at most 1024 characters in an embed field's value | every field value fits Discord's 1024-character field limit | medium; not executed | Discord.AsWrittenExceedsDiscordLimit | Discord.DiscordFieldValue |
