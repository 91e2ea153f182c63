# Document segmentation and comparison: the text engine

This project models the text engine of a document comparison tool (`app.py`). The engine does three things:

- **Segmenting a document into sections.** `segment_document` scans the lines of a text and starts a new section at each heading. A heading is a line that, stripped, either starts with a number and a dot or is a capitalised title ending in a colon. Lines before the first heading go to the section "Header". Each section's lines are joined with newlines.
- **Comparing a filled document with a template, section by section.** `compare_segments` makes one record per section of the template:
  - a section whose filled text is absent or blank is Missing;
  - a section whose stripped filled text equals the template's is Sufficient;
  - any other section is sent to a chat model. The verdict is read from the model's reply, line by line: status, reason, remediation and match percentage.
- **Choosing the icon shown beside a status.** This is `status_icon`.

The model has four modules:

- `Text` holds the Python `str` operations the engine uses: `isspace`, `strip`, `splitlines`, `"\n".join`, `lower`, `replace` and `int`.
- `Dicts` holds dictionaries that remember insertion order.
- `Segmenter` models `segment_document`.
- `Comparator` models `compare_segments`, the reply parsing and `status_icon`.

`segment_document` and `compare_segments` both work by updating a dictionary in a loop, so each is modelled as a method with a loop:
- `Segmenter.SegmentDocument` is proved equal to the specification function `Segmentation`.
- `Comparator.CompareSegments` is proved equal to `Comparison`.
- The reply-parsing loop, `Comparator.ParseReply`, is proved equal to `JudgmentOf`.

The sections are also described independently, by heading positions (`Segmenter.SectionLines`). The scan is proved to build exactly those sections.

The chat model is a parameter, `oracle`. It maps each call (the section, its template text and its filled text) to the reply. A comparison calls the model at most once per section, which is proved. So every sequence of replies the model could give is such a function.

## Model

| member | source | states |
|---|---|---|
| Segmenter.SegmentDocument | app.py:71-81 | The loop over the lines computes `Segmentation(text)`: the dictionary of joined line buffers the scan builds. |
| Segmenter.Step | app.py:76-80 | One turn of the loop keeps the scan state consistent: the key order has no repeats and lists exactly the keys, "Header" stays first, and the current section is a key. |
| Segmenter.ScanSections | app.py:73-80 | After any lines are scanned, the keys are "Header" plus every heading name. The open section is the last heading's name, or "Header" if there is none. Each buffer holds the lines from the last heading naming that section up to the next heading. |
| Segmenter.ScanKeyOrder | app.py:75-79 | Keys appear in the order of the first heading that names them. Exactly the key "Header" has no such heading. |
| Segmenter.ScanCoversLines | app.py:76-80 | When no heading name repeats, the buffers, concatenated in key order, are the input lines: none is lost or duplicated. The open section is the last key. |
| Segmenter.SegmentationSections | app.py:71-81 | The result is a valid ordered dictionary whose first key is "Header". Its keys are "Header" and the heading names, in order of first appearance. Each value is the section's lines joined by newlines. |
| Segmenter.HeaderBeforeFirstHeading | app.py:73-75 | "Header" is always a key and holds the lines before the first heading. It is empty when the text is empty or starts with a heading. |
| Segmenter.NoHeadingsOneSection | app.py:73-81 | Without any heading line, "Header" is the only key and holds the whole text, its lines joined by newlines. |
| Segmenter.HeadingOpensSection | app.py:77-80 | The stripped text of a heading line is a key. Its value starts with the unstripped line of that heading's last occurrence, which is at or after the line. |
| Segmenter.RepeatedHeadingExample | app.py:78-80 | A heading that occurs again discards the lines collected under it so far: heading, draft, heading, final leaves heading, final. |
| Segmenter.ReopenedSections | app.py:79 | With headings at lines 0 and 2 naming the same section, that section is lines 2 and 3, and no other section has lines. |
| Segmenter.HeaderIsNoHeading | app.py:77 | No heading can be named "Header", because "Header" does not end in a colon or start with a digit. |
| Segmenter.HeadingStart | app.py:77 | A heading line, stripped, is not empty and starts with a digit or an ASCII capital letter. |
| Segmenter.TitledHeadingShape | app.py:77 | A capital letter, one or more letters or whitespace characters, and a final colon form a heading, as "Scope Of Work:" does. |
| Segmenter.SingleCapitalIsNoHeading | app.py:77 | A capital letter directly followed by the colon, as in "A:", is not a heading: the title pattern needs a character between them. |
| Segmenter.NumberedHeadingShape | app.py:77 | One or more digits and a period start a heading, whatever follows, as in "12. Budget". |
| Segmenter.IndentedHeading | app.py:77-78 | Whitespace in front of a line changes neither whether it is a heading nor the section name it opens, so "  12. Budget" opens "12. Budget". |
| Segmenter.NoDigitNoColonIsBody | app.py:77 | A line whose stripped text neither starts with a digit nor ends with a colon is not a heading, as "Conclusion: done" is not. |
| Text.SplitLines | app.py:76-76 | Splitting gives no lines exactly for the empty text, and no line holds a line break. |
| Text.SplitLinesJoin | app.py:76 | Splitting a newline-joined list of lines, each free of line breaks and the last not empty, gives the list back. |
| Text.ParseIntToString | app.py:136 | `int(str(n)) == n` for every integer n that `str` can print, that is of at most 4300 digits. |
| Text.ParseIntDigits | app.py:136 | `int` reads a string of 1 to 4300 ASCII digits as its decimal value. |
| Text.ParseIntNegated | app.py:136 | `int` reads a minus sign followed by 1 to 4300 digits as the negated value of the digits. |
| Text.TooManyDigitsFail | app.py:136-138 | `int` refuses a string of more than 4300 digits, whatever its value. |
| Text.ParseIntRefusesStray | app.py:136-138 | `int` refuses text holding a character that is neither whitespace `int` skips, a digit, a sign nor an underscore, such as a decimal point or one of the separators U+001C..U+001F (whitespace to `str.isspace` and `strip`, not to `int`). |
| Text.ParseIntRefusesBlank | app.py:136-138 | `int` refuses empty or blank text. |
| Text.LowerIdempotent | app.py:128 | Lowering twice is lowering once. |
| Comparator.ParseReply | app.py:125-140 | The loop over the reply's lines computes `JudgmentOf(reply)`: for each field, the value of the last line giving it, or its default. |
| Comparator.LaterLineWins | app.py:127-138 | A line added at the end of a reply sets the field it gives, overriding earlier lines. An empty remediation still falls back to "None provided.". The other fields are unchanged. |
| Comparator.NoFieldsDefaults | app.py:126-140 | A reply with no field line gives status "Other Issue", an empty reason, remediation "None provided." and 0. |
| Comparator.FieldsExclusive | app.py:128-134 | A line starts with at most one of the four field names, so the `elif` order does not matter. |
| Comparator.FieldLine | app.py:128-136 | A line made of a field name in any letter case, a space and a value starts with that field, and the field reads the value stripped. |
| Comparator.StatusIsRawText | app.py:128-129 | The status is the text after "Status:", whatever it says, and an empty one stays empty. |
| Comparator.PercentNotClamped | app.py:134-136 | "Match Percentage: n%" gives n for every integer n of at most 4300 digits, negative or above 100. |
| Comparator.PercentSignsIgnored | app.py:136 | Every "%" in a percentage value is removed before it is read, wherever it stands. |
| Comparator.OverlongPercentGivesZero | app.py:134-138 | A last percentage line of more than 4300 digits gives 0, whatever earlier lines said. |
| Comparator.SeparatorInPercentGivesZero | app.py:134-138 | A last percentage line with a separator U+001C..U+001F between the digits and the "%", such as "Match Percentage: 5\x1f%", gives 0: `strip` leaves the separator in place and `int` refuses it. |
| Comparator.NoPercentLineGivesZero | app.py:126 | Without a "Match Percentage:" line, the match is 0. |
| Comparator.MalformedPercentResets | app.py:135-138 | A last percentage line that `int` cannot read gives 0, whatever earlier lines said. |
| Comparator.CompareSection | app.py:88-148 | One turn of the loop computes the section's record `Assess`, and makes the call `RequestFor`: one call exactly when the filled text is not blank and differs, stripped, from the template's. |
| Comparator.CompareSegments | app.py:84-149 | The loop computes `Comparison`, and the calls it makes are `Requests`: each judged section's call, in template order. |
| Comparator.ReportFollowsTemplate | app.py:86-149 | The report lists exactly the template's sections, in the template's order, each once. A section only the filled document has is not reported. Each record carries the template text and the filled text, or "" when the filled document lacks the section. |
| Comparator.RequestsOnePerSection | app.py:87-124 | A call is made for a section exactly when the section needs a judgment, and it carries that section's two texts. No two calls are for the same section. |
| Comparator.AbsentIsMissing | app.py:88-93 | A section absent from the filled document, or blank there, is Missing with 0 and the fixed reason and remediation. The model is not asked about it. |
| Comparator.UnchangedIsSufficient | app.py:94-98 | A non-blank section whose stripped filled text equals the template's is Sufficient with 100, "None needed." and the fixed reason. The model is not asked about it. |
| Comparator.ChangedIsJudgedOnce | app.py:99-140 | Any other section is sent to the model exactly once, with both texts, and its record carries the status, reason, remediation and percentage read from the reply. |
| Comparator.OnlyRequestsConsulted | app.py:115-124 | Two models that give the same replies to the calls made produce the same report. |
| Comparator.SelfComparison | app.py:88-98 | Comparing a template with itself calls the model never. Every section is Sufficient, or Missing when blank. |
| Comparator.HeaderAlwaysReported | app.py:73-93 | A report of two segmented documents always starts with a "Header" record. When the filled text is empty or starts with a heading, that record is Missing. |
| Comparator.StatusIcon | app.py:151-160 | The question-mark icon is given exactly when the lowered status is none of "sufficient", "missing" and "lacking information". |
| Comparator.StatusIconIgnoresCase | app.py:152 | A status and its lowered form get the same icon. |
| Comparator.StatusIcons | app.py:153-160 | "Sufficient" gets the check mark, "Missing" the cross, "Lacking Information" the warning sign and "Other Issue" the question mark. |

## Left out

- The Streamlit interface is not modelled: pages, widgets, session state, progress display, the status filter and the report download (app.py:163-265). It is presentation and interaction.
- Configuration, environment loading and directory creation (app.py:14-32) are not modelled. They are I/O at start-up.
- Saving, loading and listing templates as JSON (app.py:40-52) is not modelled. It is file I/O and serialisation.
- `read_uploaded_file` (app.py:54-68) is not modelled. It wraps the file system and the docx and PDF libraries.
- The OpenAI client call (app.py:115-124) is replaced by the `oracle` parameter:
  - its model name, temperature and system message are not modelled;
  - an exception the client raises is not modelled (it would end `compare_segments`);
  - the oracle is keyed by the section and its two texts, which determine the prompt, rather than by the prompt text; the prompt's fixed wording is not modelled.
- `Text.LowerChar` lowers ASCII letters and the Kelvin sign only. For any other character, `str.lower` may give a different string, but one that never equals the lower-case ASCII field names and statuses it is compared with. So the lowering can only differ from Python's on the text of a line, not on which branch is taken.
- `Text.ParseInt` accepts ASCII digits only. Python's `int` also accepts other Unicode decimal digits, which the model reads as failures, giving 0. Its limit of 4300 digits (`Text.MaxStrDigits`) is modelled.
- A reply whose content is `None` is not modelled. `.splitlines()` on it raises at app.py:125, ending `compare_segments`; the oracle always returns a string.
- `Segmenter.IsHeading` reads the regular expressions' `\s` and `\d` as `str.isspace` and ASCII digits. Python's `re` also takes other Unicode digits for `\d`.
- Segmenter.ScanCoversLines: line coverage is stated only when no heading name repeats. A repeated heading discards lines by design (`Segmenter.RepeatedHeadingExample`). Coverage is stated on the line lists, not on the joined strings.
- Some behaviour of the code is easy to misread; the model follows the code:
  - a repeated reply field takes its last value (`Comparator.LaterLineWins`);
  - the status is the raw text after "Status:", and "Other Issue" is used only when no status line exists (`Comparator.StatusIsRawText`);
  - the percentage is not clamped to 0-100, and every "%" in it is removed (`Comparator.PercentNotClamped`, `Comparator.PercentSignsIgnored`);
  - the separators U+001C..U+001F are whitespace to `strip`, which removes them from the ends of a value, but not to `int`, which refuses one left inside (`Text.IsIntSpace`, `Comparator.SeparatorInPercentGivesZero`);
  - every report has a "Header" record, even when the template has no text before its first heading. It is Missing when the filled document has no such text either, and is judged like any other section otherwise (`Comparator.HeaderAlwaysReported`).
