# Papillon screens: attendance summary, lesson details, news row

This project models the display logic of three screens of the Papillon school app:

- **Attendance element** (home screen). It turns a period's absence and delay records
  into a total and an unjustified missed-time span (hours and minutes). From the total it
  derives the card's importance level: 3 when anything was missed, 0 otherwise. It also
  decides when to show the "Aucune absence" empty state, and which text that state shows.
- **Lesson document**. It formats a lesson's duration (`lz`, `getDuration`), rounding
  the timestamp difference to whole minutes. It builds the four information sections:
  "Durée et horaires", "Cours en ligne", "Contexte" and "Statut". The labels switch to
  the plural when a value holds a comma. A section is shown only when one of its items
  is enabled, and an item is tappable only when its value starts with "http". It also
  formats a resource's title (first letter upper case) and description (first blank
  line collapsed).
- **News item**. It picks a message's lead image: the first file attachment whose
  extension (the text after the last dot, cut at the first "?", lower-cased) is jpg,
  jpeg or png. It also decides what a news row shows: the unread dot, the title, the
  snippet or "Contient une image", and the separator.

Modules:

- `Wrappers` holds `Option`.
- `Strings` gives the JavaScript string operations the screens use: `split`, `join`,
  `indexOf`/`includes`, `replace`, the bracket-removing regular expression,
  `toLowerCase`/`toUpperCase`, and `Number` on digit strings.
- `JsMath` gives `Math.round`, `Math.floor` of a quotient, and the truncating `%`.
- `AttendanceElement`, `LessonDocument` and `NewsItem` model the three screens.

Each piece of display logic is a pure function. Lemmas relate each function to an
independent statement of what it means, as the table below lists.

The attendance sums are computed over exact whole minutes. The source adds
`hours + minutes / 60` as floating-point hours and normalises with `Math.floor` and
`Math.round((x % 1) * 60)`. `NormalizeHoursExact` proves that this normalisation,
taken over exact reals, gives the same span as the integer one. JavaScript's `NaN`,
produced when an hour piece is not a number, is `None`. It propagates through the
sum exactly as `NaN` does.

A duration string without an `h` is not NaN in the code, and the model follows the
code:

- `"3"` splits into `["3"]`, the missing minute piece becomes `0` through
  `minutes || 0`, and the record counts as three hours.
- A non-numeric minute piece is `NaN`, which `|| 0` also turns into `0`.
- Only a non-numeric hour piece makes the sum `NaN`.
- An empty default period is falsy in the code, so it counts as "no period".

## Model

| member | source | states |
|---|---|---|
| Strings.StartsWith | src/views/account/Lessons/Document.tsx:267 | `startsWith`: the prefix occurs at index 0 |
| Strings.IndexOf | src/views/account/News/Atoms/Item.tsx:90 | `indexOf`: the first position where the pattern occurs, or none when it occurs nowhere |
| Strings.Contains | src/views/account/News/Atoms/Item.tsx:90 | `includes`: true exactly when the pattern occurs at some position |
| Strings.ContainsChar | src/views/account/Lessons/Document.tsx:165 | `includes` of a one-character pattern is membership of that character |
| Strings.Split | src/views/account/Lessons/Document.tsx:172 | `split` with a string separator yields at least one piece; the first is a prefix of the input and no piece holds the separator |
| Strings.SplitNoOccurrence | src/views/account/Home/Elements/AttendanceElement.tsx:60 | a string in which the separator never occurs splits into itself alone |
| Strings.Join | src/views/account/Lessons/Document.tsx:172 | `join`: the empty list gives ""; otherwise the parts' total length plus one separator between each two, starting with the first part |
| Strings.JoinSplit | src/views/account/Lessons/Document.tsx:172 | joining the pieces of a split with the same separator gives back the original string |
| Strings.SplitJoin | src/views/account/Lessons/Document.tsx:172 | splitting a join gives back the pieces, when no piece holds the separator's first character |
| Strings.SplitAfter | src/views/account/Home/Elements/AttendanceElement.tsx:60 | splitting `a + sep + b` gives `a` followed by the pieces of `b`, when `a` holds no separator character |
| Strings.SplitWhole | src/views/account/Home/Elements/AttendanceElement.tsx:60 | a string without the separator's first character splits into itself alone |
| Strings.SplitCharPieces | src/views/account/Home/Elements/AttendanceElement.tsx:60 | no piece of a split on one character holds that character |
| Strings.SplitPiecesWithin | src/views/account/Lessons/Document.tsx:172 | a character absent from the string is absent from every piece |
| Strings.LastPiece | src/views/account/News/Atoms/Item.tsx:30 | `split(c).pop()`: a suffix without `c`, preceded by `c` when it is not the whole string |
| Strings.FirstPiece | src/views/account/News/Atoms/Item.tsx:30 | `split(c)[0]`: a prefix without `c`, followed by `c` when it is not the whole string |
| Strings.LastPieceAfter | src/views/account/News/Atoms/Item.tsx:30 | the last piece of `stem + c + x` is `x` when `x` holds no `c` |
| Strings.FirstPieceBefore | src/views/account/News/Atoms/Item.tsx:30 | the first piece of `x + c + rest` is `x` when `x` holds no `c` |
| Strings.ReplaceFirst | src/views/account/Lessons/Document.tsx:307 | `replace` with a string pattern: unchanged when the pattern is absent, otherwise one occurrence swapped, so the length changes by the difference |
| Strings.ReplaceFirstAt | src/views/account/Lessons/Document.tsx:307 | only the first occurrence is replaced; text after it, even another occurrence, is kept |
| Strings.RemoveChars | src/views/account/Lessons/Document.tsx:184 | removing a set of characters leaves none of them and never lengthens the string |
| Strings.RemoveCharsMembers | src/views/account/Lessons/Document.tsx:184 | a character is in the result exactly when it is in the input and not removed |
| Strings.RemoveCharsAppend | src/views/account/Lessons/Document.tsx:184 | removing characters distributes over concatenation |
| Strings.RemoveCharsNone | src/views/account/Lessons/Document.tsx:184 | a string holding none of the removed characters is unchanged |
| Strings.RemoveCharsAround | src/views/account/Lessons/Document.tsx:184 | two removed characters around a middle part vanish, leaving the parts around them joined |
| Strings.UpperCase | src/views/account/Lessons/Document.tsx:306 | `toUpperCase` of one character: "ß" becomes "SS", "µ" Greek capital mu (U+039C) and "ÿ" "Ÿ" (U+0178); a Latin letter with an upper case becomes a single different letter whose lower case is the original; every other character stays itself |
| Strings.UpperCaseIdempotent | src/views/account/Lessons/Document.tsx:306 | upper-casing the first character of an upper case changes nothing |
| Strings.ToLower | src/views/account/News/Atoms/Item.tsx:30 | `toLowerCase` keeps the length and maps each character |
| Strings.ShowNat | src/views/account/Lessons/Document.tsx:51 | a number is written as a non-empty digit string, one digit long exactly below 10, with no leading zero |
| Strings.ShowInt | src/views/account/Lessons/Document.tsx:51 | an integer's text reads back as it when non-negative; a negative one is "-" followed by the text of its magnitude |
| Strings.ParseNumber | src/views/account/Home/Elements/AttendanceElement.tsx:60 | `Number` yields a number exactly for digit strings, the empty string included |
| Strings.ParseShow | src/views/account/Home/Elements/AttendanceElement.tsx:60 | reading a written number gives the number back |
| Strings.ParseLeadingZero | src/views/account/Lessons/Document.tsx:46 | a leading zero does not change the value read |
| JsMath.Round | src/views/account/Lessons/Document.tsx:143 | `Math.round` gives the nearest integer, a half going up |
| JsMath.FloorDiv | src/views/account/Lessons/Document.tsx:49 | `Math.floor(n / k)` is the quotient rounded down |
| JsMath.Rem | src/views/account/Lessons/Document.tsx:50 | `%` truncates: the mathematical remainder for a non-negative dividend; for a negative one, the negated remainder of its magnitude, in (-k, 0] |
| JsMath.RemNegate | src/views/account/Lessons/Document.tsx:50 | negating the dividend negates the remainder |
| JsMath.FloorDivRem | src/views/account/Home/Elements/AttendanceElement.tsx:63 | for a non-negative dividend, `floor(n / k) * k + n % k == n`, with the remainder below `k` |
| AttendanceElement.AbsenceMinutes | src/views/account/Home/Elements/AttendanceElement.tsx:60-61 | a record's duration is NaN exactly when the piece before the first "h" is not a number, and otherwise at least that many hours |
| AttendanceElement.AbsenceReadsHoursAndMinutes | src/views/account/Home/Elements/AttendanceElement.tsx:60-61 | `"<h>h<m>"` counts as `h * 60 + m` minutes |
| AttendanceElement.AbsenceReadsWholeHours | src/views/account/Home/Elements/AttendanceElement.tsx:60-61 | `"<h>h"` and `"<h>"` count as `h` whole hours, the missing minutes being 0 |
| AttendanceElement.AbsenceIgnoresBadMinutes | src/views/account/Home/Elements/AttendanceElement.tsx:60-61 | a non-numeric minute piece counts as 0 |
| AttendanceElement.AbsenceRejectsBadHours | src/views/account/Home/Elements/AttendanceElement.tsx:60-61 | a non-numeric hour piece makes the record NaN |
| AttendanceElement.AbsenceTwoPieces | src/views/account/Home/Elements/AttendanceElement.tsx:60-61 | `"<a>h<b>"` without further "h" is NaN when `a` is not a number, otherwise `a` hours plus `b` minutes or 0 |
| AttendanceElement.DelayMinutes | src/views/account/Home/Elements/AttendanceElement.tsx:62-64 | splitting a delay into `floor(d / 60)` hours and `d % 60` minutes and adding them back gives exactly `d` minutes |
| AttendanceElement.SumAbsences | src/views/account/Home/Elements/AttendanceElement.tsx:59-61 | the absence fold is NaN once its accumulator is, and otherwise never below its starting value |
| AttendanceElement.SumDelays | src/views/account/Home/Elements/AttendanceElement.tsx:62-65 | the delay fold never goes below its starting value, and the unjustified fold over justified delays stays there |
| AttendanceElement.MissedMinutes | src/views/account/Home/Elements/AttendanceElement.tsx:59-79 | the total is every absence duration plus every delay duration; the unjustified time is the durations of the unjustified absences plus those of the unjustified delays |
| AttendanceElement.UnjustifiedAbsences | src/views/account/Home/Elements/AttendanceElement.tsx:67-72 | the absences kept are exactly the unjustified ones; with the Append/Single lemmas, each is kept as often as it occurs and in its place |
| AttendanceElement.UnjustifiedDelays | src/views/account/Home/Elements/AttendanceElement.tsx:73-79 | the delays kept are exactly the unjustified ones; with the Append/Single lemmas, each is kept as often as it occurs and in its place |
| AttendanceElement.UnjustifiedAbsencesAppend | src/views/account/Home/Elements/AttendanceElement.tsx:67-72 | the unjustified absences of two lists are those of the first, then those of the second |
| AttendanceElement.UnjustifiedAbsencesSingle | src/views/account/Home/Elements/AttendanceElement.tsx:67-72 | one absence is counted exactly when it is not justified |
| AttendanceElement.UnjustifiedDelaysAppend | src/views/account/Home/Elements/AttendanceElement.tsx:73-79 | the unjustified delays of two lists are those of the first, then those of the second |
| AttendanceElement.UnjustifiedDelaysSingle | src/views/account/Home/Elements/AttendanceElement.tsx:73-79 | one delay is counted exactly when it is not justified |
| AttendanceElement.AbsenceTotalDefined | src/views/account/Home/Elements/AttendanceElement.tsx:59-61 | a plain sum of absence durations is a number exactly when every duration is |
| AttendanceElement.SumAbsencesFrom | src/views/account/Home/Elements/AttendanceElement.tsx:59-61 | the absence fold from any start value is that value plus the fold from zero, NaN absorbing |
| AttendanceElement.SumAbsencesSnoc | src/views/account/Home/Elements/AttendanceElement.tsx:59-61 | adding a record at the end adds that record's contribution |
| AttendanceElement.SumAbsencesDefined | src/views/account/Home/Elements/AttendanceElement.tsx:59-61 | the absence sum is a number exactly when every record that counts has a numeric hour piece |
| AttendanceElement.SumAbsencesTotal | src/views/account/Home/Elements/AttendanceElement.tsx:59-61 | the total absence fold is the plain sum of every absence's duration |
| AttendanceElement.SumAbsencesUnjustified | src/views/account/Home/Elements/AttendanceElement.tsx:67-72 | the unjustified absence fold is the plain sum of the unjustified absences' durations |
| AttendanceElement.SumAbsencesUnjustifiedWithin | src/views/account/Home/Elements/AttendanceElement.tsx:59-72 | the unjustified absence sum never exceeds the total absence sum |
| AttendanceElement.SumAbsencesAllJustified | src/views/account/Home/Elements/AttendanceElement.tsx:67-72 | when every absence is justified, the unjustified fold adds nothing |
| AttendanceElement.SumDelaysFrom | src/views/account/Home/Elements/AttendanceElement.tsx:62-65 | the delay fold from any start value is that value plus the fold from zero |
| AttendanceElement.SumDelaysTotal | src/views/account/Home/Elements/AttendanceElement.tsx:62-65 | the total delay sum is the sum of all delay durations |
| AttendanceElement.SumDelaysUnjustified | src/views/account/Home/Elements/AttendanceElement.tsx:73-79 | the unjustified delay sum is the sum of the unjustified delays' durations, each whole |
| AttendanceElement.SumDelaysUnjustifiedWithin | src/views/account/Home/Elements/AttendanceElement.tsx:62-79 | the unjustified delay sum never exceeds the total delay sum |
| AttendanceElement.SumDelaysAllJustified | src/views/account/Home/Elements/AttendanceElement.tsx:73-79 | when every delay is justified, the unjustified fold adds nothing |
| AttendanceElement.Normalize | src/views/account/Home/Elements/AttendanceElement.tsx:81-90 | a minute count becomes non-negative hours and minutes in [0, 59] that add back to it |
| AttendanceElement.NormalizeUnique | src/views/account/Home/Elements/AttendanceElement.tsx:81-90 | that span is the only one with minutes in [0, 59] for the count |
| AttendanceElement.NormalizeHours | src/views/account/Home/Elements/AttendanceElement.tsx:83-84 | `Math.floor(h)` is the whole hours below `h`, and `Math.round((h % 1) * 60)` lies in [0, 60] |
| AttendanceElement.NormalizeHoursExact | src/views/account/Home/Elements/AttendanceElement.tsx:83-84 | `Math.floor(h)` and `Math.round((h % 1) * 60)` of `m / 60` hours give the same span as normalising `m` minutes, so 60 minutes never shows |
| AttendanceElement.NormalizeSum | src/views/account/Home/Elements/AttendanceElement.tsx:81-90 | a NaN sum stays NaN; a number becomes a normalised span of the same minutes |
| AttendanceElement.FormatTotalMissed | src/views/account/Home/Elements/AttendanceElement.tsx:51-91 | no data gives zero for both spans; otherwise both spans are normalised, and with no records both are zero |
| AttendanceElement.TotalIsSumOfAll | src/views/account/Home/Elements/AttendanceElement.tsx:59-65 | the total is a number exactly when every hour piece is, and it spans every absence and every delay duration |
| AttendanceElement.UnjustifiedIsSumOfUnjustified | src/views/account/Home/Elements/AttendanceElement.tsx:67-79 | the unjustified span is a number exactly when every unjustified absence's hour piece is, and it spans the unjustified absences and delays only |
| AttendanceElement.WorkedExample | src/views/account/Home/Elements/AttendanceElement.tsx:59-90 | an unjustified "2h30" absence and a justified 45-minute delay give 3h15 in all, 2h30 of it unjustified |
| AttendanceElement.TwoHoursThirty | src/views/account/Home/Elements/AttendanceElement.tsx:60-61 | "2h30" is 150 minutes |
| AttendanceElement.UnjustifiedWithinTotal | src/views/account/Home/Elements/AttendanceElement.tsx:59-90 | the unjustified span never exceeds the total span |
| AttendanceElement.AllJustifiedNothingUnjustified | src/views/account/Home/Elements/AttendanceElement.tsx:67-79 | when every record is justified, the unjustified span is zero |
| AttendanceElement.SelectedPeriod | src/views/account/Home/Elements/AttendanceElement.tsx:49 | the record of the default period, present exactly when there is attendance data, a non-empty default period, and a record under that key |
| AttendanceElement.Importance | src/views/account/Home/Elements/AttendanceElement.tsx:26-37 | the level is 3 or 0, nothing in between |
| AttendanceElement.ImportanceIffMissed | src/views/account/Home/Elements/AttendanceElement.tsx:26-37 | the level is 3 exactly when the period's total has positive hours or minutes |
| AttendanceElement.AttendanceCard | src/views/account/Home/Elements/AttendanceElement.tsx:93-126 | the "Aucune absence" state shows exactly when there is no record for the period or it has no absences; otherwise the card shows the period's formatted missed time |
| AttendanceElement.DelaysAloneShowNoAbsence | src/views/account/Home/Elements/AttendanceElement.tsx:93 | a period with delays but no absences still shows the empty state, naming the period |
| LessonDocument.Lz | src/views/account/Lessons/Document.tsx:46 | a non-negative number prints as at least two digits that read back as it; one below 10 starts with "0" |
| LessonDocument.LzTwoDigits | src/views/account/Lessons/Document.tsx:46 | `lz` writes every minute in [0, 59] as exactly two digits that read back as the minute |
| LessonDocument.GetDuration | src/views/account/Lessons/Document.tsx:48-52 | `getDuration(m)` for non-negative `m` has the form `"<h>h <mm> min"` and reads back as `m`; from one hour up the hour figure has no leading zero; a negative `m` gives a negative hour figure |
| LessonDocument.NinetyMinutes | src/views/account/Lessons/Document.tsx:48-52 | ninety minutes are shown as "1h 30 min" |
| LessonDocument.ReadDurationOf | src/views/account/Lessons/Document.tsx:51 | a text built as hours, "h ", two minute digits and " min" reads back as those hours and minutes |
| LessonDocument.LessonMinutes | src/views/account/Lessons/Document.tsx:142-144 | the rounded minute count lies within half a minute of the lesson's length |
| LessonDocument.LessonMinutesDivision | src/views/account/Lessons/Document.tsx:142-144 | the rounding equals `(end - start + 30000)` divided by 60000, rounded down |
| LessonDocument.Label | src/views/account/Lessons/Document.tsx:165-183 | the plural label exactly when the value is present and holds a comma, the singular otherwise |
| LessonDocument.RoomValue | src/views/account/Lessons/Document.tsx:172 | without line breaks in the room text, the shown lines are exactly the rooms listed with ", " |
| LessonDocument.GroupValue | src/views/account/Lessons/Document.tsx:184 | the shown group holds no square bracket and every other character of the group |
| LessonDocument.MapValue | src/views/account/Lessons/Document.tsx:172-184 | the mapped value is present exactly when the value is, and is then `f` of it |
| LessonDocument.DurationValue | src/views/account/Lessons/Document.tsx:139-146 | the duration line has a value exactly when both timestamps are known, and it reads back as the rounded lesson length when the end is not before the start |
| LessonDocument.TimingSection | src/views/account/Lessons/Document.tsx:119-148 | "Durée et horaires" with the start and duration lines: the start line is enabled exactly when the start timestamp is known, the duration line exactly when the end timestamp is, so some line is enabled exactly when either is |
| LessonDocument.OnlineSection | src/views/account/Lessons/Document.tsx:149-159 | "Cours en ligne" with the URL line, enabled exactly when there is a URL, and a link exactly when the URL starts with "http" |
| LessonDocument.ContextSection | src/views/account/Lessons/Document.tsx:160-188 | "Contexte" with building, rooms, teacher and group: each line is enabled exactly when its own field is known, so some line is when one of them is; each label is the plural form when its value holds a comma and the singular form otherwise; the room and group values are the cleaned-up fields |
| LessonDocument.StatusSection | src/views/account/Lessons/Document.tsx:189-199 | "Statut" with the status line, enabled exactly when there is a status text |
| LessonDocument.Informations | src/views/account/Lessons/Document.tsx:118-200 | the screen has four sections, titled "Durée et horaires", "Cours en ligne", "Contexte" and "Statut", in that order |
| LessonDocument.EnabledItems | src/views/account/Lessons/Document.tsx:258-261 | the items drawn are exactly the enabled ones |
| LessonDocument.EnabledItemsAppend | src/views/account/Lessons/Document.tsx:258-261 | the items drawn from two lists are those drawn from the first, then those from the second |
| LessonDocument.EnabledItemsSingle | src/views/account/Lessons/Document.tsx:258-261 | a single item is drawn exactly when it is enabled |
| LessonDocument.RenderedIffAnyEnabled | src/views/account/Lessons/Document.tsx:249 | a section is drawn exactly when one of its items is enabled |
| LessonDocument.RenderSections | src/views/account/Lessons/Document.tsx:248-251 | the sections drawn are exactly those with an enabled item |
| LessonDocument.RenderSectionsAppend | src/views/account/Lessons/Document.tsx:248-251 | the sections drawn keep the screen order: those of two lists are those of the first, then those of the second |
| LessonDocument.RenderSectionsSingle | src/views/account/Lessons/Document.tsx:248-261 | a single section is drawn, with its enabled items only, exactly when one of its items is enabled |
| LessonDocument.ShownIffSomeItemEnabled | src/views/account/Lessons/Document.tsx:248-251 | a section's title is shown exactly when one of its items is enabled |
| LessonDocument.TimingShownIffTimestamp | src/views/account/Lessons/Document.tsx:118-148 | "Durée et horaires" is shown exactly when the start or the end timestamp is present |
| LessonDocument.OnlineShownIffUrl | src/views/account/Lessons/Document.tsx:149-159 | "Cours en ligne" is shown exactly when the lesson has a URL |
| LessonDocument.ContextShownIffAnyField | src/views/account/Lessons/Document.tsx:160-188 | "Contexte" is shown exactly when building, room, teacher or group is present |
| LessonDocument.StatusShownIffStatus | src/views/account/Lessons/Document.tsx:189-199 | "Statut" is shown exactly when the lesson has a status text |
| LessonDocument.RoomsOnePerLine | src/views/account/Lessons/Document.tsx:172 | rooms listed with ", " are shown one per line |
| LessonDocument.RoomValueRoundTrip | src/views/account/Lessons/Document.tsx:172 | putting ", " back between the shown lines gives the room text, when it has no line break |
| LessonDocument.GroupValueStripsBrackets | src/views/account/Lessons/Document.tsx:184 | `"[" + name + "]"` inside a group is shown as `name` |
| LessonDocument.Tappable | src/views/account/Lessons/Document.tsx:267 | an item is a link exactly when it has a value whose first four characters are "http" |
| LessonDocument.ResourceTitle | src/views/account/Lessons/Document.tsx:306 | a missing or empty title is shown as ""; a present title keeps its length, one more when it starts with "ß" |
| LessonDocument.ResourceTitleKeepsRest | src/views/account/Lessons/Document.tsx:306 | the title starts with the upper case of its first character, followed by the rest unchanged |
| LessonDocument.ResourceTitleIdempotent | src/views/account/Lessons/Document.tsx:306 | formatting a formatted title changes nothing |
| LessonDocument.ResourceDescription | src/views/account/Lessons/Document.tsx:307 | a missing description is shown as ""; one without a blank line is unchanged; one with a blank line loses exactly one character |
| LessonDocument.DescriptionCollapsesFirstBreak | src/views/account/Lessons/Document.tsx:307 | only the first blank line is collapsed into one line break |
| LessonDocument.ShowsSessionContent | src/views/account/Lessons/Document.tsx:278 | the "Contenu de séance" block is shown exactly when there are class subjects or resources |
| NewsItem.Extension | src/views/account/News/Atoms/Item.tsx:30 | the extension holds no dot and no "?" and is no longer than the name |
| NewsItem.IsLeadImage | src/views/account/News/Atoms/Item.tsx:26-38 | an attachment qualifies exactly when it is a file whose extension is jpg, jpeg or png; a link never does |
| NewsItem.ExtensionWithQuery | src/views/account/News/Atoms/Item.tsx:30 | `<stem>.<ext>?<query>` has extension `ext` in lower case, whatever the stem holds |
| NewsItem.ExtensionPlain | src/views/account/News/Atoms/Item.tsx:30 | `<stem>.<ext>` has extension `ext` in lower case |
| NewsItem.ExtensionNoDot | src/views/account/News/Atoms/Item.tsx:30 | a name with neither "." nor "?" is its own extension, lower-cased |
| NewsItem.ExtensionDotInQuery | src/views/account/News/Atoms/Item.tsx:30 | a dot inside the query string wins: "photo.jpg?v=1.5" has extension "5" |
| NewsItem.FindLeadImage | src/views/account/News/Atoms/Item.tsx:25-39 | `find` returns the first qualifying attachment, and nothing only when none qualifies |
| NewsItem.NewsImage | src/views/account/News/Atoms/Item.tsx:25-39 | there is a lead image exactly when some attachment qualifies; it is the attachment `find` stops at, an image file |
| NewsItem.SecondPicked | src/views/account/News/Atoms/Item.tsx:25-39 | after a non-qualifying attachment, a qualifying one is picked |
| NewsItem.PdfExtension | src/views/account/News/Atoms/Item.tsx:30 | any `<stem>.pdf` has extension "pdf" |
| NewsItem.PngQueryExtension | src/views/account/News/Atoms/Item.tsx:30 | any `<stem>.PNG?<query>` whose query holds no dot has extension "png" |
| NewsItem.PdfNotLeadImage | src/views/account/News/Atoms/Item.tsx:26-38 | a file named `<stem>.pdf` never qualifies, whatever the stem |
| NewsItem.PngWithQueryLeadImage | src/views/account/News/Atoms/Item.tsx:26-38 | a file named `<stem>.PNG?<query>` qualifies, whatever the stem, when the query holds no dot |
| NewsItem.PdfThenPng | src/views/account/News/Atoms/Item.tsx:25-39 | of any "<stem>.pdf" followed by any "<stem>.PNG?<query>" with a dot-free query, the PNG is the lead image |
| NewsItem.Snippet | src/views/account/News/Atoms/Item.tsx:81-93 | the content line shows exactly for non-empty content: the placeholder when it holds `<img`, its summary otherwise |
| NewsItem.NewsRow | src/views/account/News/Atoms/Item.tsx:41-118 | the row shows the lead image, the title only when non-empty, the content line given by `Snippet`, the formatted date and the author, the unread dot exactly for unread messages outside EcoleDirecte, and a separator on all but the last row |
| NewsItem.SeparatorAllButLast | src/views/account/News/Atoms/Item.tsx:51 | down a list, every row except the last has a separator |

## Left out

- React rendering, hooks, stores, animations and styles are not modelled. The store values the screens read (attendances, default period, lesson, messages) are parameters.
- The attendance element's effect is not modelled. It logs, refreshes the grade periods in the cache (`updateGradesPeriodsInCache`) and then reports the level; only the level (`Importance`) is modelled.
- Navigation and I/O are not modelled: `Linking.openURL`, the file opener, the news page navigation with its JSON payload and `important` flag, and `console.log` of the extension.
- Floating-point sums are not modelled. The sums are over exact whole minutes, so rounding artefacts of binary fractions (a sum like 0.9999… rounding to 60 minutes) are not reproduced.
- `Number` is modelled on digit strings only. Whitespace, signs, decimals, exponents and hexadecimal forms, which JavaScript also accepts, are treated as NaN.
- AttendanceElement.Delay: durations are natural numbers, so negative delays are not modelled.
- `toLowerCase` is modelled on Basic Latin and Latin-1 characters, and `toUpperCase` on those too, including the three that leave Latin-1: "ß" becomes "SS", "µ" becomes Greek capital mu and "ÿ" becomes "Ÿ". Case mappings of other Unicode characters, and `charAt` on surrogate pairs, are not modelled: those characters are kept as they are.
- The relative start time (`formatDistance` plus `toLocaleTimeString`) is the parameter `startText`, because it depends on the clock and the locale.
- LessonDocument.DurationValue: when either timestamp is missing, the duration value is `None`. The source computes a text from `null` or `undefined` arithmetic. That item is shown only when the end timestamp is present.
- The class subjects' date filter and the subject data lookup (`getSubjectData`, the header and the emoji) are not modelled. The number of class subjects is the parameter `classSubjectCount`.
- The HTML rendering of class subjects and resources, resource categories and files, and the `lesson.itemType` subtitle are not modelled.
- `parse_news_resume` and `formatDate` are function parameters of the news row.
- The `TotalMissed` component that draws the formatted spans is not part of this model.
