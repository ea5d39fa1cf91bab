# Bank statement extraction — a Dafny model

`app.py` turns the text of a PDF bank statement into a spreadsheet. It knows
two layouts:

- **Banco Provincia** (`procesar_extracto_provincia`). Rows are
  `DD-MM-YY description amount DD-MM balance`. Indented lines without a date
  are continuations, dated with the last dated row (`ultima_fecha`).
- **Banco Galicia** (`procesar_extracto_galicia`). Rows are
  `DD/MM/YYYY description amount balance`.

For every matched line the program does the following:

- it collapses the whitespace of the description;
- it splits the description at the first `-` into description and detail;
- it normalises the amount and the balance from the Argentine notation
  (`1.234,56`) to a float literal;
- it classifies the movement as Crédito, Débito or Indeterminado.

`guardar_excel` then:

- refuses an empty list;
- rewrites every date to `DD/MM/YYYY` with `reformatear_fecha`;
- sorts the rows by date and balance, both descending, before it writes the
  workbook.

The model consists of these modules:

- `Options` — the Option type.
- `Text` — `str.strip`, `re.sub(r'\s+', ' ', …)`, the split at the first
  `-`, and `str.split('\n')` with its inverse.
- `Amounts`:
  - the amount token the patterns capture, `[-]?\d+(?:\.\d+)?(?:,\d+)?`, as
    a small automaton and as a grammar;
  - its value in the statements' notation;
  - the two `replace` calls and `float()`;
  - the try/except that classifies a movement.
- `Patterns` — the three regular expressions as `re.search` runs them. The
  search takes the leftmost start, the greedy `\s+` after the date gives back
  as little as it can, the lazy description is as short as it can be, and
  `.` does not cross a line feed. Each matcher is proved sound (a match has
  the shape of the pattern) and complete (if the pattern fits somewhere, a
  match is found, and no later than there).
- `Statements` — the two parsers. Each is a loop over the lines, proved equal
  to a per-line specification function, with lemmas about that
  specification.
- `Dates` — `reformatear_fecha`, with `datetime.strptime` for `%d-%m-%y` and
  `%d/%m/%Y` (Python's own field expressions, the 69/68 century window, the
  calendar) and `strftime("%d/%m/%Y")`.
- `Export` — `guardar_excel` up to the call that writes the file.

Three behaviours of `app.py` that the model keeps as they are:

- Amount normalisation always deletes every `.` and turns every `,` into `.`.
  No rule looks at the length of the group after the last `.`.
- The detail is split off only at a `-`, never at a word such as " POR " or
  " DE ".
- A continuation line gives a record of its own, with the last row's date.
  It is not appended to the previous record's description.

## Model

| member | source | states |
|---|---|---|
| `Text.Strip` | app.py:40 | `str.strip()`: the result has no whitespace at either end, is a contiguous piece of the input, and keeps every non-space character in order |
| `Text.CollapseSpaces` | app.py:40 | `re.sub(r'\s+', ' ', s)`: the result has the same words as the input, in order, no two spaces in a row and no whitespace but ' ', and starts or ends with a space exactly where the input starts or ends with whitespace |
| `Text.Words` | app.py:40 | the reference for the clean-up, `str.split()`: no words exactly for an all-whitespace text, and every word a non-empty run without whitespace |
| `Text.CleanAppend` | app.py:40 | `" ".join((a + b).split())` is that of a, then one space exactly when a and b both hold words and whitespace meets at the junction, then that of b |
| `Text.JoinWordsOfClean` | app.py:40 | a text with no edge space, no double space and only plain spaces is `" ".join` of its own words |
| `Text.StripKeepsWords` | app.py:40 | `strip()` does not change `" ".join(s.split())` |
| `Text.CleanDescription` | app.py:40 | `re.sub(r'\s+', ' ', s.strip())` equals `" ".join(s.split())` for every s, so it has no edge space, no two spaces in a row, no whitespace but ' ', and the non-space characters of s |
| `Text.IndexOf` | app.py:63 | the first occurrence of the character: it is there, and not before |
| `Text.SplitDetail` | app.py:61-66 | with no '-' the detail is empty and the description unchanged. With a '-', the description is a piece of the text before the first '-' and the detail a piece of the text after it, each without edge whitespace and with all the non-space characters of its side. The description holds no '-' |
| `Text.SplitDetailAt` | app.py:61-66 | with the first '-' at n, the split is `strip()` of the text before n and of the text after it |
| `Text.CleanAtDash` | app.py:40-66 | splitting `" ".join(x.split())` at its first '-' gives `" ".join` of the words before x's first '-' and of those after it |
| `Text.SplitLines` | app.py:30 | `str.split('\n')`: at least one piece, no piece holds a line feed, and joining the pieces with line feeds gives the text back |
| `Text.SplitLinesOfJoin` | app.py:30 | splitting a line-feed join of pieces without line feeds gives the pieces back |
| `Text.JoinLinesAppend` | app.py:30 | joining two lists of lines is joining each with a line feed between them |
| `Text.SplitLinesAppend` | app.py:30 | the lines of `t1 + "\n" + t2` are the lines of t1 followed by the lines of t2 |
| `Amounts.DeleteAll` | app.py:43 | `replace(".", "")` never lengthens the text |
| `Amounts.DeleteAllRemoves` | app.py:43 | `replace(c, "")` leaves no c and keeps the count of every other character |
| `Amounts.ReplaceAll` | app.py:43 | `replace(",", ".")` keeps the length |
| `Amounts.ReplaceAllAt` | app.py:43 | `replace(a, b)` changes exactly the positions holding a, each into b |
| `Amounts.NormalizeHasNoComma` | app.py:43 | a normalised amount holds no comma |
| `Amounts.ParseUnsignedDecimal` | app.py:45 | `float()` on an unsigned decimal literal is never negative |
| `Amounts.ParseFloat` | app.py:45 | `float()` gives a negative number only for a text that starts with '-' |
| `Amounts.AmountTokenGrammar` | app.py:24 | the automaton for `[-]?\d+(?:\.\d+)?(?:,\d+)?` accepts exactly the optional '-' followed by an unsigned amount of the grammar |
| `Amounts.TokenNormalizesToItsValue` | app.py:43-45 | every amount token the patterns capture normalises to a literal `float()` accepts, whose value is the token's value with '.' as thousands separator and ',' as decimal comma |
| `Amounts.Classify` | app.py:44-52 | Indeterminado exactly when `float()` fails, and then the amount is 0. Otherwise the amount is the parsed value. Crédito exactly when the amount is above zero, Débito then means at most zero |
| `Amounts.MatchedAmountClassified` | app.py:43-52 | for a captured token the kind is Crédito when its value is above zero and Débito otherwise, and the amount is the token's signed value |
| `Patterns.GreedyAmount` | app.py:24 | the greedy amount group matches at a position exactly when an amount can start there, what it takes is an amount token, and no longer amount token starts there |
| `Patterns.LongestToken` | app.py:24 | every amount token at i ends no later than the end the greedy group computes |
| `Patterns.WholeBound` | app.py:24 | in the integer digits, the automaton accepts only up to the end of the digits, the optional `.\d+` and the optional `,\d+` |
| `Patterns.Tail` | app.py:24 | the forced tail after the description (`\s+amount\s+DD-MM\s+balance` or `\s+amount\s+balance`) has the shape of the pattern |
| `Patterns.TailComplete` | app.py:24 | any tail of that shape is the one the matcher finds |
| `Patterns.MatchAt` | app.py:24 | a match at a start has the shape of the pattern there |
| `Patterns.Find` | app.py:35 | what the search finds has the shape of the pattern |
| `Patterns.LazyShortest` | app.py:24 | the lazy description `(.*?)` stops at the first end where the rest matches |
| `Patterns.LazyComplete` | app.py:24 | every description end within the line where the rest matches is found, at it or before it |
| `Patterns.LastTrueMax` | app.py:24 | the search from the right for a start that works skips none |
| `Patterns.LeadLongest` | app.py:24 | the greedy `\s+` after the date gives back as little as it can: no later description start works |
| `Patterns.LeadComplete` | app.py:24 | if the description can start somewhere in the whitespace run, the matcher finds a start no earlier |
| `Patterns.FindLeftmost` | app.py:35 | `re.search` returns the leftmost match: the pattern matches at no earlier start |
| `Patterns.SearchComplete` | app.py:35 | if the pattern matches at some start, the search finds a match no later |
| `Patterns.MatchComplete` | app.py:24 | wherever the whole pattern fits, the matcher succeeds at that start |
| `Patterns.DescriptionComplete` | app.py:24 | wherever the whole pattern fits, the date, the whitespace run and the lazy description succeed |
| `Patterns.FindComplete` | app.py:35 | whenever a line has the shape of a pattern anywhere (the continuation pattern anchored at the line start), the search finds a match, at that start or before |
| `Patterns.GroupsOf` | app.py:37 | `match.groups()`: each group is the slice of the line at the match's positions. The date is `DD-MM-YY` or `DD/MM/YYYY` (none for the continuation pattern), the description holds no line feed and is non-empty for `.+?`, and the amount and balance are amount tokens, the balance the longest one at its start |
| `Patterns.Search` | app.py:35 | `re.search` succeeds exactly when a match exists, and its groups are those of the match `Find` picks. Its amount and balance are amount tokens, its date has 8 characters (Provincia), 10 (Galicia) or none (continuation), and its description is non-empty for the continuation pattern's `.+?` |
| `Statements.Describe` | app.py:40-66 | with no '-' the description is `" ".join` of the group's words and the detail is empty. Otherwise the description is that of the words before the group's first '-' and the detail that of the words after it. Both are clean, and the description holds no '-' |
| `Statements.Balance` | app.py:55 | the normalised balance passed to `float()` is the token's value |
| `Statements.MakeTransaction` | app.py:37-75 | a record built from a match has the date given, the description and detail `Describe` gives for the description group, the token values as amount and balance, and is well formed: never Indeterminado, Crédito exactly when the amount is above zero |
| `Statements.ProvinciaStep` | app.py:35-115 | one iteration. A dated row gives the one record built from its groups with its date, and sets `ultima_fecha`. Otherwise `ultima_fecha` is unchanged, and a record, built from the continuation's groups and dated `ultima_fecha`, comes exactly when the continuation pattern matches and `ultima_fecha` is truthy |
| `Statements.ProvinciaLine` | app.py:34-115 | the loop body searches the continuation pattern only when the dated one fails, and its outcome is `ProvinciaStep` of both searches |
| `Statements.ProcessProvincia` | app.py:20-117 | the records returned are those of the per-line specification over `texto.split('\n')`, starting with `ultima_fecha = None` |
| `Statements.ProvinciaScanCons` | app.py:33 | the scan of the lines from i on is the step for line i followed by the scan of the rest |
| `Statements.ProvinciaMatchesAppend` | app.py:33 | matching the lines of two stretches is matching each |
| `Statements.ProvinciaAppend` | app.py:31-58 | the scan of two stretches of lines is the scan of the first, then the second started with the `ultima_fecha` the first left |
| `Statements.ProvinciaLastDate` | app.py:58 | the `ultima_fecha` left after a stretch of lines is the date of the last dated row in it, or the value it started with |
| `Statements.ProvinciaLineRecords` | app.py:58-115 | a line adds the records of its own step, taken with the date of the last dated row above it |
| `Statements.ProvinciaRecords` | app.py:68-115 | at most one record per line, and every record well formed |
| `Statements.ProvinciaNeedsDatedRow` | app.py:79 | with no dated row and `ultima_fecha` unset, continuation lines record nothing |
| `Statements.GaliciaStep` | app.py:130-167 | a matched line gives the one well-formed record built from its groups, with its date; an unmatched one nothing |
| `Statements.GaliciaLine` | app.py:129-167 | the loop body appends the record `GaliciaStep` gives for the line |
| `Statements.ProcessGalicia` | app.py:119-169 | the records returned are those of the per-line specification over `texto.split('\n')` |
| `Statements.GaliciaScanCons` | app.py:128 | the scan from line i on is line i's step followed by the scan of the rest |
| `Statements.GaliciaMatchesAppend` | app.py:128 | matching the lines of two stretches is matching each |
| `Statements.GaliciaAppend` | app.py:128-167 | lines are independent: the records of two stretches are the records of each, in order |
| `Statements.GaliciaConcat` | app.py:126-169 | two texts joined by a line feed give the records of the first followed by those of the second |
| `Statements.GaliciaRecords` | app.py:128-167 | at most one record per line, every record well formed |
| `Statements.GaliciaSkipsUnmatched` | app.py:130-131 | lines the pattern does not match give no records |
| `Statements.EmptyText` | app.py:30 | an empty text gives no records with either parser |
| `Dates.DaysInMonth` | app.py:186 | every month has 28 to 31 days, and February has 29 exactly in leap years |
| `Dates.PivotYear` | app.py:186 | `%y` maps 00-68 to 2000-2068 and 69-99 to 1969-1999, keeping the last two digits |
| `Dates.TwoDigitValue` | app.py:186 | the value of two digits |
| `Dates.FourDigitValue` | app.py:186 | the value of four digits from its halves, below 10000 |
| `Dates.YearValue` | app.py:186 | the year `%y` or `%Y` reads is at most 9999 |
| `Dates.FieldValue` | app.py:186 | a `%d` field reads as 1 to 31, a `%m` field as 1 to 12 |
| `Dates.ReadFields` | app.py:186 | fields that read succeed only as a valid calendar date |
| `Dates.Parse` | app.py:186 | `strptime` succeeds only with a valid date, and never on a text without the format's separator |
| `Dates.SplitAtSeparator` | app.py:186 | the first separator of `a + sep + b`, with none in a, is at the end of a |
| `Dates.ParseFields` | app.py:186 | three fields joined by the separator, with none in the day and month, are read as those fields |
| `Dates.DigitChar` | app.py:186 | a digit character with the value given |
| `Dates.Pad2` | app.py:186 | `%d` and `%m` of strftime: two digits whose value is the number |
| `Dates.Pad4` | app.py:186 | `%Y` of strftime: four digits whose value is the year |
| `Dates.Render` | app.py:186 | `strftime("%d/%m/%Y")` writes ten characters with '/' at the third and sixth |
| `Dates.ReformatDate` | app.py:181-191 | the loop over the two formats returns what the first format that reads the text gives, else the text itself |
| `Dates.TwoDigitFields` | app.py:186 | two digits are a `%d` field exactly when 01-31 and a `%m` field exactly when 01-12, and read as their value |
| `Dates.PadOfDigits` | app.py:186 | two digits are the padding of their own value |
| `Dates.PaddedFields` | app.py:186 | a padded day or month is read back as itself |
| `Dates.RenderParses` | app.py:186 | `strptime("%d/%m/%Y")` reads back every date `strftime("%d/%m/%Y")` wrote, and `%d-%m-%y` reads none of them |
| `Dates.CanonicalUnchanged` | app.py:181-191 | a date already written DD/MM/YYYY is kept as it is |
| `Dates.Idempotent` | app.py:181-191 | reformatting twice is reformatting once |
| `Dates.ReformattedShape` | app.py:181-191 | the result is the text itself or the DD/MM/YYYY writing of a valid date one of the formats read from it |
| `Dates.ShortDateReformatted` | app.py:181-191 | a DD-MM-YY date that exists becomes DD/MM/ and the windowed four-digit year, and one that does not exist is kept |
| `Dates.ExampleImpossibleDate` | app.py:181-191 | 30-02-23 is kept as it is |
| `Export.StrLessIrreflexive` | app.py:196 | no text sorts before itself |
| `Export.StrLessTransitive` | app.py:196 | the text order is transitive |
| `Export.StrLessTotal` | app.py:196 | two different texts are ordered one way and not both |
| `Export.StrLessConcat` | app.py:196 | texts of equal-length first parts compare by the first parts, then by the rest |
| `Export.PrecedesTotal` | app.py:196 | of two rows, one may come before the other |
| `Export.PrecedesTransitive` | app.py:196 | the row order is transitive |
| `Export.SortedTail` | app.py:196 | the rows after the first of a sorted list are sorted |
| `Export.Insert` | app.py:196 | a row put in its place among sorted rows leaves them sorted and adds exactly that row |
| `Export.InsertLater` | app.py:196 | putting a row behind the first of sorted rows keeps them sorted |
| `Export.InsertFront` | app.py:196 | a row that may precede the first of sorted rows may lead them |
| `Export.InsertBehind` | app.py:196 | a first row that may precede every other keeps a sorted list sorted |
| `Export.SortRows` | app.py:196 | `sort_values` returns the same rows (as a multiset), date then balance descending |
| `Export.ReformatDates` | app.py:193 | `apply(reformatear_fecha)` rewrites each row's date and nothing else, keeping the row count and order |
| `Export.SaveWorkbook` | app.py:171-201 | `False` and no sheet exactly for an empty list. Otherwise `True` and a sheet holding exactly the rows with reformatted dates, sorted by date then balance, descending |
| `Export.SheetDatesSettled` | app.py:193-196 | the dates in the sheet are already in their final form |
| `Export.SheetKeepsEveryRow` | app.py:171-201 | the sheet has one row per record |
| `Export.FirstRowLatest` | app.py:196 | the first row has the greatest date key of all records |
| `Export.DigitCharOrder` | app.py:196 | digit characters compare as their values |
| `Export.Pad2Order` | app.py:196 | two-digit numbers compare as text as they compare as numbers |
| `Export.Pad4Order` | app.py:196 | four-digit numbers compare as text as they compare as numbers |
| `Export.RenderKey` | app.py:196 | the chronological key of a DD/MM/YYYY date is YYYYMMDD |
| `Export.ChronologicalKeys` | app.py:195-196 | chronological keys of two dates compare as the dates do, and are equal only for the same date |
| `Export.SheetNotChronological` | app.py:196 | as written, a row of 31/01/2023 comes before a row of 01/02/2023, whichever order they arrive in |
| `Export.DayBeforeMonth` | app.py:196 | 01/02/2023 sorts before 31/01/2023 as text, although it is the later day |
| `Export.SettledPair` | app.py:193 | rows whose dates are already final are not changed by the reformat |
| `Export.DayFirst` | app.py:196 | a DD/MM/YYYY text starts with the tens of the day |
| `Export.OnlyOrder` | app.py:196 | two rows sorted by the text order, where y may not precede x, are in the order x, y |
| `Export.SheetChronological` | app.py:195-196 | with the corrected order, of two DD/MM/YYYY rows in the sheet the upper one is never the earlier day |

## Findings

| source | as written | input that shows it | evidently intended | confidence | as-written member | corrected member |
|---|---|---|---|---|---|---|
| app.py:195-196 | `sort_values(by=["fecha", …], ascending=False)` sorts the reformatted DD/MM/YYYY dates as text, so the day decides before the month and the year | rows dated 31/01/2023 and 01/02/2023: the January row is put first | latest date first, as the comment "Ordena por fecha (descendente)" says | high, not executed | `Export.SheetNotChronological` | `Export.SheetChronological` |

`Export.SaveWorkbook` takes the order as a parameter:

- `AsText` is the code as written.
- `Chronological` is the intended order. It compares the year, the month and
  the day of a DD/MM/YYYY date, and compares anything else as text.

## Left out

- PDF reading (`extraer_texto_de_pdf`, app.py:7-18), the interactive `main`
  (app.py:203-242), and the choice of bank it makes. The parsers take the
  extracted text as a parameter.
- The `print` calls, building the DataFrame, and writing the file with
  `to_excel`. `Export.SaveWorkbook` gives the returned boolean and the rows the
  sheet would hold.
- Floats are modelled as exact reals. Rounding, and the `-0.0` that the
  negation of a zero Débito gives, are not modelled; -0.0 equals 0.0 here.
- `Amounts.ParseFloat`: only plain decimal literals with an optional sign are
  modelled. Normalised amount tokens are always of that form. Exponents,
  `inf`, `nan`, underscores and surrounding whitespace, which `float()` also
  accepts, are not.
- `\d` is taken as the ASCII digits. Python's `str` patterns also accept
  other Unicode decimal digits. `\s` and `str.strip()` follow Python's
  whitespace table (`Text.IsSpace`).
- `Dates.Pad4`: years below 1000 are written with four digits. Some C
  libraries leave them unpadded. Only 1969-2068 and years read with four
  digits reach it from the parsers.
- `Export.SortRows`: the relative order of rows that agree on date and balance
  is left open. The sort is stated as a sorted permutation, not as pandas'
  particular algorithm.
- `Statements.ProcessProvincia`: the specification function evaluates both
  patterns on every line. The code searches the continuation pattern only
  when the dated one fails. `Statements.ProvinciaLine` follows the code and is
  proved to agree with the specification.
