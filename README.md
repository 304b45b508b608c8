# Cota capital statements — a verified model

This project models the logic inside a monthly batch job of a credit
cooperative. The job fetches accounts with their movements from a SQL
warehouse and merges them with an index workbook. It then writes one
capital-share ("cota capital") statement per account into a folder per
branch and administrator, and emails the list of people to notify. The model
covers the parts of that job that decide *what* is written and *where*:

- **Statements** (`report_generator.dfy`, `money.dfy`, `calendar.dfy`):
  - the file path of each statement;
  - the per-branch, per-administrator counter on the `CotaCapital` class,
    which survives across calls;
  - the statement period, which is the whole month before the emission date;
  - the opening balance and the running balance after each movement, where an
    amount that does not parse counts as zero but is still printed as
    written;
  - either one line per movement or the single "no movement" line;
  - money written Brazilian-style by swapping `,` and `.` in Python's `,.2f`
    rendering;
  - the fixed-width column layout of every line.
- **Data** (`data_management.dfy`):
  - the `conta` key normalisation of the index workbook;
  - the inner join of index and accounts on that key;
  - the retry schedule of the SQL call, with the HTTP post given as an oracle
    `post: nat -> Reply`.
- **Recipients** (`email_sender.dfy`): the address list read from the `email`
  column, and the `To` header built from a list or a single string.

`text.dfy` holds the Python string builtins these rely on: `strip`, `split`,
`join`, `zfill`, `str.format` alignment, `str(int)` and the first word of
`split()`. `wrappers.dfy` holds `Option` and `Result`.

Money is integer cents, and dates are `(year, month, day)` triples under the
Gregorian calendar. A statement is the list of strings it draws, top to
bottom. A file path is the list of its components.

Two facts about the code shape the model:

- **Join size.** `pd.merge` pairs every matching row, so a key that repeats
  multiplies the merged rows (`JoinCanOutgrow`). With unique account keys the
  merge has at most one row per index row (`JoinUniqueBound`).
- **Counter lifetime.** The per-branch counter is a class attribute. It is
  created only when it is missing, so counts accumulate across calls
  (`GerarExtratosMensal`, `TallyAccumulates`).

## Model

| member | source | states |
|---|---|---|
| Text.ZFillUnsigned | src/report_generator.py:50 | `zfill` on a text without sign puts '0's in front up to the width; a text already that long is unchanged |
| Text.ZFill | src/report_generator.py:50 | `zfill(w)` gives a text as long as the width, or as the input when that is longer |
| Text.PadRight | src/report_generator.py:179-181 | `{:<w}` gives a text as long as the width, or as the input when that is longer |
| Text.PadLeft | src/report_generator.py:179-181 | `{:>w}` gives a text as long as the width, or as the input when that is longer |
| Text.PadRightShape | src/report_generator.py:179-181 | `{:<w}` keeps the text in front and fills the rest with spaces, never cutting the text |
| Text.PadLeftShape | src/report_generator.py:179-181 | `{:>w}` puts spaces in front and keeps the text at the end, never cutting it |
| Text.TrimLeftShape | src/email_sender.py:157 | `lstrip()` removes only a whitespace prefix, and what is left does not start with whitespace |
| Text.TrimRightShape | src/email_sender.py:157 | `rstrip()` removes only a whitespace suffix, and what is left does not end with whitespace |
| Text.Trim | src/email_sender.py:157 | `strip()` never lengthens the text, and a non-empty result starts and ends with a non-whitespace character |
| Text.TrimChars | src/email_sender.py:157 | `strip()` only removes characters; everything left was in the input |
| Text.TrimIdempotent | src/email_sender.py:157 | stripping twice is stripping once |
| Text.TrimLeftSpaces | src/email_sender.py:157 | `lstrip()` skips any run of whitespace put in front of a text |
| Text.TrimRightSpaces | src/email_sender.py:157 | `rstrip()` skips any run of whitespace put behind a text |
| Text.ReplaceChar | src/email_sender.py:156 | `replace(';', ',')` keeps the length and changes every ';' to ',' and nothing else |
| Text.SplitOn | src/email_sender.py:156 | `split(',')` gives at least one piece, no piece holds ',', and joining the pieces with ',' gives back the text |
| Text.SplitJoin | src/email_sender.py:73 | splitting a `", "`-joined list on ',' gives back the elements, each after the first with one leading space |
| Text.FirstWord | src/data_management.py:66 | the first word is missing exactly when the text is empty or all whitespace; otherwise it is non-empty and holds no whitespace; leading whitespace is skipped (`FirstWordAfterSpaces`) |
| Text.FirstWordOf | src/data_management.py:66 | a word followed by whitespace or by nothing is the first word of the text |
| Text.FirstWordAfterSpaces | src/data_management.py:66 | after any run of leading whitespace, a word followed by whitespace or by nothing is the first word of the text |
| Text.NatDigitsRoundTrip | src/report_generator.py:50 | reading back the digits of `str(n)` gives `n` |
| Money.UngroupGroup | src/report_generator.py:198 | deleting the thousands separators of grouped digits gives back the digits |
| Money.Grouped2 | src/report_generator.py:198 | the `,.2f` rendering without its ',' is the `.2f` rendering, and it holds only digits, ',', '.' and '-', so never the placeholder 'X' |
| Money.GroupSeparators | src/report_generator.py:198 | grouping digits adds one ',' per full group of three below the leading group, and a ',' sits exactly where a multiple of four characters, counted from the right, begins |
| Money.Grouped2Separators | src/report_generator.py:198 | in the `,.2f` rendering the whole part after the sign starts with a digit, and has a ',' exactly at every fourth position counting back from the '.' |
| Money.Grouped2Shape | src/report_generator.py:198 | the `,.2f` rendering ends with '.' and two digits, has no other '.', and has '-' only in front, exactly when the amount is negative |
| Money.SwapSeparatorsAt | src/report_generator.py:198 | on a text without 'X', the three replaces turn each ',' into '.' and each '.' into ',' and leave every other character in place |
| Money.SwapSeparatorsInvolution | src/report_generator.py:198 | on a text without 'X', applying the three replaces twice gives back the text |
| Money.Brazilian | src/report_generator.py:198 | the printed amount is the `,.2f` rendering with each ',' turned into '.' and each '.' into ',', every other character in place |
| Money.BrazilianSwapsBack | src/report_generator.py:198 | swapping the separators of a Brazilian amount gives back its `,.2f` rendering |
| Money.ParseCents | src/report_generator.py:217 | blank text does not parse, where `float()` raises; an amount parses as negative only when its stripped text starts with '-' |
| Money.ParseCentsAccepts | src/report_generator.py:217 | text made of whitespace, an optional '-' or '+', digits, an optional '.' with at most two decimals, and whitespace parses to its digits, with the decimals padded to two places, as cents, negated after '-' |
| Money.ParseDecimal | src/report_generator.py:217 | an unsigned decimal with at most two decimals parses to its digits, with the decimals padded to two places, as cents |
| Text.TrimSurrounded | src/report_generator.py:217 | `strip()` of text with whitespace on both sides gives back the text, when that text starts and ends with a non-whitespace character |
| Money.Fixed2RoundTrip | src/report_generator.py:216-219 | parsing the `.2f` rendering of an amount gives back the amount |
| Money.BrazilianRoundTrip | src/report_generator.py:198 | reading a Brazilian amount back gives the amount it was written from |
| Money.BrazilianInjective | src/report_generator.py:198 | two amounts print the same exactly when they are equal |
| Money.BrazilianShape | src/report_generator.py:198 | a Brazilian amount ends in ',' and two digits, holds only digits, '.' and '-' before that, and starts with '-' exactly when the amount is negative |
| Money.ExampleOpeningBalance | src/report_generator.py:196-198 | capital 1000,00 with movement 200,00 prints the opening balance "800,00" |
| Calendar.DaysInMonth | src/report_generator.py:150 | a month has 28 to 31 days, and 29 exactly in February of a leap year |
| Calendar.FirstOfMonth | src/report_generator.py:149 | `replace(day=1)` keeps the year and month and sets day 1 |
| Calendar.MinusOneMonth | src/report_generator.py:149 | subtracting a month moves to the previous month (December of the previous year from January) and clamps the day to that month's length |
| Calendar.DayStepsInverse | src/report_generator.py:150 | one day back and one day forward undo each other |
| Calendar.StatementPeriod | src/report_generator.py:148-150 | both ends are valid dates of one month: the start is day 1, the end is that month's last day, and the day after the end is the first of the emission month |
| Calendar.FormatDate | src/report_generator.py:152 | a valid date with a four-digit year prints as ten characters with '/' at positions 2 and 5 |
| Calendar.StatementPeriodIsPreviousMonth | src/report_generator.py:148-152 | the period runs from day 1 to the last day of the month before the emission month, and the day after its end is the first of the emission month |
| Calendar.FormatDateFields | src/report_generator.py:152 | `%d/%m/%Y` gives ten characters, slashes at 2 and 5, and digit fields that read back as day, month and year |
| ReportGenerator.Trunc | src/report_generator.py:50 | `int()` of a float truncates toward zero |
| ReportGenerator.AgenciaKey | src/report_generator.py:50 | the branch key has at least two characters; for a non-negative branch number it is digits that read back as the number truncated |
| ReportGenerator.AgenciaKeyShape | src/report_generator.py:50 | the branch key is the decimal digits of the truncated branch number, at least two of them, and reads back as that number |
| ReportGenerator.PdfPath | src/report_generator.py:50-60 | the path is exactly, in order: the base folder, "UA" followed by the two-digit branch key, the statements folder, the administrator, and the account number followed by ".pdf" |
| ReportGenerator.PdfPathSameIff | src/report_generator.py:50-60 | two rows get the same path exactly when they agree on branch key, administrator and account |
| ReportGenerator.Bump | src/report_generator.py:71-77 | counting a row keeps every branch, makes its branch and administrator present and adds one to their counter |
| ReportGenerator.BumpEffect | src/report_generator.py:71-77 | counting a row adds one to its branch/administrator counter, creating it at zero when absent, and changes no other counter |
| ReportGenerator.CountOneRow | src/report_generator.py:71-77 | the three dictionary steps of one row (create branch, create administrator, add one) are one `Bump` |
| ReportGenerator.Tally | src/report_generator.py:65-77 | counting a batch keeps every branch already counted |
| ReportGenerator.TallyCounts | src/report_generator.py:65-77 | after counting a batch, each counter has grown by the number of rows with its key pair |
| ReportGenerator.TallyAccumulates | src/report_generator.py:65-66 | counting two batches one after the other equals counting them together: counts accumulate across calls |
| ReportGenerator.CotaCapital.constructor | src/report_generator.py:65 | a fresh class has no counter dictionary yet |
| ReportGenerator.CotaCapital.CountStatement | src/report_generator.py:65-77 | creates the dictionary when missing, then counts one row |
| ReportGenerator.CotaCapital.GerarExtratosMensal | src/report_generator.py:47-77 | writes one statement per row in row order, at that row's path; the counter becomes the old counts (or an empty dictionary) tallied with every row's key pair; an empty batch leaves it untouched |
| ReportGenerator.Render | src/report_generator.py:131-278 | the text drawn for a balance line (opening, movement, closing) ends with that balance in Brazilian form; the table header and the "no movement" line are 127 characters long |
| ReportGenerator.Row5 | src/report_generator.py:179-181 | a row is as long as the five field widths, each widened to its field's length |
| ReportGenerator.Row5Fields | src/report_generator.py:199-201 | with fields that fit, the row is 104 characters plus the last field's width: the first field at column 0, the second at 30, the fourth ending at 104, the last at the end (127 characters when it fits too) |
| ReportGenerator.MovementRowLayout | src/report_generator.py:223-225 | a movement line shows its date at 0, its kind at 30, its amount as written ending at column 104, and ends with the Brazilian balance |
| ReportGenerator.ClosingLayout | src/report_generator.py:251-253 | the closing line holds "SALDO ATUAL (R$):" left-aligned at columns 87-104 and ends with the balance |
| ReportGenerator.NoMovementLayout | src/report_generator.py:231-234 | the "no movement" line is 127 characters long, with 30 spaces and then the message |
| ReportGenerator.AmountValue | src/report_generator.py:216-219 | a movement adds its parsed amount, or 0 when `float()` fails on it |
| ReportGenerator.RunningBalance | src/report_generator.py:196-221 | before any movement the balance is capital minus movement; after the last one it is that plus the sum of the movements' values |
| ReportGenerator.MovementLines | src/report_generator.py:211-226 | one line per movement, in order, each holding its movement; the last shows the opening balance plus the sum of all values |
| ReportGenerator.ValuesAt | src/report_generator.py:216-219 | the value of a movement is its parsed amount, or 0 when the amount does not parse |
| ReportGenerator.BodyLines | src/report_generator.py:208-235 | one line per movement, or one line for an empty list |
| ReportGenerator.StatementLines | src/report_generator.py:131-278 | a statement has its ten fixed lines plus its body lines |
| ReportGenerator.StatementBalances | src/report_generator.py:194-198 | the period line carries the previous month; the opening line shows capital minus movement; the closing line shows the capital itself |
| ReportGenerator.StatementWithoutMovements | src/report_generator.py:228-235 | with no movements, the statement has 11 lines, the "no movement" line is the 8th, and there is no movement line |
| ReportGenerator.StatementWithMovements | src/report_generator.py:208-227 | with movements, the statement has 10 lines plus one per movement, in order, and no "no movement" line |
| ReportGenerator.RunningBalanceStep | src/report_generator.py:216-221 | the running balance starts at the opening balance and each movement adds its value; an amount that does not parse adds nothing |
| ReportGenerator.StatementRunningBalances | src/report_generator.py:211-226 | the line of the k-th movement holds that movement, raw amount included, and the opening balance plus the first k+1 values |
| ReportGenerator.ClosingMatchesLastBalance | src/report_generator.py:221-250 | the closing balance prints like the last running balance exactly when the movement values add up to the `movimentacao` field |
| ReportGenerator.DrawMovements | src/report_generator.py:211-227 | the loop yields exactly the movement lines, each with the running balance after its movement |
| ReportGenerator.GerarPdf | src/report_generator.py:87-278 | the lines drawn, whichever branch the movement list takes, are the statement's lines, top to bottom |
| DataManagement.NormalizeConta | src/data_management.py:146-147 | the key is one character longer than the six-wide zero fill, with '-' second to last |
| DataManagement.NormalizeContaUnhyphen | src/data_management.py:146-147 | deleting the hyphen gives back the zero-filled text |
| DataManagement.NormalizeContaShort | src/data_management.py:146-147 | a number of up to six digits becomes five digits, '-', one digit, padded only by leading '0's |
| DataManagement.NormalizeContaLong | src/data_management.py:146-147 | a text of six or more characters gains no zeros, only the hyphen before its last character |
| DataManagement.NormalizeNumber | src/data_management.py:146-147 | the key of a whole-number cell is at least seven characters long |
| DataManagement.NormalizeNumberDenotes | src/data_management.py:146-147 | for an account number below a million, the key without its hyphen is six digits that read back as the number |
| DataManagement.NormalizeKeys | src/data_management.py:146-147 | normalisation keeps every row, in order, and every other column; each row's new key is the normalised form of its old key, with its hyphen second to last |
| DataManagement.Matches | src/data_management.py:174 | the partners of one index row: at most one per account row, each an account row with the same key, paired with that index row |
| DataManagement.MatchesMultiplicity | src/data_management.py:174 | an account row is paired with the index row as often as it occurs among the accounts when the keys agree, and never otherwise |
| DataManagement.InnerJoin | src/data_management.py:174 | every merged row pairs an index row and an account row with equal keys |
| DataManagement.JoinMembership | src/data_management.py:174 | a merged row pairs an index row and an account row with equal keys, and every such pair is present |
| DataManagement.JoinAppend | src/data_management.py:174 | joining two index blocks is joining each block, first block first: index order is kept |
| DataManagement.JoinOne | src/data_management.py:174 | the merge of a single index row is that row's own matches among the accounts |
| DataManagement.JoinSize | src/data_management.py:174 | the merged row count is the sum, over index rows, of the number of account rows with the same key |
| DataManagement.JoinMultiplicity | src/data_management.py:174 | a pair with equal keys appears as often as the product of the two rows' multiplicities; a pair with different keys never appears |
| DataManagement.JoinUniqueBound | src/data_management.py:174 | when account keys are unique, the merge has at most one row per index row |
| DataManagement.JoinCanOutgrow | src/data_management.py:174 | with a repeated key, two index rows and two account rows merge into four rows |
| DataManagement.CreateCotaCapital | src/data_management.py:174 | a pair is a merged row exactly when its index row is a normalised index row, its account row is in the accounts table, and the two have the same key |
| DataManagement.IsSelect | src/data_management.py:66 | a statement counts as a `SELECT` only when, after leading whitespace, it starts with `SELECT` followed by whitespace or by nothing |
| DataManagement.RetriesAsWritten | src/data_management.py:64-71 | extra posts happen only for a `SELECT` whose first answer did not succeed, and never more than `tries` |
| DataManagement.Schedule | src/data_management.py:70 | one sleep per extra post |
| DataManagement.ScheduleTotal | src/data_management.py:67-70 | `n` extra posts sleep `10 * tries * n * (n + 1) / 2` seconds in all |
| DataManagement.SqlStatements | src/data_management.py:63-74 | fails exactly for a statement with no word; otherwise posts once plus `tries` more when the first word is `SELECT` and the first answer did not succeed, sleeping `k * tries * 10` before the k-th, and returns the last answer |
| DataManagement.RetriesIgnoreSuccess | src/data_management.py:64-71 | a pending first answer followed by a success still gets all three retries; reading each answer would stop after one |
| DataManagement.FirstSuccess | src/data_management.py:68 | the stopping point is the first successful answer, or the limit when none succeeds |
| DataManagement.SqlStatementsIntended | src/data_management.py:63-74 | retries only while the latest answer has not succeeded, at most `tries` times, and stops at the first success; its retry count is `IntendedRetries` |
| DataManagement.IntendedWithinWritten | src/data_management.py:64-71 | the intended count never exceeds the written one; for a `SELECT` whose first answer did not succeed, the two are equal exactly when none of answers 1 to `tries - 1` succeeds |
| EmailSender.CellPieces | src/email_sender.py:156 | no piece of a cell holds ',' or ';' |
| EmailSender.Clean | src/email_sender.py:157-159 | at most one entry per piece, and no entry is empty |
| EmailSender.Addresses | src/email_sender.py:154-159 | no address collected is empty |
| EmailSender.Dedup | src/email_sender.py:161-166 | deduplication never lengthens the list and keeps only addresses from it |
| EmailSender.GetEmailListTo | src/email_sender.py:150-167 | `ValueError` exactly when there is no `email` column; otherwise the column's addresses with duplicates removed |
| EmailSender.AppendCellAddresses | src/email_sender.py:156-159 | one cell appends its stripped, non-blank pieces, in order |
| EmailSender.DedupLoop | src/email_sender.py:161-167 | the `seen` loop keeps each address the first time it comes |
| EmailSender.DedupMembership | src/email_sender.py:161-166 | an address survives deduplication exactly when it was in the list |
| EmailSender.DedupDistinct | src/email_sender.py:161-166 | no address is listed twice |
| EmailSender.DedupOrder | src/email_sender.py:161-166 | addresses are listed in the order of their first occurrence |
| EmailSender.DedupOfDistinct | src/email_sender.py:161-166 | a list without repeats is unchanged by deduplication |
| EmailSender.CleanEntries | src/email_sender.py:156-159 | an entry of a cell is exactly a non-blank stripped piece, with no whitespace at its ends and no ',' or ';' |
| EmailSender.AddressesFromCells | src/email_sender.py:154-159 | the addresses are exactly the non-blank stripped pieces of the present cells; a missing cell contributes none |
| EmailSender.RecipientList | src/email_sender.py:150-167 | the result holds exactly the addresses found, each clean and listed once |
| EmailSender.SingleCell | src/email_sender.py:156-158 | a clean address alone in a cell reads back as itself |
| EmailSender.AddressesOfSingles | src/email_sender.py:154-159 | a column of clean addresses, one per cell, reads back as the same list |
| EmailSender.RereadIdempotent | src/email_sender.py:154-167 | running the extraction again on its own result, one address per cell, returns the same list |
| EmailSender.ToHeader | src/email_sender.py:72-77 | a single string is both the header and the one recipient; a list is the recipients as given |
| EmailSender.HeaderRoundTrip | src/email_sender.py:72-73 | the header of a list of clean addresses, read back as a cell is read, gives the list again |

## Left out

- Drawing is not modelled: the canvas, images, separator lines, fonts, colours, width-based centring and the `y` coordinate. A statement is the list of strings drawn.
- `gerar_pdf2` is never called and only draws.
- The log loop at the end of `gerar_extratos_mensal` is not modelled. It only reports per-branch totals to the logger; the counts it reads are modelled.
- Floats are not modelled. Amounts are integer cents, and Python's float rounding in `,.2f` and `float()` is not captured.
- Amount parsing accepts an optional sign, digits and an optional `.` with at most two digits, after `strip()`. Other text Python's `float()` accepts (exponents, `inf`, `nan`, underscores, more decimals) counts as unparseable, i.e. 0.
- `pd.to_datetime(..., dayfirst=True)` is not modelled: the emission date comes already split into year, month and day, next to its original text, which the period line prints.
- The branch number is a real standing for `float(agência)`. Parsing the cell's text is left out.
- Path components are not joined with the OS separator; `os.makedirs` is not modelled.
- The JSON decoding of the movement list is left out: movements come already decoded. So are the decoding of the SQL answer and `get_accounts_data`'s table construction: an answer is reduced to its `status.state`.
- The HTTP post, bearer token and `time.sleep` are not modelled. Posts are the oracle `post`; sleeps are recorded as a list of seconds.
- DataManagement.SqlStatements: on a statement with no word, the model returns the failure without recording the post made before the check.
- Excel refresh and reading (`windows_excel_refresh_query`, `read_excel`) are not modelled: the index arrives as rows. `astype(str)` is modelled for whole numbers (`NormalizeNumber`); the key of any other cell is its text.
- DataManagement.InnerJoin: a merged row is modelled as the pair of the two rows it joins. How pandas combines their columns (suffixes for clashing names) is not modelled.
- The SMTP session (STARTTLS, login, `sendmail`), the message subject and body, and `get_body_format`'s constant HTML are not modelled.
- `file_management.py`, `navigations.py`, `log.py`, `bot.py`, `app.py` and configuration are not part of this model. They are archive and folder I/O, spreadsheet automation, logging, orchestration and settings. The ombudsman phone number is the configured value.
- ReportGenerator.DrawMovements: the `for mov in movimentacoes` loop of `gerar_pdf` is a method of its own that `GerarPdf` calls; the balance the loop leaves in `valor_saldo_mov` is never read after it, so the method does not return it.
- ReportGenerator.Tally: its own contract only keeps the counted branches; what each counter becomes is stated by `TallyCounts`.
- DataManagement.InnerJoin: the order modelled is that of pandas 2.2 and later, where an inner merge keeps the order of the left (index) rows. Earlier pandas versions grouped together the index rows that share a key.
- ReportGenerator.CotaCapital.CountStatement: the dictionary steps of the row loop in `gerar_extratos_mensal` are a method of its own that the loop calls.
- EmailSender.AppendCellAddresses: the inner `for email in ...` loop of `get_email_list_to` is a method of its own that the outer loop calls.

## Findings

| source | as written | input that shows it | evidently intended | confidence | as-written member | corrected member |
|---|---|---|---|---|---|---|
| src/data_management.py:64-71 | the loop condition tests the state decoded from the first answer, which is never refreshed, so once entered the loop always re-posts `tries` times and returns the last answer | statement `SELECT 1`, `tries` 3, first answer `PENDING`, every later answer `SUCCEEDED`: three extra posts, sleeping 30, 60 and 90 seconds, where one retry would do | retry only while the latest answer is still not `SUCCEEDED`, as the method's docstring says (line 23) | not executed; the loop body never assigns `response_text_json` | DataManagement.RetriesAsWritten | DataManagement.SqlStatementsIntended |
