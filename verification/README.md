# Netflix CSV normaliser and exchange-rate flattener, in Dafny

This project models two ETL scripts.

The first is the row loop of `etl_process` in `netflix-etl-project/netflix-etl-mysql.py`. It reads a CSV export of Netflix titles. Each row goes through these steps:

- Empty rows are skipped. A first row that names `show_id` is skipped as a header.
- Rows of fewer than twelve cells are rejected. Longer rows are cut to twelve cells.
- Every cell is stripped.
- The release year must be an integer, or the row is rejected.
- The first number in the duration cell becomes the duration of a "Movie" or the season count of a "TV Show".
- A `YYYY-MM-DD` date becomes a two-digit day and a year.
- The accepted row is upserted into `shows`.
- The four comma-separated name lists (directors, cast, countries, genres) are split and stripped. Each name is resolved to an id with `get_or_create_id` and linked to the show with `INSERT IGNORE`.

The second is `transform_json_to_csv_rows` in `SSIS/Financial-Datawarehouse-ETL/data/exchangerates.py`. It flattens an exchange-rate API response into one row per rate.

Layout:

- `wrappers.dfy`: `Option` and `Result`.
- `text.dfy`: the Python string operations the row loop uses:
  - `str.strip()` with Python's `isspace` set;
  - `str.split(',')`;
  - `str.lower()` on Latin-1;
  - substring `in`;
  - `int()` on a string;
  - the first match of `(\d+)`.
- `dates.dfy`: `datetime.strptime(s, '%Y-%m-%d')`, including its leniency, since one-digit months and days and a space-padded day are accepted. Also the zero-padded day of `strftime('%d')`.
- `netflix_rows.dfy`: how one row is classified and parsed, as pure functions.
- `netflix_tables.dfy`: the effect of the loop on the nine tables, as functions on values:
  - an entity table is a name-to-id map with its AUTO_INCREMENT counter;
  - a link table is a set of `(show_id, id)` pairs;
  - `shows` is a map keyed by `show_id`.

  The lemmas state the schema invariants, id stability, idempotence and which shows survive a run.
- `netflix_db.dfy`: the same state as objects updated in place. An `EntityTable` class holds each entity table. A `Database` class holds the shows, the four entity tables and the four link sets. Its methods have loops over the rows and over the split name lists, and each method is proved to produce the state the matching function describes.
- `netflix_batches.dfy`: the commit-every-100-rows and rollback handling as written, compared with the per-row model (see Findings).
- `exchange_rates.dfy`: the JSON response as a datatype and the transform as a loop method. The method is proved equal to a filter-map specification, and that specification has its own lemmas.

## Model

| member | source | states |
|---|---|---|
| Text.Strip | netflix-etl-project/netflix-etl-mysql.py:219-232 | the stripped text neither starts nor ends with white space and is no longer than the cell |
| Text.StripDecompose | netflix-etl-project/netflix-etl-mysql.py:219-232 | every text is white space, then its stripped form, then white space |
| Text.StripPadded | netflix-etl-project/netflix-etl-mysql.py:219-232 | stripping a stripped text padded with white space on both sides gives that text |
| Text.StripIdempotent | netflix-etl-project/netflix-etl-mysql.py:285 | stripping a name taken from an already stripped column changes nothing more |
| Text.Split | netflix-etl-project/netflix-etl-mysql.py:284 | `split(',')` gives at least one piece and no piece contains the separator |
| Text.JoinSplit | netflix-etl-project/netflix-etl-mysql.py:284 | joining the pieces with the separator gives back the column |
| Text.SplitPrefix | netflix-etl-project/netflix-etl-mysql.py:284 | a separator-free prefix is glued onto the first piece |
| Text.SplitJoin | netflix-etl-project/netflix-etl-mysql.py:284 | splitting undoes joining separator-free pieces |
| Text.Lower | netflix-etl-project/netflix-etl-mysql.py:197 | `lower()` keeps the length and leaves no capital; every capital moves up by exactly 32 and every other character is unchanged |
| Text.LowerAppend | netflix-etl-project/netflix-etl-mysql.py:197 | lowering a concatenation lowers each part |
| Text.LowerIdempotent | netflix-etl-project/netflix-etl-mysql.py:197 | lowering twice is lowering once |
| Text.Contains | netflix-etl-project/netflix-etl-mysql.py:197 | `sub in s`; characterised by `Text.ContainsAt` |
| Text.ContainsAt | netflix-etl-project/netflix-etl-mysql.py:197 | `sub in s` holds exactly when `sub` occurs at some position of `s` |
| Text.RemoveUnderscores | netflix-etl-project/netflix-etl-mysql.py:226 | removing the digit separators leaves only digits, and leaves plain digits as they are |
| Text.RemoveUnderscoresAppend | netflix-etl-project/netflix-etl-mysql.py:226 | removing the separators works piece by piece, and `_` alone becomes the empty text |
| Text.ParseInt | netflix-etl-project/netflix-etl-mysql.py:226 | `int()` accepts exactly an optional sign followed by digits with single underscores between digits; a minus sign gives a value of at most 0; plain digits give their decimal value |
| Text.UnderscoreIgnored | netflix-etl-project/netflix-etl-mysql.py:226 | an underscore between two digit texts leaves the value of `int()` unchanged, e.g. `int("1_000") == int("1000")` |
| Text.JoinedWithUnderscore | netflix-etl-project/netflix-etl-mysql.py:226 | two digit texts joined by one underscore are digit text |
| Text.JoinedDirectly | netflix-etl-project/netflix-etl-mysql.py:226 | two digit texts joined directly are digit text |
| Text.ParsePlus | netflix-etl-project/netflix-etl-mysql.py:226 | a leading `+` is accepted exactly before digit text and does not change the value |
| Text.ParseMinus | netflix-etl-project/netflix-etl-mysql.py:226 | a leading `-` is accepted exactly before digit text and negates its value |
| Text.DigitsValue | netflix-etl-project/netflix-etl-mysql.py:226 | the number `k` decimal digits denote is below `10^k`; its value is fixed by `Text.DigitsValueSnoc` and `Text.DigitsRoundTrip` |
| Text.DigitsValueSnoc | netflix-etl-project/netflix-etl-mysql.py:226 | appending a digit multiplies the value by ten and adds the digit |
| Text.NatToDigits | netflix-etl-project/netflix-etl-mysql.py:226 | the decimal text of a number is non-empty digits with no leading zero |
| Text.DigitsRoundTrip | netflix-etl-project/netflix-etl-mysql.py:226 | reading back the decimal text of a number gives the number |
| Text.IntRoundTrip | netflix-etl-project/netflix-etl-mysql.py:226 | `int(str(n)) == n` for every integer |
| Text.DigitsValueAppendTwo | netflix-etl-project/netflix-etl-mysql.py:258 | appending two digits multiplies the value by a hundred and adds theirs |
| Text.FirstDigitIndex | netflix-etl-project/netflix-etl-mysql.py:238 | the index found has no digit before it and is a digit unless it is the end |
| Text.DigitPrefixLength | netflix-etl-project/netflix-etl-mysql.py:238 | the prefix measured is all digits and is followed by a non-digit or the end |
| Text.FirstDigitRun | netflix-etl-project/netflix-etl-mysql.py:238-239 | `re.search(r'(\d+)')` finds nothing exactly when there is no digit, and otherwise a non-empty run of digits |
| Text.FirstDigitRunUnique | netflix-etl-project/netflix-etl-mysql.py:238-239 | the match is the maximal run after a digit-free prefix |
| Text.FirstNumber | netflix-etl-project/netflix-etl-mysql.py:238-240 | `int(match.group(1))` exists exactly when the search matches |
| Dates.DaysInMonth | netflix-etl-project/netflix-etl-mysql.py:258 | every month of the Gregorian calendar has 28 to 31 days |
| Dates.MonthField | netflix-etl-project/netflix-etl-mysql.py:258 | the `%m` field yields a month from 1 to 12 and consumes at least the month and its dash |
| Dates.MonthFieldTwoDigits | netflix-etl-project/netflix-etl-mysql.py:258 | `%m` takes every zero-padded month from 1 to 12 and the dash after it |
| Dates.MonthFieldOneDigit | netflix-etl-project/netflix-etl-mysql.py:258 | `%m` takes every one-digit month from 1 to 9 and the dash after it |
| Dates.DayField | netflix-etl-project/netflix-etl-mysql.py:258 | the `%d` field yields a day from 1 to 31 and is the rest of the text, one or two characters |
| Dates.DayFieldTwoDigits | netflix-etl-project/netflix-etl-mysql.py:258 | `%d` takes every zero-padded day from 1 to 31 |
| Dates.DayFieldOneDigit | netflix-etl-project/netflix-etl-mysql.py:258 | `%d` takes every one-digit day from 1 to 9, with or without a leading space |
| Dates.ParseIsoDate | netflix-etl-project/netflix-etl-mysql.py:258 | an accepted text is 8 to 10 characters with a four-digit year and a dash, and gives a valid date whose year is those digits |
| Dates.Pad2 | netflix-etl-project/netflix-etl-mysql.py:259 | two digits denoting the number |
| Dates.Pad4 | netflix-etl-project/netflix-etl-mysql.py:258 | four digits denoting the number |
| Dates.DayString | netflix-etl-project/netflix-etl-mysql.py:259 | `strftime('%d')` is two digits denoting the day |
| Dates.FormatIsoDate | netflix-etl-project/netflix-etl-mysql.py:258 | the `YYYY-MM-DD` spelling is ten characters |
| Dates.ParseFormatRoundTrip | netflix-etl-project/netflix-etl-mysql.py:258 | every valid date written `YYYY-MM-DD` is parsed back to itself |
| Dates.ParseCanonical | netflix-etl-project/netflix-etl-mysql.py:258 | an accepted ten-character text without a space-padded day is the canonical spelling of its date |
| Dates.TwoDigitsCanonical | netflix-etl-project/netflix-etl-mysql.py:259 | any two digits are the zero-padded spelling of their value |
| Dates.FourDigitsCanonical | netflix-etl-project/netflix-etl-mysql.py:258 | any four digits are the zero-padded spelling of their value |
| Dates.ParseOneDigitMonth | netflix-etl-project/netflix-etl-mysql.py:258 | every valid date with a month below 10 is accepted with a one-digit month, as in `2021-9-05` |
| Dates.ParseOneDigitDay | netflix-etl-project/netflix-etl-mysql.py:258 | every valid date with a day below 10 is accepted with a one-digit day, as in `2021-09-5` |
| Dates.ParseSpacePaddedDay | netflix-etl-project/netflix-etl-mysql.py:258 | every valid date with a day below 10 is accepted with a space-padded day, as in `2021-09- 5` |
| Dates.ParseRejectsFebruary29 | netflix-etl-project/netflix-etl-mysql.py:258-262 | 29 February of a common year raises `ValueError` |
| Dates.ParseRejectsYearZero | netflix-etl-project/netflix-etl-mysql.py:258-262 | the year 0 raises `ValueError` |
| Dates.ParseRejectsOtherText | netflix-etl-project/netflix-etl-mysql.py:258-262 | trailing text and other layouts raise `ValueError` |
| NetflixRows.IsHeaderCell | netflix-etl-project/netflix-etl-mysql.py:197 | the header test `'show_id' in row[0].lower()`; characterised by `NetflixRows.HeaderInAnyCase` and the three examples below |
| NetflixRows.HeaderInAnyCase | netflix-etl-project/netflix-etl-mysql.py:197 | a first cell holding `show_id` in any mix of cases, with any text around it, is a header |
| NetflixRows.PaddedHeaderCell | netflix-etl-project/netflix-etl-mysql.py:197 | the cell ` SHOW_ID` is a header |
| NetflixRows.MixedCaseHeaderCell | netflix-etl-project/netflix-etl-mysql.py:197 | the cell `Show_Id` is a header |
| NetflixRows.ShowIdNotHeaderCell | netflix-etl-project/netflix-etl-mysql.py:197 | the cell `s1` is not a header |
| NetflixRows.StripKeepsOut | netflix-etl-project/netflix-etl-mysql.py:285 | stripping adds no character, so no name contains a comma |
| NetflixRows.NamesOf | netflix-etl-project/netflix-etl-mysql.py:284-286 | there are no more names than pieces; which names there are is stated by `NetflixRows.NamesOfMembers` and `NetflixRows.NamesOfAreNames` |
| NetflixRows.NamesOfFrom | netflix-etl-project/netflix-etl-mysql.py:284-286 | the names from piece `i` on are those of piece `i` followed by the rest |
| NetflixRows.NamesOfAreNames | netflix-etl-project/netflix-etl-mysql.py:284-286 | separator-free pieces give names that are non-empty, stripped and comma-free |
| NetflixRows.NamesOfMembers | netflix-etl-project/netflix-etl-mysql.py:284-286 | a text is among the names exactly when it is non-empty and some piece strips to it |
| NetflixRows.ParseNames | netflix-etl-project/netflix-etl-mysql.py:283 | an empty column yields no names, since it is not split |
| NetflixRows.ParseNamesAreNames | netflix-etl-project/netflix-etl-mysql.py:283-286 | every name of a column is non-empty, stripped and free of `,` |
| NetflixRows.ParseNamesMembers | netflix-etl-project/netflix-etl-mysql.py:283-286 | the names of a column are exactly its non-empty stripped pieces |
| NetflixRows.DurationAndSeasons | netflix-etl-project/netflix-etl-mysql.py:232-247 | duration is set exactly for a "Movie" whose cell has a digit, and seasons exactly for a "TV Show"; the value is the first number |
| NetflixRows.DateAddedFields | netflix-etl-project/netflix-etl-mysql.py:254-262 | day and year are set exactly when `strptime` accepts the text; an empty text gives two `NULL`s; the day is two digits denoting the day; the year is the date's year |
| NetflixRows.DateAddedOfIsoDate | netflix-etl-project/netflix-etl-mysql.py:256-260 | a `YYYY-MM-DD` date is stored as its zero-padded day and its year |
| NetflixRows.ParseFields | netflix-etl-project/netflix-etl-mysql.py:216-262 | a twelve-cell row is accepted exactly when `int()` accepts the stripped release year, is otherwise rejected with that text, and an accepted row is well formed |
| NetflixRows.ProcessRow | netflix-etl-project/netflix-etl-mysql.py:192-213 | empty rows, the header in row 0 and rows of fewer than twelve cells are told apart exactly; an accepted row had at least twelve cells and is well formed |
| NetflixRows.TruncationIrrelevant | netflix-etl-project/netflix-etl-mysql.py:209-213 | a row longer than twelve cells is handled exactly like its first twelve |
| NetflixRows.ReleaseYearDecides | netflix-etl-project/netflix-etl-mysql.py:226 | past the length check, a row is accepted exactly when its release year is an integer, and then with that year; otherwise the whole row is skipped |
| NetflixRows.AcceptedColumns | netflix-etl-project/netflix-etl-mysql.py:219-224 | an accepted row's show id is its first cell stripped, and its name lists come from cells 3, 4, 5 and 10 |
| NetflixRows.AcceptedRecord | netflix-etl-project/netflix-etl-mysql.py:219-262 | each `shows` column of an accepted row comes from its own stripped cell, the date columns from the date cell, and duration or seasons from the type and cell 9 |
| NetflixRows.HeaderOnlyFirst | netflix-etl-project/netflix-etl-mysql.py:197 | only row 0 is ever taken for a header |
| NetflixTables.GetOrCreateId | netflix-etl-project/netflix-etl-mysql.py:144-160 | the name ends up in the table with the returned id; an existing name leaves the table unchanged; a new name gets an id no other name has; old names keep their ids and the key invariants hold |
| NetflixTables.GetOrCreateIdStable | netflix-etl-project/netflix-etl-mysql.py:152-156 | asking again for a name, later, returns the same id and changes nothing |
| NetflixTables.LinkNames | netflix-etl-project/netflix-etl-mysql.py:284-291 | after one name list, the table holds the old names plus the list's names, old ids are kept, and the links are the old ones plus one `(show_id, id)` per distinct name |
| NetflixTables.LinkNamesCons | netflix-etl-project/netflix-etl-mysql.py:284-291 | the first name of the list is resolved and linked first |
| NetflixTables.LinkNamesNoop | netflix-etl-project/netflix-etl-mysql.py:287-291 | names already present and linked change nothing |
| NetflixTables.LinkNamesAppend | netflix-etl-project/netflix-etl-mysql.py:284 | linking a concatenation is linking one part and then the other |
| NetflixTables.LinkNamesRepeated | netflix-etl-project/netflix-etl-mysql.py:287-291 | a name repeated within a list adds no second link and no second entity row |
| NetflixTables.ImportRow | netflix-etl-project/netflix-etl-mysql.py:266-324 | the upsert of the show and the linking of its four name lists; characterised by `NetflixTables.ImportRowEffect`, `NetflixTables.ImportRowOtherShows`, `NetflixTables.ImportRowValid` and `NetflixTables.ImportRowIdempotent` |
| NetflixTables.ImportRowEffect | netflix-etl-project/netflix-etl-mysql.py:266-324 | the show is inserted or its record replaced, other shows are unchanged, no name changes its id, and every name of the row is in its table and linked to the show |
| NetflixTables.ImportRowFromParts | netflix-etl-project/netflix-etl-mysql.py:266-324 | a state made of the upserted shows and the four linked name lists is the state after the row |
| NetflixTables.ImportRowOtherShows | netflix-etl-project/netflix-etl-mysql.py:283-324 | the links of every other show are unchanged |
| NetflixTables.LinkNamesKeepsLinksValid | netflix-etl-project/netflix-etl-mysql.py:62-99 | linking a present show keeps both foreign keys of a link table |
| NetflixTables.ImportRowValid | netflix-etl-project/netflix-etl-mysql.py:266-324 | importing a row keeps every key and foreign-key constraint of the schema |
| NetflixTables.ApplyRow | netflix-etl-project/netflix-etl-mysql.py:192-229 | a skipped or rejected row leaves every table as it was |
| NetflixTables.ApplyRowAccepted | netflix-etl-project/netflix-etl-mysql.py:216-324 | an accepted row imports its parsed fields |
| NetflixTables.ImportRowIdempotent | netflix-etl-project/netflix-etl-mysql.py:266-324 | importing the same parsed row twice is importing it once |
| NetflixTables.ApplyRowIdempotent | netflix-etl-project/netflix-etl-mysql.py:192-324 | handling the same row twice is handling it once |
| NetflixTables.ApplyRows | netflix-etl-project/netflix-etl-mysql.py:192-329 | the row loop, row `i` handled by `NetflixTables.ApplyRow`; characterised by `NetflixTables.ApplyRowsValid`, `NetflixTables.ApplyRowsExtends`, `NetflixTables.ApplyRowsImported` and `NetflixTables.ApplyRowsOnlyImported` |
| NetflixTables.ApplyRowsValid | netflix-etl-project/netflix-etl-mysql.py:192-329 | the row loop keeps every schema constraint |
| NetflixTables.ApplyRowsExtends | netflix-etl-project/netflix-etl-mysql.py:192-329 | over the whole loop no name changes its id |
| NetflixTables.BeginImport | netflix-etl-project/netflix-etl-mysql.py:180-185 | the deletes keep the schema constraints and leave the entity tables exactly as they were |
| NetflixTables.ApplyRowShows | netflix-etl-project/netflix-etl-mysql.py:266-280 | after a row, a show is present exactly when it was before or the row imported it |
| NetflixTables.ApplyRowsKeepsShows | netflix-etl-project/netflix-etl-mysql.py:192-329 | rows only add or replace shows |
| NetflixTables.ApplyRowsImported | netflix-etl-project/netflix-etl-mysql.py:192-329 | every accepted row's show is present after the loop |
| NetflixTables.ApplyRowsLast | netflix-etl-project/netflix-etl-mysql.py:192-329 | a show present before row `k`, or imported by it, is present after it |
| NetflixTables.ApplyRowsPrefixKeepsShows | netflix-etl-project/netflix-etl-mysql.py:192-329 | the shows present after a prefix of the rows are still present after all of them |
| NetflixTables.ApplyRowsOnlyImported | netflix-etl-project/netflix-etl-mysql.py:192-329 | a show present after the loop was there before or came from an accepted row |
| NetflixTables.EtlProcess | netflix-etl-project/netflix-etl-mysql.py:173-339 | the deletes, then the row loop; characterised by `NetflixTables.EtlShows` |
| NetflixTables.EtlShows | netflix-etl-project/netflix-etl-mysql.py:173-329 | after a run, a show is present exactly when an accepted row of the file carried its id |
| NetflixDb.EntityTable.constructor | netflix-etl-project/netflix-etl-mysql.py:34-38 | a new entity table is empty and will hand out id 1 first |
| NetflixDb.EntityTable.GetOrCreateId | netflix-etl-project/netflix-etl-mysql.py:144-160 | the table and the returned id are those `NetflixTables.GetOrCreateId` gives |
| NetflixDb.LinkColumn | netflix-etl-project/netflix-etl-mysql.py:283-291 | the loop over one column leaves the table and links that `NetflixTables.LinkNames` gives for the column's names |
| NetflixDb.Database.constructor | netflix-etl-project/netflix-etl-mysql.py:19-99 | a new database has nine empty tables |
| NetflixDb.Database.BeginImport | netflix-etl-project/netflix-etl-mysql.py:180-185 | the deletes leave the state `NetflixTables.BeginImport` gives |
| NetflixDb.Database.ImportFields | netflix-etl-project/netflix-etl-mysql.py:266-324 | the show is upserted, and each entity table and its links are those `NetflixTables.LinkNames` gives for its column |
| NetflixDb.Database.HandleRow | netflix-etl-project/netflix-etl-mysql.py:192-329 | the outcome is the row's classification, and the tables are those `NetflixTables.ApplyRow` gives |
| NetflixDb.Database.EtlProcess | netflix-etl-project/netflix-etl-mysql.py:173-339 | the tables after the run are those `NetflixTables.EtlProcess` gives |
| NetflixBatches.StepAsWritten | netflix-etl-project/netflix-etl-mysql.py:192-337 | one iteration with its commit or rollback; characterised by `NetflixBatches.RejectedRowRollsBack`, `NetflixBatches.AcceptedKeepsCommit` and `NetflixBatches.StepWithoutReject` |
| NetflixBatches.RunAsWritten | netflix-etl-project/netflix-etl-mysql.py:192-337 | the row loop with its transactions; characterised by `NetflixBatches.RunSnoc` and `NetflixBatches.RunWithoutRejects` |
| NetflixBatches.EtlProcessAsWritten | netflix-etl-project/netflix-etl-mysql.py:173-339 | `etl_process` as written; compared with the per-row model by `NetflixBatches.AsWrittenWithoutRejects` and `NetflixBatches.RejectDiscardsEarlierRow` |
| NetflixBatches.RunSnoc | netflix-etl-project/netflix-etl-mysql.py:192 | the loop over one more row is one more iteration after the loop |
| NetflixBatches.RejectedRowRollsBack | netflix-etl-project/netflix-etl-mysql.py:205-208 | a rejected row brings the tables back to the last commit |
| NetflixBatches.AcceptedKeepsCommit | netflix-etl-project/netflix-etl-mysql.py:335-337 | an accepted row that is not a hundredth row does not commit |
| NetflixBatches.StepWithoutReject | netflix-etl-project/netflix-etl-mysql.py:192-208 | a row that is not rejected has, on the open transaction, the effect the per-row model gives it |
| NetflixBatches.FirstRowRolledBack | netflix-etl-project/netflix-etl-mysql.py:205-208 | a rejected second row undoes the uncommitted first row, leaving the state of the last commit |
| NetflixBatches.RunWithoutRejects | netflix-etl-project/netflix-etl-mysql.py:192-339 | without rejected rows, the loop as written has the effect of the per-row model |
| NetflixBatches.AsWrittenWithoutRejects | netflix-etl-project/netflix-etl-mysql.py:173-339 | on a file without rejected rows, `etl_process` as written and the per-row model agree |
| NetflixBatches.RejectDiscardsEarlierRow | netflix-etl-project/netflix-etl-mysql.py:205-208 | an accepted row followed by a short row is kept by the per-row model and lost by the code as written |
| ExchangeRates.Get | SSIS/Financial-Datawarehouse-ETL/data/exchangerates.py:116-120 | `dict.get` finds a value exactly when the key is present, and the value found is stored under that key |
| ExchangeRates.FlattenRates | SSIS/Financial-Datawarehouse-ETL/data/exchangerates.py:122-132 | at most one row per rate entry; every row carries the base currency and the requested date; every target currency is a key of the rates |
| ExchangeRates.TransformSpec | SSIS/Financial-Datawarehouse-ETL/data/exchangerates.py:114-134 | an empty response, a missing or falsy `base`, or a missing `rates` gives the empty list; a truthy response that is not a dict, or a present `rates` that is not a dict, raises; every row carries the requested date |
| ExchangeRates.TransformJsonToCsvRows | SSIS/Financial-Datawarehouse-ETL/data/exchangerates.py:114-134 | the loop with its `try`/`continue` returns exactly the rows of `TransformSpec` |
| ExchangeRates.Convertible | SSIS/Financial-Datawarehouse-ETL/data/exchangerates.py:122-132 | the entries kept are entries of the rates whose value converts |
| ExchangeRates.ConvertibleSnoc | SSIS/Financial-Datawarehouse-ETL/data/exchangerates.py:122-132 | one more entry is kept exactly when its value converts |
| ExchangeRates.FlattenIsFilterMap | SSIS/Financial-Datawarehouse-ETL/data/exchangerates.py:122-132 | the rows are the convertible entries in their order, each made into a row of the base, its key, its converted value and the requested date |
| ExchangeRates.FlattenComplete | SSIS/Financial-Datawarehouse-ETL/data/exchangerates.py:122-129 | every entry whose value converts yields its row |
| ExchangeRates.FlattenSound | SSIS/Financial-Datawarehouse-ETL/data/exchangerates.py:122-127 | every row comes from an entry with its key whose value converts to the row's rate |
| ExchangeRates.FlattenLength | SSIS/Financial-Datawarehouse-ETL/data/exchangerates.py:122-132 | there are as many rows as entries exactly when every value converts |
| ExchangeRates.FlattenDistinct | SSIS/Financial-Datawarehouse-ETL/data/exchangerates.py:122 | the rows of a dict's rates have pairwise distinct target currencies |
| ExchangeRates.RateOfKey | SSIS/Financial-Datawarehouse-ETL/data/exchangerates.py:122-127 | each row's rate is the converted value stored under its target currency |
| ExchangeRates.GetDistinct | SSIS/Financial-Datawarehouse-ETL/data/exchangerates.py:116-120 | in a dict, looking up an entry's key gives that entry's value |

## Findings

| source | as written | input that shows it | evidently intended | confidence | as-written member | corrected member |
|---|---|---|---|---|---|---|
| netflix-etl-project/netflix-etl-mysql.py:205-208 | a row with too few cells, or with a release year `int()` refuses (326-329), calls `conn.rollback()`, and commits happen only after every hundredth row (335-337); so the rollback also undoes every accepted row since the last commit | an accepted first row followed by a row of fewer than twelve cells: the first row's show is missing after the run | skip only the failing row, as the messages "Skipping row" and the comment on line 328 say | high; not executed | NetflixBatches.RejectDiscardsEarlierRow | NetflixTables.EtlShows |

The rest of the model uses the corrected behaviour, in which a rejected row leaves only itself out (`NetflixTables.ApplyRow`, `NetflixDb.Database.HandleRow`). `NetflixBatches.AsWrittenWithoutRejects` proves that the code as written and the corrected model agree on every file without a rejected row.

## Left out

- Connecting to MySQL and creating the database and tables (lines 102-142) are I/O. The schema enters the model only as its constraints: the UNIQUE names, the AUTO_INCREMENT ids, and the primary and foreign keys of the link tables.
- The batch commits and rollbacks appear only in `NetflixBatches`. There, a rollback restores the AUTO_INCREMENT counter too. InnoDB does not give rolled-back ids back, so the ids differ from the database's after a rollback.
- The rollback after a MySQL error (lines 330-333) is not modelled, because no database error is modelled.
- The errno-1062 re-select in `get_or_create_id` (lines 161-169) is left out. It only answers a concurrent inserter, and a sequential map cannot raise a duplicate-key error.
- Name equality is exact string equality. MySQL's default collation also treats names that differ only in case, accents or trailing spaces as equal for the UNIQUE and primary keys.
- Column widths are not modelled: `VARCHAR(255)` and `VARCHAR(50)` truncate or reject long values depending on the SQL mode.
- Console messages (`print`) are not modelled. The row outcome says why a row was skipped.
- `csv.reader` is left out: quoting, embedded newlines and the Latin-1 decoding. A row arrives as its list of cells.
- Text.Lower: covers Latin-1 only, because the file is read as Latin-1. Python's `str.lower()` on other characters is not modelled.
- Text.ParseInt: models `int()` on ASCII digits only. The Latin-1 input holds no other Unicode decimal digits.
- Text.ParseInt: has no limit on the number of digits. CPython 3.11 and later, and the 2022 security releases of 3.7 to 3.10, raise `ValueError` for more than 4300 digits, so the code skips a row whose release year is that long (lines 226 and 326-329) where the model accepts it.
- Text.ParseInt: gives unbounded integers. The `INT` columns of the schema (lines 25-29) hold 32-bit values, and MySQL rejects a release year outside -2147483648..2147483647; that error path (lines 330-333) is not modelled.
- Text.FirstNumber: has no limit on the number of digits either. With more than 4300 digits in the first run, `int()` at line 240 raises `ValueError` and the code skips the row (lines 326-329); the model stores the number. A duration or season count beyond the 32-bit `INT` range makes MySQL reject the row, which is not modelled.
- NetflixRows.ParseFields: because of the two limits above, the code rejects some rows the model accepts: those with an over-long release year or first duration number, and those whose values MySQL refuses for an `INT` column.
- Dates.ParseIsoDate: models the leniency of `strptime` for `%Y-%m-%d` as described above. It does not model `strptime` for other formats or locales.
- The pyodbc date query, the HTTP fetch, the thread pool, the CSV writer and the logging in `exchangerates.py` are left out (lines 37-111 and 137 onwards). They are database, network, concurrency and file I/O.
- The value `float()` produces is left out. Conversion is a parameter `toFloat` that either yields a value or fails, where failure stands for `ValueError` or `TypeError`.
- ExchangeRates.TransformSpec: treats every conversion failure as skipped. `float()` on an integer too large for a double raises `OverflowError`, which the code does not catch.
- JSON numbers are `real`s. The model does not tell integers from floats, has no NaN or infinity, and ignores duplicate keys in the JSON text. An object is the dict `json` builds from it, whose keys are distinct.
