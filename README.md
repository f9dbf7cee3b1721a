# osta, modelled in Dafny

osta is a pandas toolkit for Finnish municipal purchase-invoice tables. It renames the columns of an
invoice table to standard names, validates identifiers such as Business IDs (Y-tunnus) and EU VAT numbers,
and links the invoice rows to reference tables of organisations, accounts, services and suppliers. It
also works out the day/month/year order of dates and enriches the table with columns from the
reference tables. A separate script builds the account-chart hierarchy of a balance sheet.

This project models the helpers that do that work. It states and proves what they promise.

A table is modelled as a `Frame`: column labels, dtypes and rows of `Cell`s. A `Cell` is `NA`, a string,
an integer, a float carried by its Python `repr`, or a boolean. A balance sheet is a `Sheet`: its labels
may be `None`, as pandas produces for unnamed Excel columns. Python's `int()` is modelled by a character
scanner (`Common.ParseInt`). The regular expressions of the VAT and Business-ID checks run on a small
backtracking matcher (`Regex`). It reproduces Python's `^`, `$` (which also matches before a final newline),
`\d`, character classes, counted repetition and `re.IGNORECASE` for ASCII letters.

Modules, one file each:

- `Common` (common.dfy): the Option/Result wrappers and Python text helpers (`int()`, `str()`, `lower`, `upper`, `strip`, `list.index`, `re.split` on one character class). It also holds the cell, key and table types.
- `Regex` (regex.dfy): the pattern matcher.
- `Utils` (utils.dfy): src/osta/__utils.py and its copy src/osta/utils.py.
- `ChangeNames` (change_names.dfy): src/osta/change_names.py.
- `CleanDates`, `CompactDates`, `Linkage` and `Subsets` (clean_dates.dfy, compact_dates.dfy, linkage.dfy, subsets.dfy): src/osta/clean_data.py.
- `Enrich` (enrich.dfy): src/osta/enrich_data.py.
- `OstanClean` (ostan_clean.dfy): src/ostan/clean_data.py, the older revision of the cleaning module.
- `AccountInfo` and `TaseCats` (account_info.dfy, tase_cats.dfy): the transforms of data/get_account_info.py.

Where the code works step by step, the model does too:

- the three loops of `change_names` (`ChangeNames.LookUpNames`, `GuessNames`, `MakeUnique`, `ChangeColumnNames` on a `Table` object);
- the in-place column conversion and labelling loops of the date-format functions;
- the fill of the working table in `__convert_dates_without_sep`;
- the row overwrites of `__replace_old_values_with_new` on an array;
- the nested search loops of `__get_matches_from_db`;
- the `temporary_X` column that `__add_data_from_db` adds to its caller's table;
- the `for`/`while` level placement of `add_tase_cats`.

Each method is proved equal to a specification function, and the properties are proved about that function.

Where the code and its documentation disagree, the model follows the code:

- The line that should skip the `__standardize_*` steps for duplicated columns returns nothing at all (`Linkage.NotDuplicatedAsWritten`).
- `add_tase_cats` never raises its "Error.": its order check compares the category index with the very account column it was built from (`TaseCats.AddTaseCats`).
- When the old `clean_data` finds an empty row or column, it drops every row that holds any missing value, not only the empty rows. The second `dropna`, over columns, then finds nothing left to drop, so no column is removed (`OstanClean.EmptyColumnEmptiesTable`, `OstanClean.DropNaColumnsAfterRows`).

Where the code is evidently wrong, each row of "## Findings" names a member that behaves as written and a corrected one. The date methods take the faulty step as a parameter and so cover both. Only `Enrich.AddDataFromDb` and `Enrich.RunStep` use the corrected definition alone; see their line under "## Left out".

## Model

| member | source | states |
|---|---|---|
| Utils.IsNonEmptyDf | src/osta/__utils.py:7-14 | a value passes exactly when it is a data frame holding at least one cell |
| Utils.IsPercentage | src/osta/__utils.py:17-27 | a value is a percentage exactly when it is an int or a float, not a bool and not NaN, and lies in [0, 1] |
| Utils.PercentageExamples | src/osta/utils.py:16-26 | the copy in utils.py: `None`, `True`, `False`, strings, NaN, -1, 2 and 1.5 are refused; 0, 1 and 0.5 are accepted |
| Utils.BidShapeIff | src/osta/__utils.py:39-44 | the Business-ID shape test accepts exactly seven digits, '-', one digit (and possibly a final newline) |
| Utils.ValidBidIffDivisible | src/osta/__utils.py:56-67 | a shaped ID is valid exactly when the weighted sum (weights 7,9,10,5,8,4,2) plus the check digit is divisible by 11 |
| Utils.CheckIffDivisible | src/osta/__utils.py:61-67 | for one check digit, 11 minus the sum modulo 11 (0 in place of 11) equals the digit exactly when the sum plus the digit is divisible by 11 |
| Utils.RemainderOneRejected | src/osta/__utils.py:61-67 | a weighted sum with remainder 1 asks for check digit 10, so the ID is always rejected |
| Utils.BidExamples | src/osta/__utils.py:56-67 | "0135202-4" is valid; "0135442-4" and "0135dd2-4" are not |
| Utils.AreValidBids | src/osta/__utils.py:30-72 | after splitting into shaped and unshaped values and concatenating, one result per input, in input order, each the validity of its own value |
| Utils.LookupAll | src/osta/__utils.py:69-71 | reading the concatenated results back by index finds each value's own validity |
| Utils.AreValidBidsExample | src/osta/__utils.py:30-72 | ["0135202-4", "0135202-4", "0135442-4"] gives [true, true, false] |
| Utils.AreValidVatNumbers | src/osta/__utils.py:75-157 | one result per element, in order, each the search of the joined pattern in the text without spaces |
| Utils.FinnishPatternIff | src/osta/__utils.py:85 | the Finnish alternative accepts "FI" in any case followed by exactly eight digits |
| Utils.FinnishVatIff | src/osta/__utils.py:83-85 | a text starting with "FI" (any case) once spaces are removed is valid exactly when eight digits follow |
| Utils.FinnishVatAccepted | src/osta/__utils.py:154-155 | "FI" plus eight digits is accepted however spaces are spread through it |
| Utils.VatIgnoresSpaces | src/osta/__utils.py:154 | spaces anywhere in the value make no difference |
| Utils.VatIgnoresCase | src/osta/__utils.py:155 | the case of the value makes no difference |
| Utils.CzechHungaryNeverMatches | src/osta/__utils.py:146-148 | the alternative made by joining the Czech and Hungarian strings matches no text |
| Utils.CzechAndHungarianAlwaysRejected | src/osta/__utils.py:146-148 | as written, every value starting with CZ or HU is rejected |
| Utils.CzechIntended | src/osta/__utils.py:146 | with the comma restored, "CZ" plus nine or ten digits is accepted, while as written it is not |
| Utils.HungaryIntended | src/osta/__utils.py:148 | with the comma restored, "HU" plus nine digits is accepted, while as written it is not |
| Utils.AsWrittenVersusIntended | src/osta/__utils.py:146-148 | the missing comma only removes matches: the two pattern lists agree except on Czech or Hungarian numbers |
| Regex.AnchoredOnes | src/osta/__utils.py:39-40 | `^body$` over single-character classes matches a text exactly as long as the body (plus a final newline) with every character in its class |
| Regex.SearchAnyAppend | src/osta/__utils.py:154-155 | searching a `|`-joined pattern is searching each alternative |
| Regex.SearchAnyIgnoresCase | src/osta/__utils.py:155 | under `re.IGNORECASE` a search does not depend on the case of the text |
| ChangeNames.GetIffKey | src/osta/change_names.py:132 | `fields.get(k)` finds a value exactly for the keys of the dictionary |
| ChangeNames.PutGet | src/osta/change_names.py:233-238 | after `d[k] = v`, `k` gives `v` and every other key what it gave before |
| ChangeNames.UpdateAllGet | src/osta/change_names.py:232-238 | after `update`, the last pair with a key wins and other keys keep their old values |
| ChangeNames.GetFields | src/osta/change_names.py:214-262 | every key of the resulting dictionary is in lower case; a dictionary argument is lower-cased entry by entry, the last entry of a key winning; a table without a `key` or a `value` column raises the error of lines 240-244, and otherwise fails exactly when its entries cannot be read, else gives its `key`-to-`value` entries lower-cased |
| ChangeNames.DefaultFieldsMapValuesToThemselves | src/osta/change_names.py:221-238 | every standard name of the default dictionary maps to itself |
| ChangeNames.StandardNameKept | src/osta/change_names.py:236-259 | a column already carrying a standard name keeps it, unless another spelling of it maps elsewhere |
| ChangeNames.BestKey | src/osta/change_names.py:410-411 | `extractOne` gives nothing exactly when no key scores at least 0; otherwise a key of highest score, the first one |
| ChangeNames.LooseMatch | src/osta/change_names.py:399-420 | a blank name is kept; with no key at all the lookup raises; otherwise, when the best key scores at least `pattern_th`×100 the result is that key's value, else the name itself; a changed name is the value of a key scoring at least `pattern_th`×100 |
| ChangeNames.LooseMatchValue | src/osta/change_names.py:413-418 | a loose-match result other than the name is a value of the dictionary |
| ChangeNames.BidTestShares | src/osta/change_names.py:423-450 | a threshold of 0 or less always passes; a positive threshold passes exactly when at least that share of the rows hold a valid Business ID and at least that share of the rows have nine characters |
| ChangeNames.BidShareCounts | src/osta/change_names.py:431-446 | the share compared is the smaller of the share of rows holding a valid Business ID and the share of nine-character rows, or 0 when either is 0 (the boolean index masks out the count of `True`) |
| ChangeNames.ValidIdRowsCount | src/osta/change_names.py:431-432 | the number of `True` flags counted is the number of rows holding a valid Business ID |
| ChangeNames.SmallerShareAtLeast | src/osta/change_names.py:439-449 | the smaller share reaches a positive threshold exactly when both counts reach it |
| ChangeNames.BidTestNeedsValidId | src/osta/change_names.py:439-449 | without a valid ID the share is 0, so the test fails for any positive threshold |
| ChangeNames.PairsMatchIffDetermines | src/osta/change_names.py:520-528 | the distinct-pair count equals the reference column's distinct count exactly when the reference column determines the tested one |
| ChangeNames.NonMissing | src/osta/change_names.py:622-623 | `dropna` keeps exactly the present values |
| ChangeNames.DbColumns | src/osta/change_names.py:636-639 | the column lookup succeeds exactly when `code_num` exists (countries) or the column named by the test exists (otherwise), as the `KeyError` of pandas demands; the columns searched are exactly all but `code_num` for countries, else exactly those named by the test |
| ChangeNames.Positions | src/osta/change_names.py:636-639 | the positions listed are exactly those whose label is (or is not) the tag |
| ChangeNames.TestIfInDb | src/osta/change_names.py:595-660 | a column linked to `cols_not_match` is refused; a link to `cols_to_match` accepts it; an accepted column is linked or has enough database hits |
| ChangeNames.TestIfInDbIff | src/osta/change_names.py:627-659 | the test raises exactly when the database search raises; otherwise it holds exactly when the column is not linked to `cols_not_match` and either enough values are found in the database or it is linked to `cols_to_match` |
| ChangeNames.InDbIgnoresColnames | src/osta/change_names.py:325-355 | the service and account calls pass `do_not_match`, which `**args` swallows, so their result does not depend on the names found |
| ChangeNames.OrgOrSupplBid | src/osta/change_names.py:453-501 | the result is one of "org_bid", "org_id", "suppl_id" or "bid", and it raises exactly when the municipality look-up raises |
| ChangeNames.OrgOrSupplBidPrecedence | src/osta/change_names.py:460-501 | a Business ID found among the municipalities is "org_bid"; otherwise the later rules override the earlier: fewer than half unique values gives "org_id", then equal to `org_id`, then differing from `suppl_id`, then no known column gives "bid", then a link to the organisation columns gives "org_id", else "suppl_id" |
| ChangeNames.TestIfBid | src/osta/change_names.py:423-450 | for a positive threshold, a column passes only with some valid Business ID and some nine-character value (the exact condition is `ChangeNames.BidTestShares`) |
| ChangeNames.MatchBetween | src/osta/change_names.py:504-529 | a column matches only when its dtype is listed and some listed name has already been found |
| ChangeNames.MatchBetweenMeans | src/osta/change_names.py:514-528 | with no missing cells, a column matches exactly when its dtype is listed and some listed column already found determines its values |
| ChangeNames.VatTestNeedsValidVat | src/osta/change_names.py:574-592 | for a positive threshold, a column passes the VAT-number test only when some present cell is a valid VAT number |
| ChangeNames.Decider | src/osta/change_names.py:291-395 | the deciding test is the first, in order, that does not report a plain "no": every earlier one does |
| ChangeNames.FirstPassingDecides | src/osta/change_names.py:291-395 | an `if`/`elif` chain gives the name of its deciding test, raises with it, or falls to the `else` when every test says no |
| ChangeNames.FirstHitDecides | src/osta/change_names.py:291-395 | when every earlier test says no, the first test that holds gives the name |
| ChangeNames.LaterTests | src/osta/change_names.py:298-390 | the tests after the strict match, in source order, starting with the Business-ID test |
| ChangeNames.LaterNames | src/osta/change_names.py:298-391 | the later tests name the column by `__org_or_suppl_BID`, then "date", "country", "vat_number", "org_name", "service_cat", "service_cat_name", "account_number", "account_name", "org_number", "suppl_name", "price_ex_vat", "total", "vat_amount", "voucher" in that order |
| ChangeNames.CascadeSteps | src/osta/change_names.py:291-391 | the strict match comes first and holds when it changes the name, giving its own result; the later tests follow in source order with their names |
| ChangeNames.CascadeStepNames | src/osta/change_names.py:298-391 | past the strict match every name a test gives is one the cascade can give |
| ChangeNames.GuessName | src/osta/change_names.py:263-396 | a threshold that is not a percentage raises; otherwise the guess is the old name, a cascade name or a dictionary value |
| ChangeNames.StrictNameMatchFirst | src/osta/change_names.py:291-296 | a loose match at the strict threshold that changes the name wins over every pattern test |
| ChangeNames.GuessNameOrder | src/osta/change_names.py:263-396 | with valid thresholds the guess is decided by the first test in source order that does not say no: its name, its error, or the loose match at `pattern_th` when none holds |
| ChangeNames.GuessNameFirstHit | src/osta/change_names.py:291-395 | the first test in source order that holds, after all earlier ones said no, gives the guess; past the first two that is its fixed name |
| ChangeNames.BidTestSecond | src/osta/change_names.py:291-302 | when the strict match keeps the name, a column passing the Business-ID test is named by `__org_or_suppl_BID` |
| ChangeNames.NoTestFallsBack | src/osta/change_names.py:392-395 | when no test holds or raises, the loose match at `pattern_th` decides |
| ChangeNames.ExactNamesAt | src/osta/change_names.py:129-141 | each name is replaced by its exact match, if it has one |
| ChangeNames.NotFoundSound | src/osta/change_names.py:134-139 | only positions without an exact match are listed as not found |
| ChangeNames.NotFoundComplete | src/osta/change_names.py:134-139 | every position without an exact match is listed as not found |
| ChangeNames.GuessLoop | src/osta/change_names.py:149-161 | the guessing loop keeps the number of names |
| ChangeNames.GuessLoopKeepsOthers | src/osta/change_names.py:149-158 | only the positions the loop visits can change |
| ChangeNames.SuffixFrom | src/osta/change_names.py:190-200 | the suffix step keeps the number of names |
| ChangeNames.SuffixKeepsDistinct | src/osta/change_names.py:184-200 | names that are all different pass through the suffix step unchanged |
| ChangeNames.SuffixShape | src/osta/change_names.py:190-200 | a name already emitted (before the step or earlier in it) gets `_n`, n one more than its copies emitted so far; any other name is kept; a name is kept exactly when it was not emitted before |
| ChangeNames.SuffixTriple | src/osta/change_names.py:192-196 | ["a","a","a"] becomes ["a","a_2","a_2"]: suffixed names are not counted, so uniqueness is not guaranteed |
| ChangeNames.ChangeNamesSpec | src/osta/change_names.py:98-123 | a bad `df`, `guess_names`, `make_unique` or `fields` argument raises; a result has one name per column |
| ChangeNames.ArgError | src/osta/change_names.py:98-121 | no argument error exactly when `df` is a non-empty frame, both flags are bools and `fields` is a non-empty frame, a dict, a string or None |
| ChangeNames.NamesWithFields | src/osta/change_names.py:123-208 | a failed dictionary read is the error of the call; otherwise there is one new name per column |
| ChangeNames.NewNames | src/osta/change_names.py:123-209 | the new names keep the column count |
| ChangeNames.Guessed | src/osta/change_names.py:125-171 | the exact look-up followed by the guesses keeps one name per column |
| ChangeNames.Uniqued | src/osta/change_names.py:180-208 | the suffixing step keeps one name per column |
| ChangeNames.ExactMatchesKept | src/osta/change_names.py:129-161 | a name with an exact match gets it: guesses are made only for the others |
| ChangeNames.NoGuessKeepsUnmatched | src/osta/change_names.py:145-173 | with `guess_names=False` the names are the exact look-up and an unmatched name is left exactly as it was |
| ChangeNames.DistinctNamesNotSuffixed | src/osta/change_names.py:184 | with `make_unique`, names already all different are kept as they are |
| ChangeNames.LookUpNames | src/osta/change_names.py:125-141 | the first loop computes the exact look-up and the positions not found |
| ChangeNames.GuessNames | src/osta/change_names.py:145-161 | the second loop computes the guessing loop's names |
| ChangeNames.MakeUnique | src/osta/change_names.py:184-200 | the third loop computes the suffixed names |
| ChangeNames.ChangeColumnNames | src/osta/change_names.py:10-209 | the table's labels become the names `change_names` gives and nothing else changes; on an error the table is left as it was |
| ChangeNames.ColumnNamesFor | src/osta/change_names.py:98-173 | the argument checks, the dictionary and the three loops compute the names `change_names` gives, or its error |
| ChangeNames.SetNames | src/osta/change_names.py:173 | assigning `df.columns` replaces the labels and leaves the dtypes and rows as they were |
| ChangeNames.RenameColumns | src/osta/change_names.py:125-208 | the three loops compute the new names once the dictionary is known |
| ChangeNames.RenameWithFields | src/osta/change_names.py:123-208 | passes a failed dictionary read on as the error, or computes the names the three loops give |
| ChangeNames.GuessStep | src/osta/change_names.py:125-171 | the first two loops compute the exact look-up followed by the guesses |
| CleanDates.ToNumericReadsInt | src/osta/clean_data.py:296-298 | a converted column holds what `int()` reads from each value |
| CleanDates.ToNumericIdempotent | src/osta/clean_data.py:296-298 | converting twice changes nothing more |
| CleanDates.ConvertNumericColumns | src/osta/clean_data.py:296-298 | the loop converts every column in place |
| CleanDates.PartOfRecognises | src/osta/clean_data.py:300-327 | a column with a value in 1970..2049 is a year; otherwise one with a value in 13..31 is a day; one of month numbers only is a month |
| CleanDates.LabelColumns | src/osta/clean_data.py:316-327 | the labelling loop gives one label per column, in column order |
| CleanDates.FlagsWithSep | src/osta/clean_data.py:330-340 | without all three labels the incoming flags are returned; with them `yearfirst` says whether the year label is first |
| CleanDates.FlagsWithSepRecognisesLayout | src/osta/clean_data.py:330-339 | with year, day and month at distinct positions, the flags say exactly whether the day precedes the month and whether the year is first |
| CleanDates.GetFormatWithSep | src/osta/clean_data.py:288-340 | the columns are converted in place and the flags follow from their labels |
| CleanDates.MaxLen | src/osta/clean_data.py:351 | the longest length bounds every value and is reached |
| CleanDates.PassingExact | src/osta/clean_data.py:379-382 | when no window test raised, exactly the passing windows are listed, in increasing order |
| CleanDates.PassingErr | src/osta/clean_data.py:367-375 | a window test that raises makes the whole scan raise with its message |
| CleanDates.ScanWindows | src/osta/clean_data.py:367-382 | the window loop computes the passing windows |
| CleanDates.GetFormatWoSep | src/osta/clean_data.py:343-422 | the loops compute the dayfirst/yearfirst inference |
| CleanDates.EmptyWindowsRaise | src/osta/clean_data.py:372 | a window of empty texts raises, as `int("")` does |
| CleanDates.EightCharWindows | src/osta/clean_data.py:363-400 | eight-character dates: a 4-character year searched at 0 and 4; day-month windows at 0 and 2 |
| CleanDates.YearWindowsOfEightDigits | src/osta/clean_data.py:367-382 | each year window is listed exactly when the maximum of its values lies in 1970..2049 |
| CleanDates.EightDigitsSearched | src/osta/clean_data.py:351-360 | eight-digit dates go straight to the search for the year |
| CleanDates.MonthWindowsAfterCut | src/osta/clean_data.py:400-407 | the month windows of the cut texts read the dates themselves, shifted |
| CleanDates.EmptyTextsRaise | src/osta/clean_data.py:403-405 | texts that are all empty make the day-month scan raise |
| CleanDates.CutBeforeYearAtStart | src/osta/clean_data.py:388 | as written, cutting a year found at the start keeps nothing (`str[:0]`) |
| CleanDates.CutWithoutYearAtStart | src/osta/clean_data.py:388 | keeping the text after the year instead keeps the last four digits |
| CleanDates.CutYearAtEnd | src/osta/clean_data.py:388 | a year at the end is cut alike by both versions, keeping the first four digits |
| CleanDates.YearFirstRaisesAsWritten | src/osta/clean_data.py:388-405 | as written, eight-digit dates with the year first raise |
| CleanDates.YearFirstRecognised | src/osta/clean_data.py:384-419 | with the text after the year kept, they are year first, and day first exactly when only the later window holds months |
| CleanDates.YearLastAgrees | src/osta/clean_data.py:384-419 | a year at the end is handled alike by both versions, and day first exactly when only the later window holds months |
| CompactDates.CutYear | src/osta/clean_data.py:441-450 | the year is the first `year_len` characters when the year comes first, else the last ones; the rest is what remains |
| CompactDates.SplitAt | src/osta/clean_data.py:458-468 | a split row gets a day and a month and an empty rest |
| CompactDates.SplitAtKeepsRest | src/osta/clean_data.py:458-463 | day and month, in `dayfirst` order, are the rest |
| CompactDates.OnlyThreeCharRests | src/osta/clean_data.py:477 | the corrected block tests nothing exactly when no three-character rest is left |
| CompactDates.SplitRows | src/osta/clean_data.py:454-468 | one pass in place splits exactly the rows whose rest has the pass's length |
| CompactDates.ConvertDatesWithoutSep | src/osta/clean_data.py:425-524 | filling the working table in place computes the specified conversion |
| CompactDates.FixedWidthSplit | src/osta/clean_data.py:454-468 | after the two passes a fixed-width date is fully split as the reference reads it |
| CompactDates.FixedWidthRaisesAsWritten | src/osta/clean_data.py:484-490 | as written, a column of fixed-width dates raises once every row is split |
| CompactDates.FixedWidthConverted | src/osta/clean_data.py:474-523 | corrected, each fixed-width date becomes `day/month/year` as the reference reads it |
| CompactDates.PassReads | src/osta/clean_data.py:454-468 | a pass keeps every row reading as its original |
| CompactDates.ConvertedKeepsCharacters | src/osta/clean_data.py:523 | every converted date is its own characters rearranged: day and month are the rest, the year is the cut part |
| CompactDates.ConvertAsWritten | src/osta/clean_data.py:425-524 | as written, a conversion keeps one entry per value, and each date it produces is that value's characters rearranged as `day/month/year` |
| CompactDates.Convert | src/osta/clean_data.py:425-524 | corrected, a conversion keeps one entry per value, and each date it produces is that value's characters rearranged as `day/month/year` |
| CompactDates.ConvertedRearranged | src/osta/clean_data.py:488-524 | every date the conversion loop produces is its value's rest cut into day and month, in the order `dayfirst` says, followed by the cut year |
| Linkage.NotDuplicatedAsWritten | src/osta/clean_data.py:1156-1162 | as written, the lookup returns no column at all |
| Linkage.NotDuplicatedIff | src/osta/clean_data.py:1156-1162 | corrected, a column is worked on exactly when it is requested and occurs once |
| Linkage.WarnsDuplicatedIff | src/osta/clean_data.py:1164-1169 | the lookup warns exactly when some requested name occurs more than once |
| Linkage.FlagGuard | src/osta/clean_data.py:89-97 | a non-boolean flag raises; a disabled step or one with no column returns the table unchanged |
| Linkage.DataGuard | src/osta/clean_data.py:527-561 | the reference table must be a non-empty data frame or `None`, and the flag a boolean |
| Linkage.CountryNeverProceedsAsWritten | src/osta/clean_data.py:94-97 | as written, the country step never gets past its guard |
| Linkage.DataStepsNeverProceedAsWritten | src/osta/clean_data.py:564-604 | as written, the organisation, account, service and supplier steps never get past their guards |
| Linkage.DateNeverProceedsAsWritten | src/osta/clean_data.py:227-240 | as written, the date step returns before its `dayfirst`/`yearfirst` checks |
| Linkage.DateGuardRejectsDefault | src/osta/clean_data.py:233-240 | with a `date` column found, the date guard raises for `dayfirst=None`, its own default; the corrected guard goes on |
| Linkage.OverwriteRows | src/osta/clean_data.py:833 | every row equal to the old row receives the new row, in place |
| Linkage.ReplaceOldValuesWithNew | src/osta/clean_data.py:815-834 | for each changed unique row in order, the rows equal to its old values are overwritten with its new values |
| Linkage.RowChanged | src/osta/clean_data.py:825 | a unique row counts as changed exactly when some cell differs once missing values read as "" |
| Linkage.RowMatches | src/osta/clean_data.py:833 | a row matches exactly when it equals the key row cell for cell |
| Linkage.ReplacedKeepsUnmatched | src/osta/clean_data.py:828-833 | a row equal to none of the changed unique rows is left as it was |
| Linkage.RowsWithMissingKept | src/osta/clean_data.py:833 | a row holding a missing value is never overwritten |
| Linkage.ReplacedFromNew | src/osta/clean_data.py:828-833 | every row ends either as it was or with the new values of a changed unique row |
| Linkage.ReplacedWithNew | src/osta/clean_data.py:828-833 | a row equal to changed unique row `i` receives its new values, unless a later overwrite applies to those |
| Linkage.ListEqIff | src/osta/clean_data.py:902 | list `==` compares element by element |
| Linkage.FirstHitIsFirst | src/osta/clean_data.py:866-877 | the reference row used is the first whose lower-cased text equals the value, and there is one exactly when some row matches |
| Linkage.FirstHitNoneIff | src/osta/clean_data.py:866-877 | no reference row is found exactly when no row from the start position on has the same lower-cased text |
| Linkage.FirstHitMissesBefore | src/osta/clean_data.py:866-877 | no row before the one found has the same lower-cased text |
| Linkage.HitsAt | src/osta/clean_data.py:859-870 | column `j` of `temp` holds the first reference row that column `j` of the row hits |
| Linkage.SearchStopsAtFirstHit | src/osta/clean_data.py:874-918 | the loop over the columns stops at the first column with a hit |
| Linkage.SearchFallsThrough | src/osta/clean_data.py:874-920 | without a hit in any column the loop falls through to the partial match |
| Linkage.ExactPrecedence | src/osta/clean_data.py:874-918 | the first column in order whose value occurs in the reference decides, through the first reference row holding it |
| Linkage.NoExactMatch | src/osta/clean_data.py:920-942 | when no value occurs in its reference column, the partial match on names decides |
| Linkage.ExactOrMismatch | src/osta/clean_data.py:882-915 | a hit no other column contradicts is taken; a mismatch names another column whose reference row disagrees |
| Linkage.FirstEqualIsFirst | src/osta/clean_data.py:932-935 | the name lookup finds the first reference row whose name equals the best name |
| Linkage.PartialMatchNeedsNames | src/osta/clean_data.py:920-935 | a partial match needs a "name" column and a non-empty reference table |
| Linkage.PartialMatchIsBest | src/osta/clean_data.py:926-935 | a partial match carries the first best-scoring name, whose score reaches the threshold |
| Linkage.NameOutcome | src/osta/clean_data.py:920-935 | a completed partial match finds nothing or names a reference row |
| Linkage.NotFoundByName | src/osta/clean_data.py:920-949 | the partial match finds nothing exactly when there is no "name" column or the best score, not negative, is under the threshold |
| Linkage.NameOutcomeRaises | src/osta/clean_data.py:920-935 | the partial match raises exactly when the reference table is empty, every score is negative (`extractOne` returns `None`), or the accepted best name is missing |
| Linkage.CollectErrStays | src/osta/clean_data.py:855-949 | once a row raises, the search raises with the same error whatever follows |
| Linkage.CollectOk | src/osta/clean_data.py:855-949 | a completed search has each row's own outcome, and no mismatch when mismatches raise |
| Linkage.CollectErrIff | src/osta/clean_data.py:855-949 | the search raises exactly when some row raises or, as written, some row is a mismatch |
| Linkage.MismatchRaisesAsWritten | src/osta/clean_data.py:904-912 | as written, a mismatched row makes the whole search raise |
| Linkage.MismatchReported | src/osta/clean_data.py:904-915 | built as intended, mismatches are reported and the mismatched row keeps its values |
| Linkage.SameWithoutMismatch | src/osta/clean_data.py:855-949 | without a mismatch the written and intended searches agree |
| Linkage.RowOutcome | src/osta/clean_data.py:877-932 | the reference row an outcome names exists, and the search fails only in the partial match on names, as that match fails |
| Linkage.MatchedRows | src/osta/clean_data.py:935-949 | one output row per row: a row found exactly or by name becomes its reference row, every other row is kept |
| Linkage.FindInDb | src/osta/clean_data.py:866-877 | the scan of the boolean mask finds the first matching reference row |
| Linkage.FindEqual | src/osta/clean_data.py:932-935 | the scan finds the first reference row with the name |
| Linkage.MatchRow | src/osta/clean_data.py:857-942 | the nested loops for one row compute its outcome |
| Linkage.CheckOthers | src/osta/clean_data.py:882-915 | the loop over the other hit columns computes the exact-or-mismatch outcome |
| Linkage.PartialMatch | src/osta/clean_data.py:920-942 | the partial-match code computes the name outcome |
| Linkage.SearchRows | src/osta/clean_data.py:855-949 | the row loop computes the collected outcomes |
| Linkage.WriteMatches | src/osta/clean_data.py:935-945 | the writes into `df_mod` compute the written rows |
| Linkage.GetMatchesFromDb | src/osta/clean_data.py:837-977 | the search then the writes compute the specified matching |
| Subsets.KeptIff | src/osta/clean_data.py:764 | `drop_duplicates` keeps a row exactly when its key does not occur earlier |
| Subsets.KeptIncreasing | src/osta/clean_data.py:764 | the kept rows stay in table order |
| Subsets.KeptCovers | src/osta/clean_data.py:764 | every key is represented by its first occurrence |
| Subsets.KeptDistinct | src/osta/clean_data.py:764 | no two kept rows share a key |
| Subsets.Present | src/osta/clean_data.py:760 | the columns kept are the requested ones that exist |
| Subsets.DupFlagIff | src/osta/clean_data.py:776-777 | a value is flagged duplicated exactly when it is present and another position holds an equal value |
| Subsets.FirstPresent | src/osta/clean_data.py:770-794 | the first candidate column that is selected, when there is one |
| Subsets.CheckOrgDataLabels | src/osta/clean_data.py:760-766 | the flagged rows are those whose selection differs from every earlier row's, in table order |
| Subsets.EmptyCellFlagged | src/osta/clean_data.py:766 | a missing selected cell always raises the flag |
| Subsets.OrgFlagsIff | src/osta/clean_data.py:766-802 | a row is flagged exactly for a missing cell, an ID failing the checksum, or an ID, name or number another row shares |
| Subsets.ColumnShared | src/osta/clean_data.py:768-802 | the ID, name and number columns are read from the first selected candidate |
| Subsets.Occurring | src/osta/clean_data.py:1114 | the requested years kept are those occurring in the year column |
| Subsets.Window | src/osta/clean_data.py:1117-1119 | the window keeps exactly the rows whose year lies between the bounds |
| Subsets.DropDuplicated | src/osta/clean_data.py:1144 | `drop_duplicates(subset=["number", "name"])` succeeds exactly when both columns exist, and keeps only rows of the table |
| Subsets.DropDuplicatedKeepsFirst | src/osta/clean_data.py:1144 | every row kept is a row of the table, no two kept rows share a (number, name) key, and every key of the table keeps a row |
| Subsets.DropDuplicatedFirstInOrder | src/osta/clean_data.py:1144 | the rows kept are, in their original order, exactly those whose (number, name) key no earlier row has |
| Subsets.SubsetErrIff | src/osta/clean_data.py:1112-1144 | the subset fails exactly when the year column is missing, no requested year occurs, the years cannot be ordered, or number/name is missing |
| Subsets.SubsetByYear | src/osta/clean_data.py:1112-1145 | a subset keeps the table's width and holds only rows of the table; without a year it fails exactly when number or name is missing; with a year and no year column it raises `KeyError` |
| Subsets.WindowDeduplicatedSpec | src/osta/clean_data.py:1117-1144 | the window keeps only rows inside it, and one for every (number, name) key inside it |
| Subsets.SubsetKeepsWindow | src/osta/clean_data.py:1112-1145 | a subset holds only rows between the smallest and largest requested year, and one per key among them |
| Enrich.PairsIff | src/osta/enrich_data.py:224-225 | a position pairs exactly when both its invoice column and its reference column exist |
| Enrich.AlignIff | src/osta/enrich_data.py:224-232 | the intended pairing holds exactly the keys at one position whose columns both exist |
| Enrich.AgreeWhenFewerRefs | src/osta/enrich_data.py:227-229 | with every invoice key found and fewer reference keys, the written branch pairs as intended |
| Enrich.AgreeWhenAllRefs | src/osta/enrich_data.py:230-232 | with both key lists found in full, the written branch pairs as intended |
| Enrich.AlignAgreesOnFoundColumns | src/osta/enrich_data.py:224-232 | with every invoice key column present and distinct key lists, the written pairing equals the intended one |
| Enrich.AlignAsWrittenMispairs | src/osta/enrich_data.py:227-229 | as written, `org_name` is paired with `number` when the table has no `org_id` |
| Enrich.AlignPairsNumbers | src/osta/enrich_data.py:224-232 | intended, those tables pair `org_number` with `number` |
| Enrich.AlignAsWrittenRaises | src/osta/enrich_data.py:227-229 | as written, a reference table with only `name` indexes past the filtered list and raises |
| Enrich.AlignPairsNames | src/osta/enrich_data.py:224-232 | intended, those tables pair `org_name` with `name` |
| Enrich.StepPairsAsIntended | src/osta/enrich_data.py:78-207 | inside the four steps, when the lookup returns the keys in step order, the written pairing equals the intended one |
| Enrich.ToNumeric | src/osta/enrich_data.py:261-264 | `to_numeric` keeps missing values missing and gives every present value the number its digits spell |
| Enrich.MatchesOfIff | src/osta/enrich_data.py:272-273 | a right row matches a left key exactly when it holds that key |
| Enrich.JoinRowUnique | src/osta/enrich_data.py:272-273 | with distinct right keys a left row yields exactly one output row, with what it picks up |
| Enrich.LeftJoinKeepsEveryRow | src/osta/enrich_data.py:272-273 | a left join has at least as many rows as the left table, whatever the keys |
| Enrich.LeftJoinKeepsRows | src/osta/enrich_data.py:272-273 | with distinct right keys the left join keeps the rows, their number and order |
| Enrich.UnmatchedIff | src/osta/enrich_data.py:244 | the columns added are exactly the reference columns other than the matched keys |
| Enrich.PlanNoneIff | src/osta/enrich_data.py:234-249 | the table is left alone exactly when no key pair aligns or nothing is left to add |
| Enrich.ReachableFirst | src/osta/enrich_data.py:252 | after de-duplication on the key the keys are distinct and a key reaches the first reference row holding it |
| Enrich.DataFromDbKeepsRows | src/osta/enrich_data.py:244-276 | the corrected join (keys converted before de-duplication) keeps the rows, their number and order; each gains the added cells of the first reference row with its converted key, or missing values |
| Enrich.DataFromDb | src/osta/enrich_data.py:234-276 | the corrected join returns the table itself without a plan, else the table's labels followed by the prefixed added labels; it keeps the number of rows and the table's labels first |
| Enrich.AlignAsWritten | src/osta/enrich_data.py:224-232 | the pairing as written fails only with `IndexError`; when it succeeds the two key lists have one length and each pair joins an existing table column with an existing reference column |
| Enrich.PlanAsWritten | src/osta/enrich_data.py:224-249 | the plan as written fails exactly when the as-written pairing raises; a plan it finds fits both tables; where the as-written pairing equals the intended one it is the intended plan |
| Enrich.DataFromDbAsWritten | src/osta/enrich_data.py:224-276 | the join as written raises `IndexError` exactly when the as-written pairing does; it returns the table itself without a plan, else the table's labels followed by the prefixed added labels (its rows: `Enrich.DataFromDbAsWrittenRows`) |
| Enrich.DataFromDbAsWrittenRaises | src/osta/enrich_data.py:224-232 | as written, a table with `org_number` and `org_name` but no `org_id`, joined with a reference table holding only `name`, raises `IndexError` |
| Enrich.LeftJoinRows | src/osta/enrich_data.py:272-273 | the right rows holding a left row's key are exactly its matches; without one the left row comes out once with missing values; each left row takes one output row per match (at least one), right after those of the earlier left rows |
| Enrich.LeftJoinMatchAt | src/osta/enrich_data.py:272-273 | the t-th output row of a left row pairs it with the t-th right row holding its key, in right order |
| Enrich.KeptRowsIff | src/osta/enrich_data.py:252 | a reference row survives `drop_duplicates` exactly when no earlier row has its raw key |
| Enrich.DataFromDbAsWrittenRows | src/osta/enrich_data.py:244-276 | the join as written, given an as-written plan, succeeds: the labels are the table's followed by the prefixed added ones; table row i's matches are exactly the kept reference rows whose converted key equals its own; without one it comes out once followed by missing values; it takes one output row per match (at least one), right after those of the earlier table rows |
| Enrich.DataFromDbAsWrittenMatched | src/osta/enrich_data.py:244-276 | the join as written, given an as-written plan, succeeds: the t-th output row of table row i is that row followed by the added cells of its t-th matching kept reference row, in reference order |
| Enrich.DataFromDbUnchanged | src/osta/enrich_data.py:234-249 | the table comes back unchanged when no pair aligns or nothing is left to add |
| Enrich.DataFromDbAsWrittenDuplicatesRows | src/osta/enrich_data.py:224-273 | as written, the join succeeds, reference keys "07" and "7" both survive de-duplication and the one invoice row with key 7 comes out twice |
| Enrich.DataFromDbKeepsOneInvoice | src/osta/enrich_data.py:252-273 | converting the keys first, the same tables give the one invoice row back once |
| Enrich.WithTemporaryKeepsTable | src/osta/enrich_data.py:269 | the extra column keeps the caller's table well formed and every earlier cell |
| Enrich.WithTemporaryHoldsKeys | src/osta/enrich_data.py:269 | when a join happens the extra column is `temporary_X` and holds the compared keys |
| Enrich.AddDataFromDb | src/osta/enrich_data.py:216-276 | the caller's table gains `temporary_X` in place and the corrected join is returned |
| Enrich.OrgStep | src/osta/enrich_data.py:49-86 | a join uses the given table or the packaged one, on the key columns found |
| Enrich.AccountStep | src/osta/enrich_data.py:89-135 | a join uses the given account table, on the key columns found |
| Enrich.ServiceStep | src/osta/enrich_data.py:138-178 | a join uses the given service table, on the key columns found |
| Enrich.SupplStep | src/osta/enrich_data.py:181-213 | a join uses the given supplier table, on the key columns found |
| Enrich.RunStep | src/osta/enrich_data.py:56-86 | a step fails exactly when it raises, with its message; a kept step returns the table; a join keeps the number of rows and the table's labels first |
| Enrich.OrgStepOutcome | src/osta/enrich_data.py:56-68 | raises exactly on a bad data argument or flag; keeps the table when disabled or no key column is found |
| Enrich.AccountStepRaises | src/osta/enrich_data.py:97-119 | raises on a bad argument, and also whenever it would load its packaged table (the year helper is not defined) |
| Enrich.ServiceStepRaises | src/osta/enrich_data.py:145-167 | as the account step, reporting a bad data argument as `org_data` |
| Enrich.SupplStepOutcome | src/osta/enrich_data.py:188-202 | raises only on a bad argument; without a supplier table keeps the table |
| OstanClean.Positions | src/ostan/clean_data.py:47-49 | the selected positions are accepted ones and strictly increase, so a selection keeps the input order |
| OstanClean.PositionsIff | src/ostan/clean_data.py:47-49 | a position is selected exactly when it is accepted |
| OstanClean.CleanRejects | src/ostan/clean_data.py:39-44 | both versions refuse exactly what is not a table with a row and a column |
| OstanClean.CleanAsWritten | src/ostan/clean_data.py:39-73 | as written: rejects exactly what is not a table with a row and a column, reports whether an empty line was found, returns the table itself when none was, and lists only names of the result |
| OstanClean.Clean | src/ostan/clean_data.py:39-73 | intended: rejects exactly what is not a table with a row and a column, reports whether an empty line was found, returns the table itself when none was, and lists only names of the result |
| OstanClean.CleanLeavesNoEmptyLine | src/ostan/clean_data.py:45-49 | intended, the cleaned table has no empty row and no empty column |
| OstanClean.DistinctIff | src/ostan/clean_data.py:56 | the duplicate check fires exactly when some name occurs more than once |
| OstanClean.DuplicateReportLists | src/ostan/clean_data.py:56-60 | the warning lists exactly the names occurring more than once |
| OstanClean.DropNaColumnsAfterRows | src/ostan/clean_data.py:47-49 | as written, the second `dropna` removes nothing |
| OstanClean.CleanAsWrittenKeepsCompleteRows | src/ostan/clean_data.py:47-49 | as written, once an empty line exists the columns stay and exactly the rows without a missing value are kept |
| OstanClean.EmptyColumnEmptiesTable | src/ostan/clean_data.py:47-49 | as written, one entirely empty column removes every row |
| OstanClean.RowsKeptIff | src/ostan/clean_data.py:47-48 | intended, a row is kept exactly when it holds a value |
| OstanClean.ColumnsKeptIff | src/ostan/clean_data.py:47-49 | intended, a column is kept exactly when it holds a value |
| OstanClean.CleanKeepsEveryValue | src/ostan/clean_data.py:47-49 | intended, every present value survives the cleaning |
| OstanClean.HalfEmptyLosesRows | src/ostan/clean_data.py:47-49 | as written, a one-row table with one empty column loses its row |
| OstanClean.HalfEmptyKeepsRow | src/ostan/clean_data.py:47-48 | intended, its one row is kept |
| OstanClean.HalfEmptyKeepsSupplier | src/ostan/clean_data.py:47-49 | intended, its filled column is kept and its empty one dropped |
| OstanClean.SplitOnPieces | src/ostan/clean_data.py:158 | splitting gives one more piece than separators, and the pieces hold the other characters in order |
| OstanClean.MaxParts | src/ostan/clean_data.py:158 | the number of split columns is the largest piece count |
| OstanClean.Complete | src/ostan/clean_data.py:162 | `dropna` keeps the rows that split into that many pieces |
| OstanClean.GetDateFormat | src/ostan/clean_data.py:149-207 | converting and labelling the columns in loops computes the specified flags |
| OstanClean.NoSeparatorKeepsFlags | src/ostan/clean_data.py:158-206 | dates without a separator leave the flags as given |
| OstanClean.OldFlagsLayout | src/ostan/clean_data.py:196-205 | year first when the year is at 0; day first when the day is at 1 behind a leading year, or at 2 otherwise |
| OstanClean.OldFlagsAgreeIff | src/ostan/clean_data.py:196-205 | this revision agrees with the newer one exactly when not all three parts occur, the year is first, or the day is at neither 0 nor 2 |
| OstanClean.DayMonthYearMisread | src/ostan/clean_data.py:200-205 | day-month-year dates are reported as not day first |
| OstanClean.DayMonthYearRecognised | src/osta/clean_data.py:334-337 | the newer revision reads day-month-year dates as day first |
| AccountInfo.ColumnIndex | data/get_account_info.py:12-35 | a column write goes to the first column of that name, or to a new last one exactly when there is none |
| AccountInfo.WithNewColumn | data/get_account_info.py:12 | a new column goes last and every row gains its cell |
| AccountInfo.Assigned | data/get_account_info.py:12 | `assign(name=None)` keeps the rows and gives the table that column |
| AccountInfo.FFill | data/get_account_info.py:15-16 | forward filling keeps the length and every present cell, and a missing cell takes the filled value of the cell above it (the first cell stays as it is) |
| AccountInfo.FFillLastValue | data/get_account_info.py:15-16 | a forward-filled cell is the last value at or above it, missing when there is none |
| AccountInfo.LastValue | data/get_account_info.py:15-16 | the last position at or above a row holding a value, and none exactly when all above are missing |
| AccountInfo.Kept | data/get_account_info.py:17-18 | the surviving positions have their flag clear and strictly increase, so `drop` keeps the row order |
| AccountInfo.KeptIff | data/get_account_info.py:17 | a row survives exactly when its flag is clear |
| AccountInfo.FilledRow | data/get_account_info.py:14-18 | surviving row u is the u-th unflagged input row (positions from `Kept`, increasing); its category is the first cell of the last seed row above it; its other cells are unchanged |
| AccountInfo.SecondCat1DropsHeaders | data/get_account_info.py:10-19 | `add_second_cat1` fails exactly on a missing account column, and no header row survives it |
| AccountInfo.AddSecondCat1 | data/get_account_info.py:10-19 | `add_second_cat1` raises `KeyError` exactly when the account column is missing (and is not `account_cat2` itself); a result has the `account_cat2` column |
| AccountInfo.AddThirdCat | data/get_account_info.py:45-61 | `add_third_cat` raises `KeyError` exactly when the account column is missing (and is not `account_cat3` itself); a result has the `account_cat3` column |
| AccountInfo.ThirdCatDropsRanges | data/get_account_info.py:45-61 | no surviving row's account cell holds a range |
| AccountInfo.AddThirdCat2 | data/get_account_info.py:64-74 | `add_third_cat2` never fails: the account column is not consulted |
| AccountInfo.ThirdCat2DropsUpper | data/get_account_info.py:64-74 | no surviving row starts with upper-case text |
| AccountInfo.Mentions | data/get_account_info.py:27-31 | the listed rows mention the word in their first cell, ignoring case, and strictly increase |
| AccountInfo.MentionsIff | data/get_account_info.py:27-31 | a row is listed exactly when its first cell's lower-cased text contains the word |
| AccountInfo.MentionBounds | data/get_account_info.py:28-33 | `first_valid_index` and `last_valid_index`: the first mention is at or before, and the last at or after, every mentioning row, and both mention the word |
| AccountInfo.LastValueOfTwo | data/get_account_info.py:38-39 | with values only at two rows, the category at a row is the later of them at or above it |
| AccountInfo.NotNan | data/get_account_info.py:27-28 | a mentioning row's first cell is present, as "nan" holds neither word |
| AccountInfo.SecondCat2Category | data/get_account_info.py:22-42 | surviving row u is the u-th input row other than the four mention rows (positions from `Kept`, increasing), followed by the first cell of the later heading at or above it |
| AccountInfo.AddSecondCat2 | data/get_account_info.py:22-42 | `add_second_cat2` fails exactly on a table without columns or without a row mentioning each word; a result has the `account_cat2` column |
| AccountInfo.DropEmptyColumnsKeeps | data/get_account_info.py:140 | a column is kept exactly when some row holds a value there, and no label is invented |
| AccountInfo.UnnamedIff | data/get_account_info.py:141 | the positions listed are exactly those of unnamed columns |
| AccountInfo.MaxOf | data/get_account_info.py:141 | `max` of a non-empty list is an element at least as large as every element |
| AccountInfo.JoinNameFails | data/get_account_info.py:141 | the step fails exactly when no column is unnamed |
| AccountInfo.JoinNameLayout | data/get_account_info.py:141-145 | the result is the columns after the last unnamed one followed by `account_name`, the join of the cells up to that column |
| AccountInfo.JoinNameAllNamed | data/get_account_info.py:144 | every column kept has a name |
| AccountInfo.AddAccountName | data/get_account_info.py:138-146 | the result is a well-formed table |
| TaseCats.Bounds | data/get_account_info.py:92-95 | a result holds one pair of bounds per range row |
| TaseCats.SplitOnAround | data/get_account_info.py:92 | splitting `x` + dash + `y`, neither piece holding a dash, gives `x` and `y` |
| TaseCats.BoundsReadRange | data/get_account_info.py:92-95 | a range cell `x`, dash (hyphen or figure dash), `y`, neither piece holding a dash, yields the integers `int(x)` and `int(y)` whenever the conversion succeeds |
| TaseCats.BoundsOfRanges | data/get_account_info.py:92-95 | when every cell is such a range whose pieces read as integers, the conversion succeeds and gives those integers, row by row |
| TaseCats.BoundsReadCanonical | data/get_account_info.py:92-95 | in particular "a-b" yields the bounds a and b |
| TaseCats.TruncatedIntegral | data/get_account_info.py:98 | truncating a float with no fraction gives its integral value |
| TaseCats.Numbers | data/get_account_info.py:97-98 | the account numbers convert all or nothing, each to its own value |
| TaseCats.RemainingIff | data/get_account_info.py:89-97 | a row is numbered exactly when its account cell is present and holds no range |
| TaseCats.Prepare | data/get_account_info.py:83-99 | a prepared table keeps the labels and its accounts match its rows |
| TaseCats.PrepareWith | data/get_account_info.py:92-99 | the rows numbered are the non-header rows with an account |
| TaseCats.NoRangeFails | data/get_account_info.py:85-87 | without a range header the step fails at `max()` of an empty list |
| TaseCats.FirstFree | data/get_account_info.py:108-126 | the smallest level from the start free on all covered accounts, or the level count when none is |
| TaseCats.PlaceAtFirstFree | data/get_account_info.py:108-126 | the placement writes at the smallest free level, or on a new empty level when none is free |
| TaseCats.PlaceKeeps | data/get_account_info.py:106-126 | placing a range adds at most one level, overwrites no filled cell and writes its name on exactly the covered accounts |
| TaseCats.PlacedKeeps | data/get_account_info.py:101-126 | a filled cell keeps its name through all later ranges, and levels are never removed |
| TaseCats.PlacedNamesCovered | data/get_account_info.py:101-126 | every covered account carries the range's name at some level |
| TaseCats.PlaceAll | data/get_account_info.py:101-126 | the `for` and `while` loops compute the specified levels, and the `while` loop ends |
| TaseCats.InnerJoinKeepsEveryRow | data/get_account_info.py:134 | merging on the same keys loses no row |
| TaseCats.InnerJoinDistinct | data/get_account_info.py:134 | with distinct keys the merge pairs row i with row i |
| TaseCats.MergeDistinct | data/get_account_info.py:132-134 | with distinct account numbers the merge keeps every row once, in order, followed by its level cells |
| TaseCats.MergeKeepsEveryRow | data/get_account_info.py:132-134 | the merge never loses a row |
| TaseCats.AddTaseCats | data/get_account_info.py:77-135 | the step computes the specified table; its order check never raises |
| TaseCats.TaseCats | data/get_account_info.py:77-135 | the step fails exactly when the preparation fails (always for a missing account column); a result keeps the labels first and at least every numbered row |

## Left out

- The top-level pipelines `clean_data` (src/osta/clean_data.py:13-78) and `enrich_data` (src/osta/enrich_data.py:9-46): they cannot run as written, so the helpers are modelled one by one. enrich_data.py is truncated at line 279.
- The fetching, combining and download scripts, and `get_accounts`/`adjust_columns` and the module-level code of data/get_account_info.py (lines 149-314): file, Excel and network I/O.
- Warnings: they are not modelled, except where a report is the point (the duplicate-name report, the mismatch report).
- ChangeNames.ChangeColumnNames: writes the final names once, whereas the source assigns `df.columns` before and after the suffix loop; the end state is the same because the suffix loop cannot fail.
- The float money checks `__clean_sums` and `__test_if_sums`: float arithmetic. The latter is a function parameter of the name cascade.
- Date parsing by `pd.to_datetime` and `strftime`: library behaviour.
- ChangeNames.GuessName: `utils.__test_if_date` (src/osta/change_names.py:303) and `utils.__test_if_voucher` (line 390) are not defined in src/osta/__utils.py, which defines only `__is_non_empty_df`, `__is_percentage`, `__are_valid_bids` and `__are_valid_vat_numbers`. As written, `__guess_name` therefore raises `AttributeError` whenever the strict match keeps the name and the Business-ID test fails, and so does `change_names` with `guess_names=True` on such a column. The model takes the two tests as parameters (`Env.testIfDate`, `Env.testIfVoucher`) and describes the cascade as it runs once they exist.
- Enrich.AddOrgData, Enrich.AddAccountData, Enrich.AddServiceData, Enrich.AddSupplData: `utils.__not_duplicated_columns_found` (src/osta/enrich_data.py:66, 107, 155, 198) is not defined in src/osta/__utils.py either. As written, every enrich step raises `AttributeError` once its argument checks pass, before its `disable` flag is read. The model takes that column lookup as a parameter (`Enrich.ColumnList`) and describes the steps as they run once it exists.
- Enrich.AddDataFromDb, Enrich.RunStep: they return the corrected join `Enrich.DataFromDb`, which converts the keys before de-duplicating the reference table. As written, src/osta/enrich_data.py:252 de-duplicates on the raw key first and converts afterwards (lines 261-267), so reference keys such as "07" and "7" both survive and an invoice row can come out several times. That behaviour is `Enrich.DataFromDbAsWritten`, stated row by row by `Enrich.DataFromDbAsWrittenRows` and shown by `Enrich.DataFromDbAsWrittenDuplicatesRows`. Likewise `temporary_X` takes its conversion from the whole reference key column, not from the de-duplicated one. The two also differ in how keys are paired: `Enrich.AddDataFromDb` pairs them by `Enrich.Align`. As written, lines 227-232 pair them as `Enrich.AlignAsWritten` does, which mispairs or raises when the function is called directly. `Enrich.DataFromDbAsWritten` takes its plan from that pairing (`Enrich.PlanAsWritten`) and returns its `IndexError` (`Enrich.DataFromDbAsWrittenRaises`). Inside the four steps the two pairings agree (`Enrich.StepPairsAsIntended`).
- ChangeNames.PairsOf: a dictionary frame whose value column holds a number or a missing value is refused, whereas `to_dict` and `k.lower()` (src/osta/change_names.py:246-259) only need the keys to be text. Standard names are text, so only such malformed dictionaries differ.
- The fuzzy scorer of `process.extractOne`: a function parameter returning an integer score.
- Linkage.NameOutcome: the query is the name cell's own text, whereas src/osta/clean_data.py:921-926 passes `row[df.columns == ...]`, a one-element Series, which the fuzzy scorer's default processor may refuse. The model also takes only the first reference row with the best name, whereas line 945 writes the whole selection `row_db` into row i, which fails when several reference rows share that name.
- The packaged CSV tables: parameters.
- Python `re.IGNORECASE` outside ASCII (for example 'ſ' or the Kelvin sign) and Unicode `\d`: only ASCII letters and digits are folded and matched.
- `str.isdigit`/`isnumeric` beyond ASCII digits, and Python's case mapping beyond Latin-1.
- Duplicated column labels: a label reads its first column.
- pandas dtype upcasts beyond integer-to-float on a missing value, and numbers too large for int64.
- The `np.unique` order of the duplicate report: it is modelled as a set.
- The `print` of `duplicated_disable` in the older `clean_data`.
- Float account numbers in exponent form, `inf` and int64 overflow: `TaseCats.TruncatedFloat` reads only `[-]digits.digits`.
- Conversion of numpy text to integers: modelled as Python `int()`.
- Column-name clashes in pandas merges (the `_x`/`_y` suffixes, `cat_` levels clashing with existing columns): not modelled.
- Row labels: the balance-sheet transforms assume the default `RangeIndex`, so row labels are positions.
- AccountInfo.AddSecondCat2: when no row mentions "vastaavaa" or "vastattavaa", pandas raises while indexing with `None`. The model returns one error naming the cause instead of pandas' message.
- AccountInfo.AddThirdCat2: the `AttributeError` that `.str` raises on a first column holding no text is not modelled; non-text cells are simply not headers.
- TaseCats.Bounds: when a cell both fails to convert and splits into other than two pieces, pandas' first error is not modelled; one error per cause.
- TaseCats.PrepareWith: the `KeyError` for a missing `account_name` is checked before the placement loop. Observably this is the same, since the loop writes nothing visible.
- TaseCats.Merge: for duplicate account numbers the merge keeps left-row order, while pandas' exact order of the extra rows is not modelled.
- Linkage.GetMatchesFromDb: the search is modelled as a pass over the rows followed by the writes into `df_mod`. On a raise nothing is returned, so this is observably the same.
- The `__subset_data_based_on_year` date branch (src/osta/clean_data.py:1127-1142): it never runs, because the column lookup always returns `[]`.
- The older revision's date flags: its `dayfirst` and `yearfirst` arguments are modelled as booleans (their defaults).

## Findings

| source | as written | input that shows it | evidently intended | confidence | as-written member | corrected member |
|---|---|---|---|---|---|---|
| src/osta/clean_data.py:1162 | `set(duplicated).difference(cols_to_check)`: the duplicated names are among the found ones, so the result is always empty and every `__standardize_*` step returns its input | any table, e.g. a single `country` column | the found names that are not duplicated | high (not executed) | Linkage.NotDuplicatedAsWritten | Linkage.NotDuplicatedIff |
| src/osta/__utils.py:146-148 | no comma after the Czech pattern: it joins the Hungarian one into `...$^HU...`, which never matches | "CZ123456789", "HU123456789" | Czech and Hungarian VAT numbers accepted | high (not executed) | Utils.CzechAndHungarianAlwaysRejected | Utils.HungaryIntended |
| src/osta/enrich_data.py:227-232 | the filtered key list is indexed by positions in the unfiltered list | table with `org_number` and `org_name` but no `org_id`, reference with only `number` | pair the keys at the same position | medium (not executed; latent inside the four steps, see `Enrich.StepPairsAsIntended`) | Enrich.AlignAsWrittenMispairs | Enrich.AlignPairsNumbers |
| src/osta/clean_data.py:388 | `str[:i_year]` keeps the text before the year: with the year first it keeps nothing and `int("")` raises | eight-digit dates "20230102" | keep the text before and after the year | high (not executed) | CleanDates.YearFirstRaisesAsWritten | CleanDates.YearFirstRecognised |
| src/osta/clean_data.py:486-490 | the three-character test runs over all rows; once all are split the maximum is "" and `int("")` raises | eight-digit dates "02012023" | test only the three-character rests, and only when there are some | high (not executed) | CompactDates.FixedWidthRaisesAsWritten | CompactDates.FixedWidthConverted |
| src/osta/clean_data.py:904-912 | the mismatch report is built from 2n values and n index labels, so it raises | a row whose bid and name hit reference rows that disagree | report the mismatch | high (not executed) | Linkage.MismatchRaisesAsWritten | Linkage.MismatchReported |
| src/osta/clean_data.py:233-240 | `not isinstance(dayfirst, bool) or dayfirst is None` refuses `None`, the default | `date` column, `dayfirst=None` | accept booleans and `None` | high (not executed) | Linkage.DateGuardRejectsDefault | Linkage.DateGuard |
| src/osta/enrich_data.py:252-264 | de-duplication on the raw key before `to_numeric`: "07" and "7" both survive and match key 7 | reference keys "07" and "7", invoice key "7" | one output row per invoice row | medium (not executed) | Enrich.DataFromDbAsWrittenDuplicatesRows | Enrich.DataFromDbKeepsOneInvoice |
| src/ostan/clean_data.py:47-49 | `dropna(axis=0)` removes every row with any missing value, so the following `dropna(axis=1)` has nothing to remove and no column goes | one row, a filled `supplier` and an empty `note` column | drop only the empty rows and columns | high (not executed) | OstanClean.HalfEmptyLosesRows | OstanClean.HalfEmptyKeepsRow |
| src/ostan/clean_data.py:200-202 | with the year last, the day must be at position 2 to be first | "31.12.2022" | day first when the day is at position 0 | medium (not executed; the newer revision uses 0) | OstanClean.DayMonthYearMisread | OstanClean.DayMonthYearRecognised |
