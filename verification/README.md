# Census occupation dashboard: the data-shaping core

The dashboard reads one census table per province or territory (13 files).
Each row of a table has:

- an occupation label, such as `"31301 Registered nurses"` or the all-occupations row `"Total"`;
- three count cells as text with thousands separators: total, men and women.

From those tables it builds four derived tables:

1. **Essential services.** One row per province. Each of three services (nurses, police, firefighters) gets the summed total of the rows whose label contains one of its occupation codes, divided by the first row's total (the population).
2. **Gender by category.** One row per province and broad occupation category (a digit 0 to 9) that some label starts with as `"<digit> "`. The row holds the men's and women's shares of the category total, and that total.
3. **Engineers.** One row per province. It holds the counts of computer, mechanical and electrical engineers (label contains the code), their total, the total per head of population, the display name and the map coordinates.
4. **Occupation percentages.** Nine rows per province, for categories 1 to 9. Each holds the share, in percent, of the province's summed totals carried by the rows whose label's first character is the category digit.

The model covers:

- count-cell cleaning;
- the three label tests;
- the constant lookup tables;
- the four table builders, each as a specification function plus a method with the source's loop;
- the start-up sequence that builds all four.

Files are handed in as a map from file name to rows, so reading the CSV files is not part of the model. Numbers are exact: counts are `nat` and ratios are `real`.

Modules:

- `Counts`: cell cleaning and number rendering.
- `Labels`: the label tests.
- `Lookup`: the constant tables.
- `Frames`: rows, column cleaning, sums and the per-province loop.
- `Ratios`: the three kinds of division.
- `Essential`, `Gender`, `Engineers`, `Occupations`: the four tables.
- `Pipeline`: start-up.

Two behaviours of the code worth stating:

- **Essential services.** Task 1 divides by the population without a guard, so a zero population gives a non-finite value rather than an error. It is modelled as `Quotient.NonFinite`, and nothing requires the population to be positive.
- **Occupation percentages.** The nine percentages are not always below 100. They are at most 100, and strictly below 100 once some row with a positive total starts with no digit 1 to 9. The denominator sums every row, the all-occupations row included, so on real census files the sum is well below 100.

## Model

| member | source | states |
|---|---|---|
| Counts.StripCommas | project.py:119 | removing the separators leaves no comma and never lengthens the cell |
| Counts.StripCommasConcat | project.py:119 | separator removal works piece by piece: cleaning a concatenation concatenates the cleaned pieces |
| Counts.StripCommasKeepsOthers | project.py:119 | every character other than the comma keeps its number of occurrences, so only commas are removed |
| Counts.StripCommasChar | project.py:119 | a single comma disappears and any other single character is kept |
| Counts.StripCommasNoComma | project.py:119 | a cell without commas is left unchanged |
| Counts.CleanCountDefinedIff | project.py:119 | a count cell can be read exactly when it consists of digits and commas and holds at least one digit |
| Counts.DigitsValueConcat | project.py:119 | the value of a digit string is the value of its head shifted by the tail's length plus the value of its tail |
| Counts.ParseNatRoundTrip | project.py:119 | parsing the decimal rendering of a count gives the count back |
| Counts.Pad3Value | project.py:119 | a three-digit, zero-padded group between separators carries its own value |
| Counts.GroupedStripped | project.py:119 | a count written with thousands separators becomes its plain decimal digits once the separators are removed |
| Counts.GroupedRoundTrip | project.py:119 | cleaning a count written with thousands separators gives the count back |
| Counts.CleanCountExamples | project.py:119 | "1,234,567" reads as 1234567 and "42" as 42 |
| Counts.CleanCountRejects | project.py:119 | a cell with a letter, such as "1,2x4", and a cell holding only a comma cannot be read |
| Labels.PrefixImpliesFirstChar | project.py:167 | a label that passes the category test for a digit also passes the first-character test for that digit (also lines 227-232) |
| Labels.FirstCharDeterminesCode | project.py:227-232 | the first-character test puts a label under at most one category |
| Labels.FirstCharNeedsDigit | project.py:227-232 | an empty label, or one that starts with anything but a digit 1 to 9, falls in none of the categories 1 to 9 |
| Labels.CategoryPrefixDeterminesCode | project.py:167 | the category test puts a label under at most one of the categories 0 to 9 |
| Labels.PrefixTestsDisagree | project.py:167 | a five-digit unit-group label passes the first-character test of its leading digit but fails the category test, while "1 Business/Finance" passes the category test (also line 227) |
| Labels.NatToDigitsInjective | project.py:167 | different codes have different decimal renderings, so a rendered code names one code (also line 232) |
| Labels.UnitLabelMatchesOwnCode | project.py:125 | a code of a unit-group label's code length is contained in that label exactly when it is the label's own code (also line 194) |
| Labels.NoDigitNoCode | project.py:125 | a label without digits, such as "Total", contains no code (also line 194) |
| Labels.UnitLabelMatchesGroup | project.py:125 | a unit-group label passes a service's or an engineer type's code test exactly when its own code is among the group's codes (also line 194) |
| Labels.NoDigitMatchesNoGroup | project.py:125 | a label without digits passes no group's code test (also line 194) |
| Lookup.ProvinceFilesDistinct | project.py:8-22 | the file table lists 13 provinces and territories, with distinct names and distinct file names |
| Lookup.ProvinceAbbrevInjective | project.py:8-22 | every province of the file table has an abbreviation, and no two share one (also lines 40-54) |
| Lookup.ProvinceOrderIsPermutation | project.py:40-54 | the slider order lists each of the 13 abbreviations exactly once (also lines 97-100) |
| Lookup.AbbrevsInOrder | project.py:40-54 | every abbreviation appears in the slider order (also lines 97-100) |
| Lookup.OrderHasAbbrevs | project.py:40-54 | every entry of the slider order is some province's abbreviation (also lines 97-100) |
| Lookup.AbbrevsHaveCoordsAndNames | project.py:24-54 | the abbreviations, the keys of the display-name table and the keys of the coordinate table are the same 13 codes (also lines 81-95) |
| Lookup.AbbrevToNameInverts | project.py:24-54 | the display name of a province's abbreviation is the province itself, except that Yukon is displayed as "Yukon Territory" |
| Lookup.SliderIndicesInRange | project.py:301 | every slider position from 0 to 12 selects an abbreviation that has a display name (also line 423) |
| Lookup.NocCategoriesWellFormed | project.py:62-73 | the ten categories are numbered 0 to 9 in order, and each name starts with its own digit and a space |
| Lookup.GroupNamesDistinct | project.py:56-60 | the service names are distinct and so are the engineer-type names, so each becomes its own column (also lines 75-79) |
| Frames.CleanColumn | project.py:119 | a cleaned column keeps one entry per row |
| Frames.CleanColumnOkIff | project.py:119 | a column cleans exactly when every one of its cells can be read |
| Frames.CleanColumnValues | project.py:119 | a cleaned column holds, row by row, the row's label and the count read from its cell |
| Frames.CleanColumnFirstBad | project.py:119 | a column that fails names a row whose cell cannot be read, every earlier cell being readable |
| Frames.CleanAll | project.py:117-119 | cleaned columns are exactly the requested ones, each as long as the table |
| Frames.CleanAllOkIff | project.py:117-119 | the requested columns clean exactly when each one does |
| Frames.CleanAllValues | project.py:117-119 | each column of the result holds that column's cleaned entries |
| Frames.CleanAllFirstError | project.py:117-119 | a failure names a requested column that fails, with its first unreadable row, every column before it cleaning |
| Frames.CleanColumns | project.py:117-119 | the column-by-column cleaning loop gives the same result as the specification of the cleaning |
| Frames.CleanAllErrSticks | project.py:117-119 | once a column fails, the columns after it do not change the outcome |
| Frames.SumWhere | project.py:126 | the sum over the selected rows is at most the sum over all rows, and 0 when no row is selected (also lines 171-172, 195 and 232) |
| Frames.SumWhereConcat | project.py:126 | a selected sum splits over a split of the table (also lines 195 and 232) |
| Frames.SumWhereSingle | project.py:126 | a one-row table contributes its count exactly when its label is selected (also lines 195 and 232) |
| Frames.GatherErrSticks | project.py:114 | the first province that fails ends the run, and provinces after it do not change the outcome (also lines 160, 185 and 221) |
| Frames.GatherOkIff | project.py:114 | a run over the provinces succeeds exactly when every province succeeds (also lines 160, 185 and 221) |
| Frames.GatherFixedWidth | project.py:114 | when each province gives w rows, the table has w rows per province, province k's rows sitting at positions w·k to w·k + w − 1 (also lines 160, 185 and 221) |
| Frames.GatherRowsFrom | project.py:114 | every row of a successful run comes from the rows of one of the provinces (also lines 160, 185 and 221) |
| Ratios.Divide | project.py:126 | the unguarded division is a number exactly when the divisor is not 0; the number times the divisor is the dividend, and it is never negative |
| Ratios.Share | project.py:175 | a guarded share times a positive whole gives the part back; it is 0 for a zero whole, never negative, and at most 1 when the part does not exceed the whole (also line 198) |
| Ratios.Percent | project.py:234 | a guarded percentage times a positive whole gives 100 times the part; it is 0 for a zero whole, never negative, and at most 100 when the part does not exceed the whole |
| Ratios.SharesComplement | project.py:173-175 | the men's and women's shares of their combined total add up to 1, and are both 0 when the total is 0 |
| Ratios.PercentAdditive | project.py:234 | percentages of the same whole add like their parts |
| Ratios.PercentMonotone | project.py:234 | a larger part gives a larger or equal percentage |
| Ratios.PercentBelowWhole | project.py:234 | a part strictly below a positive whole gives less than 100 percent |
| Essential.ServiceSharesAt | project.py:124-126 | each service's entry is its code-matched total divided by the population |
| Essential.ServiceSharesKeys | project.py:124-127 | the service dictionary has one key per service and no other |
| Essential.FillServices | project.py:124-127 | the loop over the services builds the service dictionary the specification gives |
| Essential.EssentialForProvince | project.py:115-127 | the per-province loop over the services builds the same row as the specification |
| Essential.ProcessEssential | project.py:109-130 | the loop over the provinces builds the same table as the specification |
| Essential.EssentialRowsOkIff | project.py:115-121 | a province gives its row exactly when its table has a first row and all three count columns can be read |
| Essential.EssentialRowsValue | project.py:119-130 | the row names the province and its abbreviation (absent when the province has none). It has exactly one entry per service: the service's code-matched total divided by the population, a number exactly when the population is not 0 |
| Essential.EssentialTableShape | project.py:114-130 | a successful run has one row per province, in the order visited, each naming its province and its abbreviation |
| Essential.EssentialRowShape | project.py:119-130 | a province's result is one row naming the province and its abbreviation, with a readable first total as population |
| Essential.EssentialShareAt | project.py:121-127 | a service's entry in the row is its code-matched total divided by the first row's total |
| Essential.ExampleTotalCells | project.py:119 | the example's total row reads as 10000, 5000 and 5000 |
| Essential.ExampleNursesCells | project.py:119 | the example's nurses row reads as 1000, 100 and 900 |
| Essential.ExamplePoliceCells | project.py:119 | the example's police row reads as 500, 400 and 100 |
| Essential.ExampleCellsRead | project.py:117-119 | every cell of the example table can be read |
| Essential.ExampleReadable | project.py:115-121 | Alberta's example table gives its row |
| Essential.EssentialCodesFiveDigits | project.py:56-60 | every occupation code of a service is five digits |
| Essential.ExampleTotalMatchesNone | project.py:125 | in the example, "Total" matches no service |
| Essential.ExampleNursesMatch | project.py:125 | in the example, the nurses' row matches the nurses service only |
| Essential.ExamplePoliceMatch | project.py:125 | in the example, the police row matches the police service only |
| Essential.ExampleCleans | project.py:117-121 | the example table, whose every count column holds a cell with a separator, cleans to three entries, population 10000 |
| Essential.ExampleSums | project.py:126 | in the example, the services' code-matched totals are 1000, 500 and 0 |
| Essential.ExampleShares | project.py:126-127 | in the example, the shares are 0.1, 0.05 and 0 |
| Essential.EssentialExample | project.py:109-130 | for Alberta's example table, the row has abbreviation AB and shares 0.1 for nurses, 0.05 for police and 0 for firefighters |
| Gender.CategoryLoop | project.py:166-175 | the loop over the categories builds the same rows as the specification |
| Gender.GenderForProvince | project.py:161-175 | one province's rows agree with the specification |
| Gender.ProcessGender | project.py:157-177 | the loop over the provinces builds the same table as the specification |
| Gender.CategoryRowsErrSticks | project.py:166-175 | once an abbreviation lookup fails, the later categories do not change the outcome |
| Gender.MatchedCategoriesMembers | project.py:167-170 | the categories that give rows are exactly those some label starts with as "<code> " |
| Gender.MatchedCategoriesOrdered | project.py:166-170 | categories with rows keep the table's order |
| Gender.CategoryRowsOkIff | project.py:166-175 | the category rows are built exactly when no category has rows or the province has an abbreviation; the only failure is the unknown province |
| Gender.CategoryRowsValue | project.py:166-175 | a successful build gives one row per category with rows, in order, each the row of that category; the province then has an abbreviation when there is any row |
| Gender.CategoryRowsDescribe | project.py:166-175 | for categories with one-digit codes, every row describes its category and splits its total |
| Gender.CategoryRowsOrdered | project.py:166-170 | categories listed in increasing code order give rows in increasing code order |
| Gender.DescribedRowSplits | project.py:171-175 | a category row's men's and women's shares add up to 1 when its total is positive, and are both 0 otherwise |
| Gender.GenderRowsOkIff | project.py:163-175 | a province gives its rows exactly when its men and women cells can be read and, should any category have rows, it has an abbreviation |
| Gender.GenderRowsValue | project.py:163-175 | one province's rows correspond one to one, in order, to the categories that some label starts with. Each row counts the men and women under its category and splits its total between them. Codes strictly increase, so no category appears twice |
| Gender.GenderTableSplits | project.py:157-177 | every row of the whole table belongs to a visited province, names one of the ten categories and splits its total between men and women |
| Engineers.CountTypes | project.py:192-195 | the loop over the engineer types builds the totals dictionary the specification gives |
| Engineers.AddCounts | project.py:197 | adding up the dictionary's values gives the engineer total, the types having distinct names |
| Engineers.EngineersForProvince | project.py:186-199 | the per-province loop over the engineer types builds the same row as the specification |
| Engineers.ProcessEngineers | project.py:181-201 | the loop over the provinces builds the same table as the specification |
| Engineers.TypeCountsAt | project.py:193-195 | each type's entry is the total of the rows whose label contains its code |
| Engineers.TypeCountsKeys | project.py:192-195 | the totals dictionary has one key per type and no other |
| Engineers.TypeSumCovers | project.py:195-197 | each type's count is at most the engineer total |
| Engineers.EngineerRowsOkIff | project.py:187-199 | a province gives its row exactly when it has an abbreviation, its table has a first row and every total cell can be read |
| Engineers.EngineerCounts | project.py:192-197 | the totals dictionary holds the computer, mechanical and electrical counts, each at most the engineer total, which is their sum |
| Engineers.TypeSumOfThree | project.py:197 | the total over three types is the sum of their three counts |
| Engineers.EngineerRowsValue | project.py:187-199 | the row carries the province's abbreviation, display name and coordinates, one count per type and their total. The per-capita value is the guarded share of that total in the population |
| Engineers.EngineerTableShape | project.py:185-201 | a successful run has one row per province, in the order visited |
| Engineers.PerCapitaMatches | project.py:194 | in the example, "Total" matches no engineer code and the computer-engineer row only its own |
| Engineers.PerCapitaSums | project.py:195 | in the example, the type counts are 2000, 0 and 0 |
| Engineers.PerCapitaCells | project.py:189 | the example cells "2,000,000" and "2,000" read as those counts |
| Engineers.PerCapitaCleans | project.py:187-190 | Alberta's example table gives its row, its total column cleaning to 2,000,000 and 2,000 |
| Engineers.PerCapitaFigures | project.py:190-198 | any table whose total column cleans to the example's gives 2000 engineers and 0.001 per head |
| Engineers.PerCapitaExample | project.py:186-199 | for Alberta with 2000 engineers among 2,000,000 people, the row has total 2000, per-capita 0.001, display name "Alberta" and Alberta's coordinates |
| Occupations.AfterFirstSpace | project.py:236 | splitting once at a space keeps exactly the text after the first space |
| Occupations.NocNamesSpaced | project.py:62-73 | every category name contains a space, so the split at line 236 cannot fail |
| Occupations.AfterFirstSpaceOf | project.py:236 | splitting "<head> <rest>" with a space-free head gives rest |
| Occupations.CategoryNameAfterCode | project.py:236 | a name starting with a one-digit code and a space splits back into that code, the space and the displayed name, which is the text from the third character on (the names are at lines 62-73) |
| Occupations.CategoryLoop | project.py:229-236 | the loop over the categories, skipping category 0, builds the same rows as the specification |
| Occupations.OccupationsForProvince | project.py:222-236 | one province's rows agree with the specification |
| Occupations.ProcessOccupations | project.py:217-238 | the loop over the provinces builds the same table as the specification |
| Occupations.PercentRowsAt | project.py:229-236 | every category but the first gives exactly one row, in order, with its name and its percentage of the province total |
| Occupations.OccupationRowsOkIff | project.py:223-226 | a province gives its rows exactly when it has an abbreviation and every total cell can be read |
| Occupations.OccupationRowsValue | project.py:223-236 | a province gives nine rows for categories 1 to 9, each with the province abbreviation. The percentage is of rows whose first character is the category digit, out of all rows. It is between 0 and 100, and 0 when the province total is 0 |
| Occupations.OccupationRowsNames | project.py:229-236 | the nine rows' names are the names of categories 1 to 9, in order, without their leading digit and space (the names are at lines 62-73) |
| Occupations.OccupationTableShape | project.py:221-238 | a successful run has nine rows per province: province k's rows sit at positions 9k to 9k + 8 and carry its abbreviation |
| Occupations.CodesSumLastRow | project.py:232 | the selected total over several categories splits off the last row's part |
| Occupations.PercentTotalAddRow | project.py:234-236 | adding a row's percentage of the same whole adds its part |
| Occupations.RowPartUnselected | project.py:232 | a row whose first character is none of the categories' digits counts towards none of them |
| Occupations.RowPartAtMostOnce | project.py:232 | with distinct categories, a row counts towards at most one of them |
| Occupations.CodesSumBound | project.py:232-233 | the rows the categories select total at most the province total, and with an unselected row at most the province total minus its count |
| Occupations.PercentRowsTotal | project.py:229-236 | the nine percentages sum to the percentage of the categories' combined total |
| Occupations.PercentRowsTotalStep | project.py:229-236 | one more category adds its row's percentage and its code's totals, or nothing for category 0 |
| Occupations.NonZeroCodesIncrease | project.py:229-230 | the kept category codes increase strictly and each comes from the category table |
| Occupations.NocNonZeroCodes | project.py:62-73 | the kept category codes are exactly 1, 2, ..., 9 in that order, each once, since category 0 is skipped (also lines 229-230) |
| Occupations.OccupationPercentagesBounded | project.py:226-236 | a province's nine percentages sum to at most 100, and to less than 100 as soon as some row with a positive total starts with no digit from 1 to 9 (for instance "Total") |
| Pipeline.RunTables | project.py:154 | building the four tables one after another gives the specified result, the first failure ending the run (also lines 179, 203 and 240) |
| Pipeline.RunDashboard | project.py:154 | the dashboard's start-up builds the four tables over the 13 provinces and territories (also lines 179, 203 and 240) |
| Pipeline.ProvinceFilesKnown | project.py:8-22 | every province of the file table has an abbreviation (also lines 40-54) |
| Pipeline.ProvinceEssentialOkIff | project.py:114-130 | for any province, the essential-services row builds exactly when its file exists, has a first row and has only readable count cells |
| Pipeline.ProvinceOthersOk | project.py:157-240 | for a province with an abbreviation and a readable file, the gender, engineers and occupation rows build |
| Pipeline.ProvinceOkIff | project.py:114-240 | for a province with an abbreviation, all four tables build exactly when its file exists, has a first row and has only readable count cells |
| Pipeline.BuildTablesOkIff | project.py:154-240 | for provinces that all have abbreviations, start-up succeeds exactly when every file is there, has a first row and has only readable count cells |
| Pipeline.BuildTablesShape | project.py:154-240 | a successful start-up has one essential-services row and one engineers row per province, and nine occupation rows per province; each essential-services row carries an abbreviation |
| Pipeline.DashboardOkIff | project.py:154-240 | with the 13 provinces and territories the abbreviation lookups never fail, so start-up succeeds exactly when every province file exists, has a first row and has only readable count cells; a successful start-up has 13, 13 and 117 rows in its essential-services, engineers and occupation tables |

## Left out

- Reading the CSV files is outside the model: each file is a parameter, a map from file name to rows of label and three count cells. A missing file is the `MissingFile` error.
- The GeoJSON download at project.py:102 is left out, because it is network I/O whose result only the map chart uses.
- The Dash layout, the figure-building callbacks and `empty_message` (project.py:205-215, 242-448) are left out. They only display the four tables. The slider's indices are covered by `Lookup.SliderIndicesInRange`.
- The first gender table built inside `load_and_process_data` (project.py:133-152) is not modelled. `process_task2_data` replaces it at line 179 before anything reads it. Its only possible failure, re-reading the men and women cells, cannot happen once task 1 has read the same cells.
- Floating point is not modelled: counts are exact naturals and ratios exact reals. NaN and infinity from the unguarded division at line 126 are one `NonFinite` value.
- Occupations.OccupationRowsValue: percentages are exact, without the `round(..., 1)` of line 236. The bounds hold for the exact values, and rounding nine values can push their sum past 100 by up to 0.45.
- Counts.CleanCountDefinedIff: only digits and commas are accepted. The model rejects what `float()` would also accept: signs, decimal points, exponents, surrounding blanks, "nan" and "inf", digit-group underscores such as "1_000", and non-ASCII decimal digits. Census cells are whole counts written in ASCII digits and commas.
- Empty (NaN) cells and labels, and pandas' type inference, are not modelled. Every cell and label is a string. A count column with no thousands separator in any cell would be read by pandas as numbers, and `.str.replace` at lines 119, 164, 189 and 226 would then raise; the model reads such a column.
- Frames.CleanColumnOkIff: a column with no thousands separator in any cell is stated to clean, although pandas would have read it as numbers and `.str.replace` would raise.
- Frames.CleanAllOkIff: the same caveat about a column pandas reads as numbers.
- Essential.EssentialRowsOkIff: the same caveat about a column pandas reads as numbers.
- Gender.GenderRowsOkIff: the same caveat about a column pandas reads as numbers.
- Engineers.EngineerRowsOkIff: the same caveat about a column pandas reads as numbers.
- Occupations.OccupationRowsOkIff: the same caveat about a column pandas reads as numbers.
- Pipeline.ProvinceEssentialOkIff: the same caveat about a column pandas reads as numbers.
- Pipeline.ProvinceOthersOk: the same caveat about a column pandas reads as numbers.
- Pipeline.ProvinceOkIff: the same caveat about a column pandas reads as numbers.
- Pipeline.BuildTablesOkIff: the same caveat about a column pandas reads as numbers.
- Pipeline.DashboardOkIff: the same caveat about a column pandas reads as numbers.
- The code test at lines 125 and 194 hands the codes to a regular expression. The model uses plain substring search, which agrees because the codes are digit strings without regex metacharacters.
- Dictionaries are modelled as sequences of pairs in their literal order, or as maps where only lookup matters. Columns of a data frame are record fields.
- Essential.EssentialRowsValue: the abbreviation column of task 1 is an `Option`, because `Series.map` yields NaN rather than an error for an unknown province.
- Engineers.EngineerRowsValue: the per-capita value is stated as the guarded `Share` of the total in the population, whose own contract relates it to the total by multiplication. It is not restated inline as a product.
