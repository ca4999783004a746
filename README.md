# Total Sales dashboards: filtering, aggregation and geocoding

This project models the data logic of two Streamlit dashboards over the same sales data:

- `Console_Total.py` reads a spreadsheet with sales, collections (Recolt) and a staff roster;
- `Console_Sql_Total.py` reads the same kind of data from a database and adds an agent view.

Both dashboards share the same steps, and the model covers each of them:

- `preprocess_data` coerces the amount column to numbers, with 0 for anything unreadable;
- `filter_data` narrows a table:
  - by an inclusive date range;
  - by country, unless the "Tous" entry is chosen;
  - by a semi-join on `Hyp` against the staff roster filtered by team, department and activity, each with its own "all" entry;
  - in the database variant, an agent's own `Hyp` short-circuits all of the above.
- the group-by sums behind the charts: per city, per bank, per team after a left merge with the roster, and per calendar day;
- `geocode_data` looks up every distinct (City, Country) place once and merges the coordinates back onto the rows;
- the map data: one point per (City, Latitude, Longitude), with its total and its count;
- the top-10 list of cities.

The model is organised as follows:

- A table is a set of column names plus a sequence of `Row` values.
- Text cells are `Option<string>`, where `None` is a missing value. Plain equality on them matches pandas:
  - missing keys match each other in `isin`, `merge` and `drop_duplicates`;
  - a missing value never equals a string in an `==` mask.
- Numeric cells are `Null`, `Num(n)` or `Unparsed`.
- An ORDER_DATE cell is a `Stamp`: a timestamp in seconds, missing, or present but unreadable. Only a timestamp passes a date comparison; `dropna()` drops only a missing one.
- The date pickers give calendar days, which are compared at their midnight.
- The geocoding service is a function parameter `Place -> Outcome` with three outcomes: found, nothing found, or raised.
- Indexing a column the table lacks is a `Failure` result, standing for pandas' `KeyError`.

Modules:

- `Wrappers`: `Option` and `Result`.
- `Seqs`: boolean-mask selection, subsequences, `drop_duplicates`, sums and the pandas left merge.
- `Groups`: group-by sums.
- `Frames`: the data model.
- `Preprocess`: numeric coercion and the collections loader's cleaning step.
- `Geocoding`: places and lookup outcomes.
- `Dashboard`: the spreadsheet dashboard.
- `SqlDashboard`: the database dashboard.
- `Breakdowns`: the city, bank and team charts.
- `CityMap`: the map and the top 10.
- `Examples`: small worked cases.

In two places the code does something other than what one might expect, and the model follows the code:

- **Unmatched `Hyp` in the team sums.** One might expect a sale whose `Hyp` is not in the roster to form its own "unknown" team group. In the code the left merge gives such a row a missing Team, and `groupby('Team')` drops missing keys. So the row is in no team total at all (`Breakdowns.TeamTotal`, `Breakdowns.UnknownHypNotCounted`). On the dashboards themselves such a sale never reaches the merge: `filter_data` applies its roster semi-join under the same guard as the team chart, a Hyp column and a non-empty roster (Console_Total.py:112 and 201, Console_Sql_Total.py:139 and 249). So there a missing Team key can only come from a roster row whose Team cell is missing.
- **The end date.** One might expect the date range to include its whole end day. The code compares `ORDER_DATE` with `pd.to_datetime(end_date)`, which is the first instant of that day. So a sale stamped later on the end day is excluded (`Dashboard.FilterDataEndDayCutoff`).

## Model

| member | source | states |
|---|---|---|
| Preprocess.Coerced | Console_Total.py:51-54 | after coercion every amount is a number: a number is kept, a missing or unreadable one becomes 0; no other field changes and the row count is kept |
| Preprocess.PreprocessData | Console_Sql_Total.py:114-120 | in place, the row array becomes its coerced rows when the table has the amount column, and is left unchanged otherwise |
| Preprocess.CoercedKeepsTotals | Console_Total.py:51-54 | coercion leaves the column sum unchanged and makes the non-missing count equal to the row count |
| Preprocess.CoercedIdempotent | Console_Total.py:47-57 | preprocessing an already preprocessed table changes nothing |
| Preprocess.LoadCollections | Console_Total.py:244-263 | the second `load_data` never adds rows and leaves every TRANSACTION a number; its meaning is stated by `Preprocess.LoadCollectionsSpec` |
| Preprocess.LoadCollectionsSpec | Console_Total.py:257-263 | the cleaned collections are the coercion of the subsequence of the sheet that holds every copy of each complete row and nothing else, so they keep input order and hold each as many times as complete sheet rows clean into it: a row with any missing cell, including a missing TRANSACTION or ORDER_DATE, is dropped; an unreadable TRANSACTION becomes 0; an unreadable ORDER_DATE is kept as it is, since this loader never parses dates |
| Dashboard.FilterData | Console_Total.py:96-126 | `filter_data` never adds rows; what it keeps is stated by `Dashboard.FilterDataIsAdmitted` and the rows after it |
| Dashboard.Hyps | Console_Total.py:124 | a Hyp is in the list exactly when some roster row has it |
| Dashboard.RosterSelectionMembers | Console_Total.py:114-121 | the filtered roster holds exactly the roster rows passing every active team, department and activity filter |
| Dashboard.FilterDataIsAdmitted | Console_Total.py:96-126 | the chain of masks equals one selection by `Admitted`, the conjunction of the date, country and roster tests |
| Dashboard.FilterDataKeepsExactlyAdmitted | Console_Total.py:96-126 | the result is a subsequence of the input (order kept, nothing added or altered) and holds every copy of each admitted row and no other row |
| Dashboard.FilterDataMembers | Console_Total.py:96-126 | a row is returned if and only if it is an input row that is admitted |
| Dashboard.FilterDataDates | Console_Total.py:101-105 | with an ORDER_DATE column every returned row has a date between the start and end midnights inclusive; rows whose date is missing or unreadable are never returned |
| Dashboard.FilterDataEndDayCutoff | Console_Total.py:101-105 | a row stamped on the end day after its midnight is not returned |
| Dashboard.FilterDataCountry | Console_Total.py:108-109 | a country other than "Tous" keeps only rows of that country |
| Dashboard.FilterDataRoster | Console_Total.py:112-124 | with a Hyp column and a non-empty roster, every returned row's Hyp belongs to a roster row passing the roster filters, and a Hyp absent from the roster is never returned |
| Dashboard.FilterDataEmptyRoster | Console_Total.py:112 | with an empty roster the team, department and activity choices do not change the result, which is the date and country selection alone |
| Dashboard.FilterDataWiden | Console_Total.py:108-121 | a selection admitting every roster row and country the first one admits returns a supersequence of its result |
| Dashboard.FilterDataSentinelsWiden | Console_Total.py:108-121 | setting the country, team, department or activity to its "all" entry never removes a row from the result |
| Dashboard.Locations | Console_Total.py:277-294 | the locations list has one entry per place, in order, with the coordinates found or missing ones when nothing was found or the call raised |
| Dashboard.LocationsMatch | Console_Total.py:274-294 | each distinct place has exactly one locations entry, holding its lookup's coordinates; an unlisted place has none |
| Dashboard.Geocoded | Console_Total.py:267-298 | geocoding fails exactly when the table lacks a coordinate column and lacks City or Country or has no rows, and an accepted table has both coordinate columns; a table that already has both is returned as it is; its rows are stated by `Dashboard.GeocodedRows` |
| Dashboard.LocationsEmpty | Console_Total.py:274-296 | the `locations` list is empty exactly when the table has no rows |
| Dashboard.GeocodedNoRows | Console_Total.py:296-297 | a table with City and Country but no rows fails on the merge with the column-less `locations_df`, reported as a missing City |
| Dashboard.AttachLocated | Console_Total.py:296-297 | the merge with the locations keeps every row, in order, each with the coordinates of its own place or missing ones |
| Dashboard.GeocodedRows | Console_Total.py:267-298 | on a table with rows, City and Country and neither coordinate column, geocoding adds Latitude and Longitude and keeps every row, in order, changing only its coordinates, which are those found for its own (City, Country) or missing |
| Dashboard.GeocodedIdempotent | Console_Total.py:268-269 | geocoding an already geocoded table returns it unchanged |
| Dashboard.LookUpPlaces | Console_Total.py:277-294 | the loop yields exactly the `locations` list, one entry per place, and looks up exactly the places, one call each, in order |
| Dashboard.GeocodeData | Console_Total.py:267-298 | the loop computes the geocoded table, making one lookup call per distinct place in first-seen order (`Seqs.DistinctFirstSeen`), and none when coordinates exist, a column is missing or the table is empty |
| SqlDashboard.FilterData | Console_Sql_Total.py:123-149 | the database `filter_data` fails exactly when an agent is given and the table has no Hyp column, and never adds rows; its rows are stated by the three rows after it |
| SqlDashboard.FilterDataOwnRows | Console_Sql_Total.py:127-128 | a truthy current_hyp returns exactly that agent's rows, each as many times as in the table, as a subsequence, whatever the other selections and roster are; it fails without a Hyp column |
| SqlDashboard.FilterDataAsSpreadsheet | Console_Sql_Total.py:123-149 | without an agent the database filter equals the spreadsheet filter with the department on "Tous" |
| SqlDashboard.FilterDataMembers | Console_Sql_Total.py:130-147 | without an agent the result is a subsequence of the input holding exactly the input rows admitted by date, country and the team and activity roster semi-join |
| SqlDashboard.FoundLocations | Console_Sql_Total.py:159-173 | the locations list holds only places whose lookup found a location, with that location |
| SqlDashboard.FoundLocationsMatch | Console_Sql_Total.py:159-173 | a found place has exactly one entry; a place not found, raising or unlisted has none |
| SqlDashboard.FoundLocationsEmpty | Console_Sql_Total.py:175 | the locations list is empty exactly when no place was found |
| SqlDashboard.Geocoded | Console_Sql_Total.py:152-178 | geocoding fails exactly when the table lacks a coordinate column and lacks City or Country, and otherwise keeps every column, adding at most Latitude and Longitude; a table that already has both is returned as it is |
| SqlDashboard.AttachFoundLocated | Console_Sql_Total.py:176-177 | the merge with the found places keeps every row, in order, each with its place's coordinates when found and missing ones otherwise |
| SqlDashboard.GeocodedRows | Console_Sql_Total.py:175-177 | on a table with City and Country and neither coordinate column, when a place was found, the coordinate columns are added and every row is kept, in order, with its own place's coordinates or missing ones |
| SqlDashboard.GeocodedAsSpreadsheet | Console_Sql_Total.py:152-178 | once any row's place is found, the result equals the spreadsheet dashboard's geocoding |
| SqlDashboard.GeocodedIdempotent | Console_Sql_Total.py:152-178 | geocoding the result of a geocoding returns it unchanged, whether coordinates were added or nothing was found |
| SqlDashboard.GeocodedNoneFound | Console_Sql_Total.py:175-178 | when no place is found the table is returned unchanged, without coordinate columns |
| SqlDashboard.LookUpPlaces | Console_Sql_Total.py:162-173 | the loop yields exactly the found-only `locations` list and looks up every place with one call, in order |
| SqlDashboard.GeocodeData | Console_Sql_Total.py:152-178 | the loop computes the geocoded table and makes one lookup call per distinct place, skipping failures |
| SqlDashboard.SalesByDate | Console_Sql_Total.py:382 | the per-date series lists each day once, and only days on which some row is stamped; its totals are stated by the rows after it |
| SqlDashboard.DayBounds | Console_Sql_Total.py:382 | a timestamp's calendar day is d exactly when it lies between the midnight of d and the next |
| SqlDashboard.DayKeyIsOnDay | Console_Sql_Total.py:382 | grouping by calendar day puts a row in day d exactly when it is stamped on day d |
| SqlDashboard.SalesByDateDays | Console_Sql_Total.py:382 | each day appears once in the per-date series, and appears exactly when some row is stamped on it |
| SqlDashboard.SalesByDateTotals | Console_Sql_Total.py:382 | each day's total is the amount summed over exactly the rows stamped on that day |
| SqlDashboard.SalesByDateAddsUp | Console_Sql_Total.py:382 | the per-date totals add up to the amount of all dated rows; undated rows are dropped |
| Frames.Day | Console_Sql_Total.py:382 | the calendar day of a timestamp is the day whose midnight and the next one enclose it |
| Geocoding.Places | Console_Total.py:274 | the distinct places hold no repetition, every row's place, and only places of rows |
| Seqs.Distinct | Console_Total.py:274 | `drop_duplicates` keeps each element once and nothing else |
| Seqs.DistinctFirstSeen | Console_Total.py:274 | `drop_duplicates` lists the elements in the order of their first occurrences |
| Seqs.LeftMerge | Console_Total.py:297 | a left merge has at least one row per left row; its rows are stated by the three rows after it |
| Seqs.LeftMergeFromLeft | Console_Total.py:297 | every merged row carries one of the left rows |
| Seqs.MatchesMembers | Console_Total.py:297 | the values matched to a key are exactly those the right table pairs with it |
| Seqs.LeftMergeMatch | Console_Total.py:297 | a left row appears paired with a value exactly when that value matches the row's key |
| Seqs.LeftMergeLength | Console_Total.py:297 | a left merge yields one row per unmatched left row plus one per match of each matched left row |
| Seqs.LeftMergeUnique | Console_Total.py:297 | when no key has two matches, a left merge keeps the row count and order and gives each row its match, if any |
| Seqs.LeftMergeKeepsRows | Console_Total.py:297 | no left row is lost in a left merge |
| Groups.GroupSum | Console_Total.py:196 | a group-by sum lists each non-missing key once, lists a key exactly when some row has it, and gives it the sum over exactly its rows |
| Groups.GroupSumAddsUp | Console_Total.py:196 | the group totals add up to the sum over the rows whose key is not missing |
| Breakdowns.SalesByCity | Console_Total.py:196 | each city once, with the sum over exactly its rows; the totals add up to the amount of the rows with a city, and to the whole amount when every row has one |
| Breakdowns.SalesByCityListsCities | Console_Sql_Total.py:245 | a city is listed exactly when some row has it |
| Breakdowns.BankTotals | Console_Total.py:225 | each bank once, with the sum over exactly its rows; the totals add up to the amount of the rows with a bank |
| Breakdowns.BankTotalsListsBanks | Console_Total.py:225 | a bank is listed exactly when some row has it |
| Breakdowns.WithTeam | Console_Total.py:202 | the merge with the roster's Team column has at least one row per sale, and every merged row carries one of the sales |
| Breakdowns.SalesByTeam | Console_Total.py:203 | each team once, and a team is listed exactly when some merged row carries it; its totals are stated by `Breakdowns.SalesByTeamTotals` |
| Breakdowns.TeamBreakdown | Console_Total.py:189-204 | the team chart exists exactly when the filtered table is not empty, the roster is not empty and the table has a Hyp column; it lists each team once, lists a team exactly when some sale's Hyp has a roster row in that team, and gives it the sales weighted by their roster rows in that team as its total |
| Breakdowns.SalesByTeamListsTeams | Console_Total.py:202-203 | a team is listed exactly when some sale's Hyp has a roster row in that team |
| Breakdowns.TeamMatches | Console_Total.py:202 | the merge's matches for a Hyp are the roster rows with that Hyp, and those giving a team are its roster rows in that team |
| Breakdowns.WithTeamLength | Console_Total.py:202 | the merge turns each sale into one row per roster row sharing its Hyp, or one row when there is none |
| Breakdowns.WithTeamUnique | Console_Total.py:202 | when no Hyp occurs twice in the roster the merge keeps the row count and order, and a row gets a Team cell exactly when its Hyp is in the roster |
| Breakdowns.TaggedTeamTotal | Console_Total.py:202-203 | the copies of a sale made for its matches add its amount to a team once per match carrying that team |
| Breakdowns.MergeRowTeamTotal | Console_Total.py:202-203 | the merged copies of one sale add its amount to a team once per matching roster row in that team |
| Breakdowns.TeamTotal | Console_Total.py:202-203 | a team's total over the merged rows is the amount of each sale counted once per roster row giving its Hyp that team |
| Breakdowns.SalesByTeamTotals | Console_Sql_Total.py:250-251 | each team of the team chart appears once, with the sales weighted by their roster rows in that team as its total |
| Breakdowns.UnknownHypNotCounted | Console_Total.py:202-203 | a sale whose Hyp is not in the roster adds nothing to any team |
| CityMap.CityData | Console_Total.py:340-343 | one point per (City, coordinates) place, with the sum and the non-missing count of the amounts over exactly that place's rows |
| CityMap.CityDataFromRows | Console_Total.py:340-343 | every point comes from a row with that city and those coordinates; rows without coordinates give no point |
| CityMap.CityDataCoversRows | Console_Total.py:340-343 | every row with a city and coordinates has its point |
| CityMap.CityDataAddsUp | Console_Total.py:340-343 | the points' totals add up to the amount of the rows with a city and coordinates |
| CityMap.MapData | Console_Sql_Total.py:291-296 | the map data fails exactly when one of Country, City, Latitude, Longitude and the amount column is missing, and lists each (City, coordinates) place once |
| CityMap.MapDataNeedsCoordinates | Console_Sql_Total.py:291-296 | a table without Latitude or Longitude, as left by a geocoding that found nothing, has no map data |
| CityMap.MapDataAddsUp | Console_Total.py:337-343 | the map's totals add up to the amount of the selected country's rows with a city and coordinates |
| CityMap.MapDataFromRows | Console_Total.py:337-343 | every point of the map comes from a row of the selected country with that city and those coordinates |
| CityMap.MapDataCoversRows | Console_Total.py:337-343 | every row of the selected country with a city and coordinates has its point on the map |
| CityMap.Insert | Console_Total.py:388 | inserting into a list sorted largest first keeps it sorted and adds exactly that element |
| CityMap.SortByTotal | Console_Total.py:388 | sorting by TOTAL_SALES descending yields a permutation sorted largest first |
| CityMap.TopCities | Console_Sql_Total.py:337 | the top list has min(10, n) places, sorted largest first, all from the map data, and no place left out has a larger total than a place kept |
| Examples.JanuaryInParis | Console_Total.py:101-105 | of Paris sales on 5 January and 1 February 2024, January's range keeps only the first |
| Examples.ParisTotal | Console_Total.py:196 | one Paris sale of 100 gives Paris a total of 100 |
| Examples.TeamAOnly | Console_Total.py:112-124 | with team A chosen, only the team-A agent's sale is kept; sales of the team-B agent and of an agent missing from the roster are dropped |

## Left out

- Streamlit and Plotly are not modelled: layout, select boxes, metric tiles, charts, session state, the login page and the role dispatch. The team headcount chart (Console_Sql_Total.py:358) is also presentation only.
- Data loading is not modelled: the Excel and database reads, the database connection and `authenticate`. Tables arrive as values. In `Console_Total.py` the roster `staff_df` is a global; the model passes it to `Dashboard.FilterData` as a parameter.
- `pd.to_datetime` and `pd.to_numeric` parsing are not modelled. Their results are inputs: dates arrive as `Stamp` cells, and amounts as `Numeric` cells that are either numbers or `Unparsed`. Hence `Preprocess` models only the amount coercion, and the `Date_In` conversion is left out.
- The geocoding service, its one-second rate limiter and the `"City, Country"` query string are not modelled. The lookup is a function of the place, and the `requests` out-parameters count calls to the wrapped `geocode`, not network requests. The rate limiter's own retries of a failed call, and its returning `None` after the last one, are not modelled: such a call is one `Outcome`.
- `@st.cache_data` memoisation is not modelled.
- Floating point is not modelled. Amounts and coordinates are integers (coordinates in fixed-point units). The means, currency formatting and map-centre means are left out.
- Groups.GroupSum: lists keys in first-appearance order, whereas pandas sorts group keys. Every statement about the sums is independent of that order.
- CityMap.SortByTotal: places equal totals in one fixed order. `sort_values` does not promise an order among equal totals, so `CityMap.TopCities` only promises that no place left out has a larger total than a place kept.
- Dashboard.Geocoded: does not model a table holding only one of Latitude and Longitude. There the pandas merge creates suffixed `_x`/`_y` columns, while the model overwrites the coordinates and adds the missing column.
- Dashboard.GeocodeData: does not model a table holding only one of Latitude and Longitude, for the reason given for `Dashboard.Geocoded`.
- SqlDashboard.Geocoded: does not model a table holding only one of Latitude and Longitude. There the pandas merge creates suffixed columns, while the model overwrites the coordinates and adds the missing column.
- SqlDashboard.GeocodeData: does not model a table holding only one of Latitude and Longitude, for the reason given for `SqlDashboard.Geocoded`.
- Dashboard.FilterData and SqlDashboard.FilterData: treat an unreadable date cell like a missing one, failing the date test. The dashboards filter only tables that `preprocess_data` has parsed, where `pd.to_datetime(errors='coerce')` has already turned such a cell into NaT; the parsing step itself is not modelled (see above).
- SqlDashboard.FilterData: does not model the agent view called with a falsy `current_hyp`. That call passes `None` dates, which pandas cannot compare.
- Breakdowns.SalesByCity, Breakdowns.BankTotals, Breakdowns.SalesByTeam and SqlDashboard.SalesByDate: assume their grouping and amount columns exist. The `KeyError` raised for a missing one is not modelled.
- The department headcount chart at Console_Total.py:411-417 is not modelled. It runs only inside the `except` handler at Console_Total.py:409, after an error, and then fails itself with a `NameError`, since `staff_filtered` is local to `filter_data`.
